/**
 * Laws of the field contract: what conversion, assignment and the validator
 * chain guarantee, stated over the reference functions of `Micromodels` and,
 * where the guarantee is about fields in the heap, over its methods.
 */
module FieldLaws {
  import opened Wrappers
  import opened Micromodels
  import Text
  import OD = OrderedDict

  /** The converted value of a scalar field is a fixed point: assigning it back stores the same value. */
  lemma AssignIdempotent(k: Kind, default: Value, v: Value)
    requires Scalar(k) && Inert(default)
    requires Assign(k, default, v).Ok? && !Callable(Assign(k, default, v).value)
    ensures Assign(k, default, Assign(k, default, v).value) == Assign(k, default, v)
  {
    var w := Assign(k, default, v).value;
    var d := Populated(k, default, v).value;
    if d == Null {
      assert k.Boolean? ==> d.Bool?;
      assert Assign(k, default, v) == ScalarToPython(k, default, Some(Null));
      if w != Null {
        ConvertFixed(k, Populated(k, default, Called(default)).value);
      }
    } else {
      ConvertFixed(k, d);
    }
  }

  /** A converted scalar value converts to itself, and populating it changes nothing. */
  lemma ConvertFixed(k: Kind, d: Value)
    requires Scalar(k) && Convert(k, d).Ok?
    ensures var w := Convert(k, d).value;
      !Callable(w) && w != Null ==> Populated(k, Null, w) == Ok(w) && Convert(k, w) == Ok(w)
  {
    var w := Convert(k, d).value;
    if k.Boolean? {
      assert w.Bool?;
      assert BoolRule(w) == w.b;
    }
  }

  /** An integer written out by a CharField reads back as the same integer through an IntegerField. */
  lemma IntegerReadsCharText(n: int)
    ensures Convert(Char, Int(n)).Ok?
    ensures Convert(Integer, Convert(Char, Int(n)).value) == Ok(Int(n))
  {
    assert Convert(Char, Int(n)) == Ok(Str(Text.IntText(n)));
    IntOfText(n);
  }

  /** `int()` of the text of an integer is that integer. */
  lemma IntOfText(n: int)
    ensures IntOf(Str(Text.IntText(n))) == Ok(Int(n))
  {
    Text.ParseIntText(n);
  }

  /** `BooleanField` on `int` data: positive is true, zero and negative are false. */
  lemma BooleanOfInt(i: int)
    requires IsMachineInt(i)
    ensures Convert(Boolean, Int(i)) == Ok(Bool(i > 0))
    ensures Populated(Boolean, Null, Int(i)) == Ok(Bool(i > 0))
  {
  }

  /** Running `a ++ b` is running `a`, then `b` on its final value; a message from `a` stops the chain. */
  lemma {:induction false} ChainAppend(a: seq<Validator>, b: seq<Validator>, x: Value)
    ensures Chain(a + b, x) == match Chain(a, x)
                               case Valid(y) => Chain(b, y)
                               case Invalid(m) => Invalid(m)
                               case Broken(e) => Broken(e)
  {
    if a == [] {
      assert a + b == b;
    } else {
      assert (a + b)[0] == a[0];
      assert (a + b)[1..] == a[1..] + b;
      match Apply(a[0], x)
      case Raised(_) =>
      case Returned(rv) =>
        ChainAppend(a[1..], b, if rv == Null then x else rv);
    }
  }

  /** Validators that all return `None` leave the value as it is. */
  lemma {:induction false} ChainKeeps(vs: seq<Validator>, x: Value)
    requires forall i :: 0 <= i < |vs| ==> Apply(vs[i], x) == Returned(Null)
    ensures Chain(vs, x) == Valid(x)
  {
    if vs != [] {
      assert forall i :: 0 <= i < |vs[1..]| ==> vs[1..][i] == vs[i + 1];
      ChainKeeps(vs[1..], x);
    }
  }

  /** A validator's non-`None` result replaces the value for the rest of the chain. */
  lemma ChainReplaces(v: Validator, rest: seq<Validator>, x: Value, y: Value)
    requires Apply(v, x) == Returned(y) && y != Null
    ensures Chain([v] + rest, x) == Chain(rest, y)
  {
    assert ([v] + rest)[1..] == rest;
  }

  /**
   * With `required_validator` in front, a missing value fails with "This
   * field is required." before any user validator runs, and a present value
   * is passed to the user validators unchanged.
   */
  lemma RequiredFirst(user: seq<Validator>, x: Value)
    ensures Chain([Required] + user, x) == if x == Null then Invalid(RequiredMessage) else Chain(user, x)
  {
    assert ([Required] + user)[1..] == user;
  }

  /** A required field's validator list starts with `required_validator`; so `None` fails validation. */
  method RequiredField(ctr: Counter, kind: Kind, user: seq<Validator>) returns (f: Field)
    modifies ctr
    ensures f.validators == [Required] + user
    ensures Chain(f.validators, Null) == Invalid(RequiredMessage)
    ensures forall x :: x != Null ==> Chain(f.validators, x) == Chain(user, x)
  {
    f := new Field(ctr, kind, None, None, true, None, user);
    RequiredFirst(user, Null);
    forall x | x != Null
      ensures Chain(f.validators, x) == Chain(user, x)
    {
      RequiredFirst(user, x);
    }
  }

  /** Fields constructed one after another get consecutive, so strictly increasing, creation counters. */
  method DeclareInOrder(ctr: Counter, kinds: seq<Kind>) returns (fs: seq<Field>)
    modifies ctr
    ensures |fs| == |kinds| && ctr.next == old(ctr.next) + |kinds|
    ensures forall i :: 0 <= i < |fs| ==> fs[i].kind == kinds[i] && fs[i].counter == old(ctr.next) + i
    ensures forall i, j :: 0 <= i < j < |fs| ==> fs[i].counter < fs[j].counter
  {
    fs := [];
    for i := 0 to |kinds|
      invariant |fs| == i && ctr.next == old(ctr.next) + i
      invariant forall j :: 0 <= j < i ==> fs[j].kind == kinds[j] && fs[j].counter == old(ctr.next) + j
    {
      var f := new Field(ctr, kinds[i], None, None, true, None, []);
      fs := fs + [f];
    }
  }

  /** Calling `to_python()` twice on a scalar field gives the same value both times. */
  method ToPythonTwice(f: Field, depth: nat) returns (first: Result<Value>, second: Result<Value>)
    requires Scalar(f.kind) && Inert(f.default)
    modifies (iset m: Model | InHeap(m))`attrs, (iset g: Field | InHeap(g))`data, (iset g: Field | InHeap(g))`relatedObj
    ensures first.Ok? ==> second == first
  {
    first := f.ToPython(depth);
    second := f.ToPython(depth);
    if first.Ok? {
      ToPythonRepeatable(f.kind, f.default, old(f.data));
    }
  }

  /**
   * What `to_python()` returns for a scalar field, assigned back through the
   * same field, is stored unchanged, except the `None` of a `BooleanField`
   * with no data and no default: its `populate` stores `bool(None)`.
   */
  lemma StoredAsRead(k: Kind, default: Value, data: Option<Value>)
    requires Scalar(k) && Inert(default)
    requires ScalarToPython(k, default, data).Ok? && !Callable(ScalarToPython(k, default, data).value)
    ensures var w := ScalarToPython(k, default, data).value;
      Assign(k, default, w) == if k.Boolean? && w == Null then Ok(Bool(false)) else Ok(w)
  {
    var w := ScalarToPython(k, default, data).value;
    if data.None? || data.value == Null {
      if default != Null {
        var d := Populated(k, default, Called(default)).value;
        if w != Null {
          ConvertFixed(k, d);
          assert Populated(k, default, w) == Ok(w);
        } else {
          assert !k.Boolean?;
          assert Populated(k, default, w) == Ok(Null);
        }
      }
    } else {
      ConvertFixed(k, data.value);
      assert Populated(k, default, w) == Ok(w);
    }
  }

  /**
   * Reading an attribute twice, when the name has no added field of its own:
   * the first read of a field name that holds no value stores the converted
   * value, and the second read returns what was stored. That is the first
   * value, except that a `BooleanField` read as `None` stores `False`.
   */
  method ReadTwice(m: Model, key: string, depth: nat) returns (first: Result<Value>, second: Result<Value>)
    modifies (iset n: Model | InHeap(n))`attrs, (iset g: Field | InHeap(g))`data, (iset g: Field | InHeap(g))`relatedObj
    ensures m.ScalarOnly() && key !in OD.Keys(m.extra) && first.Ok? && !Callable(first.value) ==>
      second == if first == Ok(Null) && old(m.Stored(key)).None? && m.Descriptor(key).Some? && m.Descriptor(key).value.kind.Boolean?
                then Ok(Bool(false)) else first
  {
    ghost var before := m.Stored(key);
    ghost var cell := m.Descriptor(key);
    ghost var data := if cell.Some? then Some(cell.value.data) else None;
    if m.ScalarOnly() {
      ScalarLookup(m, key);
    }
    first := m.GetAttr(key, depth);
    second := m.GetAttr(key, depth);
    if m.ScalarOnly() && key !in OD.Keys(m.extra) && first.Ok? && !Callable(first.value) && before.None? {
      var f := cell.value;
      OD.UpdateGet(m.clsfields, m.extra, key);
      assert OD.Get(m.Fields(), key) == Some(f);
      StoredAsRead(f.kind, f.default, data.value);
    }
  }
}
