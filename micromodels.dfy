/**
 * The field-conversion and object-binding engine of micromodels.
 *
 * A `Field` holds the raw value it was populated with and converts it to a
 * native value on demand; a `ModelClass` is the resolved, ordered schema of a
 * model; a `Model` instance owns shallow copies of its class's fields, a table
 * of fields added at run time, and its attribute table.
 *
 * Field methods and model methods call each other (a nested model field builds
 * a model, which populates its own fields), so they share one module. Python's
 * recursion limit is the `depth` budget every engine method takes: each nested
 * conversion or export spends one unit, and an exhausted budget raises
 * `RecursionLimit`, as the interpreter does.
 */
module Micromodels {
  import opened Wrappers
  import OD = OrderedDict
  import Text
  import Declared
  import ErrorReport

  /** The exceptions the engine lets escape. */
  datatype Fault = TypeError | ValueError | KeyError | AttributeError | RecursionLimit

  datatype Result<T> = Ok(value: T) | Err(fault: Fault)

  /** The values the engine moves around: decoded data, callables, model classes and instances. */
  datatype Value =
    | Null
    | Bool(b: bool)
    | Int(i: int)
    | Str(s: string)
    | List(items: seq<Value>)
    | Dict(entries: map<string, Value>)
    | Producer(gives: Value)    // a callable taking no argument that returns `gives`
    | Class(cls: ModelClass)     // a model class; calling it makes an empty instance
    | Instance(obj: Model)

  /** What one validator does with the value it is given: return a value (`Null` keeps the current one) or raise. */
  datatype Outcome = Returned(v: Value) | Raised(message: string)

  datatype Validator =
    | Required                        // `required_validator`
    | Custom(run: Value -> Outcome)   // a validator the user supplied

  /** The result of `field.validate()`: the final value, a `ValidationError`, or another exception. */
  datatype Checked = Valid(value: Value) | Invalid(message: string) | Broken(fault: Fault)

  /** A `validate_<name>` method of a model, run on the instance's attribute table. */
  datatype Check = Passed | Failed(message: string) | MissingAttribute
  type Hook = map<string, Value> -> Check

  /** The field classes the engine models. */
  datatype Kind =
    | Plain                                                    // BaseField
    | Char                                                     // CharField
    | Integer                                                  // IntegerField
    | Boolean                                                  // BooleanField
    | Nested(wrapped: ModelClass, related: Option<string>)     // ModelField
    | NestedList(wrapped: ModelClass, related: Option<string>) // ModelCollectionField
    | FieldList(inner: Field)                                  // FieldCollectionField

  /** An entry of a class body: a field, or any other class attribute. */
  datatype Member = FieldMember(field: Field) | Attribute(value: Value)

  /** A base class: a model class (which has `_clsfields`) or any other class. */
  datatype Base = ModelBase(cls: ModelClass) | OtherBase

  const RequiredMessage: string := "This field is required."

  /** A table of fields by name with each name once, as an `OrderedDict` of fields has. */
  type Schema = s: seq<(string, Field)> | OD.Unique(OD.Keys(s)) witness []

  /** Every field of the table is of a scalar kind, with a default that builds no instance. */
  predicate ScalarFields(fs: seq<(string, Field)>) {
    forall i :: 0 <= i < |fs| ==> Scalar(fs[i].1.kind) && Inert(fs[i].1.default)
  }

  /** Holds for every object; it names "all instances" and "all fields" in frames. */
  ghost predicate InHeap(o: object) {
    true
  }

  predicate Scalar(k: Kind) {
    k.Plain? || k.Char? || k.Integer? || k.Boolean?
  }

  /** The default a field kind gets when the constructor is not given one. */
  function KindDefault(k: Kind): Value {
    match k
    case Nested(c, _) => Class(c)             // `kwargs.setdefault('default', wrapped_class)`
    case NestedList(_, _) => Producer(List([])) // `kwargs.setdefault('default', list)`
    case FieldList(_) => Producer(List([]))
    case _ => Null
  }

  /** `callable(v)`. */
  predicate Callable(v: Value) {
    v.Producer? || v.Class?
  }

  /** The result of calling `v` when `v` is a producer; `v` itself when it is not callable. */
  function Called(v: Value): Value {
    if v.Producer? then v.gives else v
  }

  /** Neither `v` nor the result of calling it is a model class, so calling it twice makes no instance. */
  predicate Inert(v: Value) {
    !v.Class? && !Called(v).Class?
  }

  /** Python truthiness. */
  predicate Truthy(v: Value) {
    match v
    case Null => false
    case Bool(b) => b
    case Int(i) => i != 0
    case Str(s) => s != []
    case List(items) => items != []
    case Dict(entries) => entries != map[]
    case _ => true
  }

  /** `unicode(v)`; containers, callables and objects get a fixed rendering. */
  function ToText(v: Value): string {
    match v
    case Null => "None"
    case Bool(b) => if b then "True" else "False"
    case Int(i) => Text.IntText(i)
    case Str(s) => s
    case List(_) => "[...]"
    case Dict(_) => "{...}"
    case Producer(_) => "<function>"
    case Class(c) => "<class '" + c.name + "'>"
    case Instance(m) => "<" + m.cls.name + " object>"
  }

  /** `int(v)` on a decimal string, an integer or a bool. */
  function IntOf(v: Value): Result<Value> {
    match v
    case Int(_) => Ok(v)
    case Bool(b) => Ok(Int(if b then 1 else 0))
    case Str(s) =>
      (match Text.ParseInt(s)
       case Some(n) => Ok(Int(n))
       case None => Err(ValueError))
    case _ => Err(TypeError)
  }

  /** `sys.maxint` of a 64-bit Python 2; an integer beyond it is a `long`, which is not an `int`. */
  const MaxInt: int := 0x7FFF_FFFF_FFFF_FFFF

  predicate IsMachineInt(i: int) {
    -MaxInt - 1 <= i <= MaxInt
  }

  /**
   * `BooleanField._to_python`: a string is true when it reads `true` after
   * strip and lower; an `int` is true when positive; anything else (a `long`
   * included) by its truthiness.
   */
  function BoolRule(v: Value): (b: bool)
    ensures v.Str? ==> (b <==> Text.Lower(Text.Strip(v.s)) == "true")
    ensures v.Int? && IsMachineInt(v.i) ==> (b <==> v.i > 0)
    ensures !v.Str? && !(v.Int? && IsMachineInt(v.i)) ==> (b <==> Truthy(v))
  {
    match v
    case Str(s) => Text.Lower(Text.Strip(s)) == "true"
    case Bool(b) => b                // a bool is an int: `True > 0`
    case Int(i) => if IsMachineInt(i) then i > 0 else i != 0
    case _ => Truthy(v)
  }

  /** `_to_python` of the scalar kinds, applied to the populated data. */
  function Convert(k: Kind, d: Value): Result<Value>
    requires Scalar(k)
  {
    match k
    case Plain => Ok(d)
    case Char => Ok(Str(ToText(d)))
    case Integer => IntOf(d)
    case Boolean => Ok(Bool(BoolRule(d)))
  }

  /**
   * What `populate(raw)` leaves in `data` for a scalar field with default
   * `default`. A BooleanField converts at once; when the called default is
   * itself `None`, its `populate` and `to_python` call each other forever.
   */
  function Populated(k: Kind, default: Value, raw: Value): (r: Result<Value>)
    requires Scalar(k)
    ensures !k.Boolean? ==> r == Ok(Called(raw))
    ensures k.Boolean? && r.Ok? ==> r.value.Bool?
    ensures r.Err? ==> k.Boolean? && Called(raw) == Null && Called(Called(default)) == Null && default != Null
  {
    var d := Called(raw);
    if !k.Boolean? then Ok(d)
    else if d != Null then Ok(Bool(BoolRule(d)))
    else if default == Null then Ok(Bool(false))
    else
      var d2 := Called(Called(default));
      if d2 == Null then Err(RecursionLimit) else Ok(Bool(BoolRule(d2)))
  }

  /** `to_python()` of a scalar field whose `data` is `data` (`None`: never populated). */
  function ScalarToPython(k: Kind, default: Value, data: Option<Value>): Result<Value>
    requires Scalar(k)
  {
    if data.None? || data.value == Null then
      if default == Null then Ok(Null)
      else
        match Populated(k, default, Called(default))
        case Err(e) => Err(e)
        case Ok(d) => Convert(k, d)
    else Convert(k, data.value)
  }

  /** What `to_python()` leaves in `data` of a scalar field. */
  function ScalarDataAfter(k: Kind, default: Value, data: Option<Value>): Option<Value>
    requires Scalar(k)
  {
    if (data.None? || data.value == Null) && default != Null then
      match Populated(k, default, Called(default))
      case Err(_) => data
      case Ok(d) => Some(d)
    else data
  }

  /** The value an assignment stores for a scalar field: populate, then `to_python()`. */
  function Assign(k: Kind, default: Value, raw: Value): Result<Value>
    requires Scalar(k)
  {
    match Populated(k, default, raw)
    case Err(e) => Err(e)
    case Ok(d) => ScalarToPython(k, default, Some(d))
  }

  /**
   * `to_python()` can be called again: whatever the first call leaves in
   * `data` converts to what the first call returned.
   */
  lemma ToPythonRepeatable(k: Kind, default: Value, data: Option<Value>)
    requires Scalar(k)
    ensures ScalarToPython(k, default, ScalarDataAfter(k, default, data)) == ScalarToPython(k, default, data)
  {
    if (data.None? || data.value == Null) && default != Null {
      match Populated(k, default, Called(default))
      case Ok(d) =>
        assert ScalarDataAfter(k, default, data) == Some(d);
        if d == Null {
          assert ScalarToPython(k, default, Some(d)) == ScalarToPython(k, default, data);
        }
      case Err(_) =>
    }
  }

  /** A list comprehension over results: the values in order, or the first failure. */
  function Sequence(rs: seq<Result<Value>>): Result<seq<Value>> {
    if rs == [] then Ok([])
    else
      var n := |rs| - 1;
      match Sequence(rs[..n])
      case Err(e) => Err(e)
      case Ok(front) =>
        match rs[n]
        case Err(e) => Err(e)
        case Ok(x) => Ok(front + [x])
  }

  /** Sequencing succeeds exactly when every result is a value. */
  lemma {:induction false} SequenceOk(rs: seq<Result<Value>>)
    ensures Sequence(rs).Ok? <==> forall j :: 0 <= j < |rs| ==> rs[j].Ok?
  {
    if rs != [] {
      var n := |rs| - 1;
      SequenceOk(rs[..n]);
      assert forall j :: 0 <= j < n ==> rs[..n][j] == rs[j];
    }
  }

  /** A successful sequencing keeps the length and gives result `j`'s value at position `j`. */
  lemma {:induction false} SequenceValues(rs: seq<Result<Value>>)
    requires Sequence(rs).Ok?
    ensures |Sequence(rs).value| == |rs|
    ensures forall j :: 0 <= j < |rs| ==> rs[j].Ok? && Sequence(rs).value[j] == rs[j].value
  {
    if rs != [] {
      var n := |rs| - 1;
      SequenceValues(rs[..n]);
      assert forall j :: 0 <= j < n ==> rs[..n][j] == rs[j];
    }
  }

  /** Sequencing stops at the first failure, with that failure. */
  lemma {:induction false} SequenceStops(rs: seq<Result<Value>>, j: nat, e: Fault)
    requires j < |rs| && Sequence(rs[..j]).Ok? && rs[j] == Err(e)
    ensures Sequence(rs) == Err(e)
    decreases |rs|
  {
    var n := |rs| - 1;
    if j < n {
      assert rs[..n][..j] == rs[..j] && rs[..n][j] == rs[j];
      SequenceStops(rs[..n], j, e);
    } else {
      assert rs[..n] == rs[..j];
    }
  }

  /** The assignment of each item through one scalar field. */
  function Assigned(k: Kind, default: Value, items: seq<Value>): (rs: seq<Result<Value>>)
    requires Scalar(k)
    ensures |rs| == |items|
  {
    seq(|items|, j requires 0 <= j < |items| => Assign(k, default, items[j]))
  }

  /** A FieldCollectionField with a scalar wrapped field: every item assigned in turn; the first failure wins. */
  function AssignEach(k: Kind, default: Value, items: seq<Value>): Result<seq<Value>>
    requires Scalar(k)
  {
    Sequence(Assigned(k, default, items))
  }

  /** Assigning every item succeeds exactly when each item's assignment does, and keeps length and order. */
  lemma AssignEachSpec(k: Kind, default: Value, items: seq<Value>)
    requires Scalar(k)
    ensures AssignEach(k, default, items).Ok? <==> forall j :: 0 <= j < |items| ==> Assign(k, default, items[j]).Ok?
    ensures AssignEach(k, default, items).Ok? ==>
      (|AssignEach(k, default, items).value| == |items|
       && forall j :: 0 <= j < |items| ==>
         Assign(k, default, items[j]).Ok? && AssignEach(k, default, items).value[j] == Assign(k, default, items[j]).value)
  {
    var rs := Assigned(k, default, items);
    assert forall j :: 0 <= j < |items| ==> rs[j] == Assign(k, default, items[j]);
    SequenceOk(rs);
    if Sequence(rs).Ok? {
      SequenceValues(rs);
    }
  }

  /** `required_validator` or a user validator applied to `x`. */
  function Apply(v: Validator, x: Value): Outcome {
    match v
    case Required => if x == Null then Raised(RequiredMessage) else Returned(Null)
    case Custom(run) => run(x)
  }

  /** The validator chain: each validator sees the current value and may replace it; the first to raise stops it. */
  function Chain(vs: seq<Validator>, x: Value): Checked {
    if vs == [] then Valid(x)
    else
      match Apply(vs[0], x)
      case Raised(m) => Invalid(m)
      case Returned(rv) => Chain(vs[1..], if rv == Null then x else rv)
  }

  /** Validators never report another exception kind: the chain ends valid or with a message. */
  lemma {:induction false} ChainOutcome(vs: seq<Validator>, x: Value)
    ensures !Chain(vs, x).Broken?
  {
    if vs != [] {
      match Apply(vs[0], x)
      case Raised(_) =>
      case Returned(rv) =>
        ChainOutcome(vs[1..], if rv == Null then x else rv);
    }
  }

  /** The validator loop of `validate()`. */
  method RunValidators(vs: seq<Validator>, x: Value) returns (r: Checked)
    ensures r == Chain(vs, x)
  {
    var value := x;
    for i := 0 to |vs|
      invariant Chain(vs, x) == Chain(vs[i..], value)
    {
      assert vs[i..][1..] == vs[i + 1..];
      match Apply(vs[i], value)
      case Raised(m) =>
        return Invalid(m);
      case Returned(rv) =>
        value := if rv == Null then value else rv;
    }
    assert vs[|vs|..] == [];
    r := Valid(value);
  }

  /** Whether `key` is a substring of `s`. */
  function IsSubstring(key: string, s: string): bool {
    if |key| > |s| then false else s[..|key|] == key || IsSubstring(key, s[1..])
  }

  /** `key in data`: a dict key, a substring, a list member; any other value is not a container. */
  function Contains(data: Value, key: string): Result<bool> {
    match data
    case Dict(entries) => Ok(key in entries)
    case Str(s) => Ok(IsSubstring(key, s))
    case List(items) => Ok(Str(key) in items)
    case _ => Err(TypeError)
  }

  /** `data[key]`: only a dict can be indexed by a string. */
  function Lookup(data: Value, key: string): Result<Value> {
    match data
    case Dict(entries) => if key in entries then Ok(entries[key]) else Err(KeyError)
    case _ => Err(TypeError)
  }

  /** The key `set_data` reads for a field: `field.source or name`. */
  function KeyFor(source: Option<string>, name: string): string {
    if source.Some? && source.value != "" then source.value else name
  }

  /** `iter(v)`: a list's items, a string's characters, a dict's keys in some order; nothing else iterates. */
  method Iterate(v: Value) returns (r: Result<seq<Value>>)
    ensures v.List? ==> r == Ok(v.items)
    ensures v.Str? ==> r.Ok? && |r.value| == |v.s| && forall i :: 0 <= i < |v.s| ==> r.value[i] == Str([v.s[i]])
    ensures v.Dict? ==>
      (r.Ok? && |r.value| == |v.entries|
       && (forall i :: 0 <= i < |r.value| ==> r.value[i].Str? && r.value[i].s in v.entries)
       && (forall k :: k in v.entries ==> Str(k) in r.value))
    ensures !(v.List? || v.Str? || v.Dict?) ==> r == Err(TypeError)
  {
    match v
    case List(items) => r := Ok(items);
    case Str(s) => r := Ok(seq(|s|, i requires 0 <= i < |s| => Str([s[i]])));
    case Dict(entries) =>
      var left := entries.Keys;
      var out: seq<Value> := [];
      while left != {}
        invariant left <= entries.Keys
        invariant |out| + |left| == |entries|
        invariant forall i :: 0 <= i < |out| ==> out[i].Str? && out[i].s in entries && out[i].s !in left
        invariant forall k :: k in entries ==> k in left || Str(k) in out
        decreases |left|
      {
        var k :| k in left;
        out := out + [Str(k)];
        left := left - {k};
      }
      r := Ok(out);
    case _ => r := Err(TypeError);
  }

  /** `isinstance(v, c)`: an instance of `c` or of a model class derived from it. */
  predicate IsInstance(v: Value, c: ModelClass) {
    v.Instance? && (v.obj.cls == c || c in v.obj.cls.ancestors)
  }

  /** The model classes a class derives from, through its model bases. */
  function AncestorsOf(bases: seq<Base>): set<ModelClass> {
    if bases == [] then {}
    else
      (if bases[0].ModelBase? then {bases[0].cls} + bases[0].cls.ancestors else {})
      + AncestorsOf(bases[1..])
  }

  /** `callable(v) and v() or v`, as `populate` and `get_default` do it. */
  method CallIfCallable(v: Value) returns (r: Value)
    ensures !v.Class? ==> r == Called(v)
    ensures v.Class? ==> r.Instance? && fresh(r.obj) && r.obj.cls == v.cls && r.obj.attrs == map[]
  {
    match v
    case Producer(y) => r := y;
    case Class(c) =>
      var m := new Model(c);
      r := Instance(m);
    case _ => r := v;
  }

  /** `BaseField.creation_counter`: how many fields were constructed so far. */
  class Counter {
    var next: nat

    constructor ()
      ensures next == 0
    {
      next := 0;
    }
  }

  class Field {
    const kind: Kind
    const source: Option<string>
    const default: Value
    const required: bool
    const validators: seq<Validator>
    const counter: nat
    var verboseName: Option<string>
    var data: Option<Value>       // `None`: the attribute `data` was never set
    var relatedObj: Value         // `_related_obj`

    /**
     * `BaseField.__init__`: `required_validator` first when the field is
     * required, then the user's validators; the field takes the current
     * creation counter and advances it.
     */
    constructor (ctr: Counter, kind: Kind, source: Option<string>, default: Option<Value>,
                 required: bool, verboseName: Option<string>, validators: seq<Validator>)
      modifies ctr
      ensures this.kind == kind && this.source == source && this.required == required
      ensures this.default == (if default.Some? then default.value else KindDefault(kind))
      ensures this.validators == (if required then [Required] else []) + validators
      ensures this.verboseName == verboseName && data.None? && relatedObj == Null
      ensures counter == old(ctr.next) && ctr.next == old(ctr.next) + 1
    {
      this.kind := kind;
      this.source := source;
      this.default := if default.Some? then default.value else KindDefault(kind);
      this.required := required;
      this.validators := (if required then [Required] else []) + validators;
      this.counter := ctr.next;
      this.verboseName := verboseName;
      data := None;
      relatedObj := Null;
      new;
      ctr.next := ctr.next + 1;
    }

    /** `copy(field)`: a new field with the same configuration and the same state. */
    constructor Copy(g: Field)
      ensures CopyOf(g)
    {
      kind := g.kind;
      source := g.source;
      default := g.default;
      required := g.required;
      validators := g.validators;
      counter := g.counter;
      verboseName := g.verboseName;
      data := g.data;
      relatedObj := g.relatedObj;
    }

    ghost predicate CopyOf(g: Field)
      reads this, g
    {
      kind == g.kind && source == g.source && default == g.default && required == g.required
      && validators == g.validators && counter == g.counter
      && verboseName == g.verboseName && data == g.data && relatedObj == g.relatedObj
    }

    /**
     * `populate(raw)`: store `raw`, calling it first when it is callable; a
     * BooleanField then stores `bool(self.to_python())`.
     */
    method Populate(raw: Value) returns (r: Result<()>)
      modifies this`data
      ensures r.Ok? ==> data.Some?
      ensures r.Err? ==> data == Some(Null)
      ensures !kind.Boolean? ==> r.Ok?
      ensures !kind.Boolean? && !raw.Class? ==> data == Some(Called(raw))
      ensures !kind.Boolean? && raw.Class? ==> data.value.Instance? && fresh(data.value.obj) && data.value.obj.cls == raw.cls
      ensures kind.Boolean? && r.Ok? ==> data.value.Bool?
      ensures Scalar(kind) && !raw.Class? && Inert(default) ==>
        match Populated(kind, default, raw)
        case Ok(d) => r.Ok? && data == Some(d)
        case Err(e) => r == Err(e)
    {
      var d := CallIfCallable(raw);
      data := Some(d);
      if kind.Boolean? {
        if d == Null {
          if default == Null {
            data := Some(Bool(false));
          } else {
            var dv := CallIfCallable(default);
            var d2 := CallIfCallable(dv);
            data := Some(d2);
            if d2 == Null {
              return Err(RecursionLimit);
            }
            data := Some(Bool(BoolRule(d2)));
          }
        } else {
          data := Some(Bool(BoolRule(d)));
        }
      }
      r := Ok(());
    }

    /** `get_default()`: the default, called when it is callable. */
    method GetDefault() returns (r: Value)
      ensures !default.Class? ==> r == Called(default)
      ensures default.Class? ==> r.Instance? && fresh(r.obj) && r.obj.cls == default.cls
    {
      r := CallIfCallable(default);
    }

    /**
     * `to_python()`: with no data (or `None`) the result is `None` when the
     * default is `None`; otherwise the field is first populated from
     * `get_default()`. The data is then converted by the kind's rule.
     */
    method ToPython(depth: nat) returns (r: Result<Value>)
      modifies (iset m: Model | InHeap(m))`attrs, (iset f: Field | InHeap(f))`data, (iset f: Field | InHeap(f))`relatedObj
      decreases depth, 2
      ensures (old(data).None? || old(data) == Some(Null)) && default == Null ==> r == Ok(Null)
      ensures Scalar(kind) && Inert(default) ==>
        r == ScalarToPython(kind, default, old(data)) && (r.Ok? ==> data == ScalarDataAfter(kind, default, old(data)))
      ensures (kind.Nested? && old(data).Some? && IsInstance(old(data).value, kind.wrapped)
               && kind.related.None? && depth > 0) ==> r == Ok(old(data).value)
      ensures kind.Nested? && r.Ok? ==> r.value == Null || IsInstance(r.value, kind.wrapped)
      ensures kind.NestedList? && r.Ok? && default != Null ==>
        (r.value.List? && forall j :: 0 <= j < |r.value.items| ==> IsInstance(r.value.items[j], kind.wrapped))
      ensures Scalar(kind) && Inert(default) ==> ScalarToPython(kind, default, data) == ScalarToPython(kind, default, old(data))
      ensures Scalar(kind) ==> forall m: Model :: old(allocated(m)) ==> m.attrs == old(m.attrs)
      ensures Scalar(kind) ==> forall g: Field :: old(allocated(g)) ==>
        g.relatedObj == old(g.relatedObj) && (g != this ==> g.data == old(g.data))
      ensures forall m: Model :: old(allocated(m)) ==> old(m.attrs).Keys <= m.attrs.Keys
    {
      if Scalar(kind) {
        ToPythonRepeatable(kind, default, data);
      }
      if data.None? || data.value == Null {
        if default == Null {
          return Ok(Null);
        }
        var dv := GetDefault();
        var p := Populate(dv);
        match p
        case Err(e) =>
          return Err(e);
        case Ok(_) =>
      }
      r := ConvertData(depth);
    }

    /** The `_to_python` of each kind, applied to the populated data. */
    method ConvertData(depth: nat) returns (r: Result<Value>)
      requires data.Some?
      modifies (iset m: Model | InHeap(m))`attrs, (iset f: Field | InHeap(f))`data, (iset f: Field | InHeap(f))`relatedObj
      decreases depth, 1
      ensures Scalar(kind) ==> r == Convert(kind, old(data).value) && data == old(data)
      ensures Scalar(kind) ==> forall m: Model :: old(allocated(m)) ==> m.attrs == old(m.attrs)
      ensures Scalar(kind) ==> forall g: Field :: old(allocated(g)) ==> g.data == old(g.data) && g.relatedObj == old(g.relatedObj)
      ensures !Scalar(kind) && depth == 0 ==> r == Err(RecursionLimit)
      ensures kind.Nested? && r.Ok? ==> IsInstance(r.value, kind.wrapped)
      ensures kind.Nested? && IsInstance(old(data).value, kind.wrapped) && kind.related.None? && depth > 0 ==>
        r == Ok(old(data).value)
      ensures kind.NestedList? && r.Ok? ==>
        (r.value.List? && forall j :: 0 <= j < |r.value.items| ==> IsInstance(r.value.items[j], kind.wrapped))
      ensures forall m: Model :: old(allocated(m)) ==> old(m.attrs).Keys <= m.attrs.Keys
    {
      var d := data.value;
      match kind
      case Nested(c, related) =>
        r := ConvertModel(c, related, d, depth);
      case NestedList(c, related) =>
        r := ConvertModels(c, related, d, depth);
      case FieldList(inner) =>
        r := ConvertEach(inner, d, depth);
      case _ =>
        r := Convert(kind, d);
    }

    /**
     * `ModelField._to_python`: an instance of the wrapped class is kept, any
     * other data builds one with `from_dict(data or {})`; with a related name,
     * the instance then gets this field's related object under that name.
     */
    method ConvertModel(c: ModelClass, related: Option<string>, d: Value, depth: nat) returns (r: Result<Value>)
      modifies (iset m: Model | InHeap(m))`attrs, (iset f: Field | InHeap(f))`data, (iset f: Field | InHeap(f))`relatedObj
      decreases depth, 0
      ensures depth == 0 ==> r == Err(RecursionLimit)
      ensures r.Ok? ==> IsInstance(r.value, c)
      ensures r.Ok? && IsInstance(d, c) ==> r == Ok(d)
      ensures IsInstance(d, c) && related.None? && depth > 0 ==> r == Ok(d)
      ensures r.Ok? && !IsInstance(d, c) ==> fresh(r.value.obj) && r.value.obj.cls == c
      ensures r.Ok? && related.Some? ==> related.value in r.value.obj.attrs
      ensures r.Ok? && related.Some? && OD.Get(r.value.obj.Fields(), related.value).None? ==>
        r.value.obj.attrs[related.value] == relatedObj
      ensures r.Ok? && !IsInstance(d, c) && ScalarFields(c.fields) && NoClassValues(if Truthy(d) then d else Dict(map[]))
              && (related.None? || OD.Get(r.value.obj.Fields(), related.value).None?) ==>
        ScalarFields(r.value.obj.clsfields)
        && Loaded(if Truthy(d) then d else Dict(map[]), r.value.obj.clsfields, [], r.value.obj.attrs)
        && forall k :: k in r.value.obj.attrs ==> k in OD.Keys(r.value.obj.clsfields) || Some(k) == related
      ensures forall m: Model :: old(allocated(m)) ==> old(m.attrs).Keys <= m.attrs.Keys
    {
      if depth == 0 {
        return Err(RecursionLimit);
      }
      r := ConvertItem(c, related, if Truthy(d) then d else Dict(map[]), depth - 1);
    }

    /**
     * `ModelCollectionField._to_python`: each item of the data is kept when
     * it is an instance of the wrapped class and built with `from_dict`
     * otherwise, and gets the related object when a related name is set.
     */
    method ConvertModels(c: ModelClass, related: Option<string>, d: Value, depth: nat) returns (r: Result<Value>)
      modifies (iset m: Model | InHeap(m))`attrs, (iset f: Field | InHeap(f))`data, (iset f: Field | InHeap(f))`relatedObj
      decreases depth, 0
      ensures depth == 0 ==> r == Err(RecursionLimit)
      ensures depth > 0 && !(d.List? || d.Str? || d.Dict?) ==> r == Err(TypeError)
      ensures r.Ok? ==>
        (r.value.List? && forall j :: 0 <= j < |r.value.items| ==> IsInstance(r.value.items[j], c))
      ensures r.Ok? && d.List? ==>
        (|r.value.items| == |d.items|
         && forall j :: 0 <= j < |d.items| ==>
           (IsInstance(d.items[j], c) ==> r.value.items[j] == d.items[j])
           && (!IsInstance(d.items[j], c) ==> fresh(r.value.items[j].obj)))
      ensures r.Ok? && related.Some? ==> forall j :: 0 <= j < |r.value.items| ==> related.value in r.value.items[j].obj.attrs
      ensures r.Ok? && related.Some? && ScalarFields(c.fields)
              && (forall j :: 0 <= j < |r.value.items| ==> OD.Get(r.value.items[j].obj.Fields(), related.value).None?) ==>
        forall j :: 0 <= j < |r.value.items| ==> r.value.items[j].obj.attrs[related.value] == relatedObj
      ensures forall m: Model :: old(allocated(m)) ==> old(m.attrs).Keys <= m.attrs.Keys
    {
      if depth == 0 {
        return Err(RecursionLimit);
      }
      var items := Iterate(d);
      if items.Err? {
        return Err(items.fault);
      }
      var out := ConvertAll(c, related, items.value, depth - 1);
      if out.Err? {
        return Err(out.fault);
      }
      r := Ok(List(out.value));
    }

    /** The loop of `ModelCollectionField._to_python` over the items `xs`, in order. */
    method ConvertAll(c: ModelClass, related: Option<string>, xs: seq<Value>, depth: nat) returns (r: Result<seq<Value>>)
      modifies (iset m: Model | InHeap(m))`attrs, (iset f: Field | InHeap(f))`data, (iset f: Field | InHeap(f))`relatedObj
      decreases depth, 10
      ensures r.Ok? ==>
        |r.value| == |xs|
        && forall j :: 0 <= j < |xs| ==>
          IsInstance(r.value[j], c)
          && (IsInstance(xs[j], c) ==> r.value[j] == xs[j])
          && (!IsInstance(xs[j], c) ==> fresh(r.value[j].obj))
      ensures r.Ok? && related.Some? ==> forall j :: 0 <= j < |r.value| ==> r.value[j].Instance? && related.value in r.value[j].obj.attrs
      ensures r.Ok? && related.Some? && ScalarFields(c.fields)
              && (forall j :: 0 <= j < |r.value| ==> r.value[j].Instance? && OD.Get(r.value[j].obj.Fields(), related.value).None?) ==>
        forall j :: 0 <= j < |r.value| ==> related.value in r.value[j].obj.attrs && r.value[j].obj.attrs[related.value] == relatedObj
      ensures forall m: Model :: old(allocated(m)) ==> old(m.attrs).Keys <= m.attrs.Keys
    {
      var out: seq<Value> := [];
      for j := 0 to |xs|
        invariant |out| == j
        invariant forall k :: 0 <= k < j ==>
          (IsInstance(out[k], c)
           && (IsInstance(xs[k], c) ==> out[k] == xs[k])
           && (!IsInstance(xs[k], c) ==> fresh(out[k].obj)))
        invariant related.Some? ==> forall k :: 0 <= k < j ==> out[k].Instance? && related.value in out[k].obj.attrs
        invariant related.Some? && ScalarFields(c.fields) && Unbound(out, related.value) ==> Related(out, related.value, relatedObj)
        invariant forall m: Model :: old(allocated(m)) ==> old(m.attrs).Keys <= m.attrs.Keys
      {
        var x := ConvertNext(c, related, out, xs[j], depth);
        if x.Err? {
          return Err(x.fault);
        }
        out := out + [x.value];
      }
      r := Ok(out);
    }

    /**
     * One step of the loop of `ModelCollectionField._to_python`: the item `x`
     * converted after `done`, keeping the related object of the items before it.
     */
    method ConvertNext(c: ModelClass, related: Option<string>, done: seq<Value>, x: Value, depth: nat) returns (r: Result<Value>)
      requires forall k :: 0 <= k < |done| ==> done[k].Instance?
      requires related.Some? && ScalarFields(c.fields) && Unbound(done, related.value) ==> Related(done, related.value, relatedObj)
      modifies (iset m: Model | InHeap(m))`attrs, (iset f: Field | InHeap(f))`data, (iset f: Field | InHeap(f))`relatedObj
      decreases depth, 9
      ensures r.Ok? ==> IsInstance(r.value, c)
      ensures r.Ok? && IsInstance(x, c) ==> r == Ok(x)
      ensures r.Ok? && !IsInstance(x, c) ==> fresh(r.value.obj)
      ensures r.Ok? && related.Some? ==> related.value in r.value.obj.attrs
      ensures r.Ok? && related.Some? && ScalarFields(c.fields) && Unbound(done + [r.value], related.value) ==>
        Related(done + [r.value], related.value, relatedObj)
      ensures forall m: Model :: old(allocated(m)) ==> old(m.attrs).Keys <= m.attrs.Keys
    {
      ghost var snap := AttrsOf(done);
      ghost var ro := relatedObj;
      ghost var bare := related.Some? && ScalarFields(c.fields) && Unbound(done, related.value);
      if bare {
        assert forall k :: 0 <= k < |done| ==> related.value in snap[k] && snap[k][related.value] == ro;
      }
      r := ConvertItem(c, related, x, depth);
      if r.Ok? && related.Some? && ScalarFields(c.fields) && Unbound(done + [r.value], related.value) {
        var all := done + [r.value];
        forall k | 0 <= k < |done|
          ensures OD.Get(done[k].obj.Fields(), related.value).None?
        {
          assert all[k] == done[k];
        }
        assert all[|done|] == r.value;
        assert bare;
        assert ro == relatedObj;
        assert forall k :: 0 <= k < |done| && done[k].obj != r.value.obj ==> done[k].obj.attrs == snap[k];
        RelatedKept(done, snap, related.value, ro, r.value.obj);
        assert all == done + [Instance(r.value.obj)];
      }
    }

    /** One item of `ModelCollectionField._to_python`: kept or built with `from_dict`, then given the related object. */
    method ConvertItem(c: ModelClass, related: Option<string>, x: Value, depth: nat) returns (r: Result<Value>)
      modifies (iset m: Model | InHeap(m))`attrs, (iset f: Field | InHeap(f))`data, (iset f: Field | InHeap(f))`relatedObj
      decreases depth, 8
      ensures r.Ok? ==> IsInstance(r.value, c)
      ensures r.Ok? && IsInstance(x, c) ==> r == Ok(x)
      ensures IsInstance(x, c) && related.None? ==> r == Ok(x)
      ensures r.Ok? && !IsInstance(x, c) ==> fresh(r.value.obj) && r.value.obj.cls == c
      ensures r.Ok? && related.Some? ==> related.value in r.value.obj.attrs
      ensures r.Ok? && related.Some? && OD.Get(r.value.obj.Fields(), related.value).None? ==>
        r.value.obj.attrs[related.value] == relatedObj
      ensures r.Ok? && !IsInstance(x, c) && ScalarFields(c.fields) && NoClassValues(x)
              && (related.None? || OD.Get(r.value.obj.Fields(), related.value).None?) ==>
        ScalarFields(r.value.obj.clsfields) && Loaded(x, r.value.obj.clsfields, [], r.value.obj.attrs)
        && forall k :: k in r.value.obj.attrs ==> k in OD.Keys(r.value.obj.clsfields) || Some(k) == related
      ensures r.Ok? && ScalarFields(c.fields) && (related.None? || OD.Get(r.value.obj.Fields(), related.value).None?) ==>
        relatedObj == old(relatedObj) && forall m: Model :: old(allocated(m)) && m != r.value.obj ==> m.attrs == old(m.attrs)
      ensures forall m: Model :: old(allocated(m)) ==> old(m.attrs).Keys <= m.attrs.Keys
    {
      var obj: Model;
      if IsInstance(x, c) {
        obj := x.obj;
      } else {
        var built := Model.FromDict(c, x, depth);
        match built {
          case Err(e) =>
            return Err(e);
          case Ok(m) =>
            obj := m;
        }
      }
      ghost var a0 := obj.attrs;
      if related.Some? {
        var s := obj.SetAttr(related.value, relatedObj, depth);
        if s.Err? {
          return Err(s.fault);
        }
        if !IsInstance(x, c) && OD.Get(obj.Fields(), related.value).None? {
          assert obj.Fields() == obj.clsfields;
          if ScalarFields(c.fields) && NoClassValues(x) {
            LoadedOther(x, obj.clsfields, [], a0, related.value, relatedObj);
          }
        }
      }
      r := Ok(Instance(obj));
    }

    /**
     * `FieldCollectionField._to_python`: every item of `data or []` is
     * populated into the one wrapped field and converted by it.
     */
    method ConvertEach(inner: Field, d: Value, depth: nat) returns (r: Result<Value>)
      modifies (iset m: Model | InHeap(m))`attrs, (iset f: Field | InHeap(f))`data, (iset f: Field | InHeap(f))`relatedObj
      decreases depth, 0
      ensures depth == 0 ==> r == Err(RecursionLimit)
      ensures depth > 0 && !Truthy(d) ==> r == Ok(List([]))
      ensures r.Ok? ==> r.value.List?
      ensures r.Ok? && d.List? ==> |r.value.items| == |d.items|
      ensures (Scalar(inner.kind) && Inert(inner.default) && depth > 0 && d.List?
               && forall j :: 0 <= j < |d.items| ==> !d.items[j].Class?) ==>
        r == match AssignEach(inner.kind, inner.default, d.items)
             case Ok(vs) => Ok(List(vs))
             case Err(e) => Err(e)
      ensures forall m: Model :: old(allocated(m)) ==> old(m.attrs).Keys <= m.attrs.Keys
    {
      if depth == 0 {
        return Err(RecursionLimit);
      }
      var items := Iterate(if Truthy(d) then d else List([]));
      if items.Err? {
        return Err(items.fault);
      }
      var xs := items.value;
      ghost var scalar := Scalar(inner.kind) && Inert(inner.default) && d.List?
        && forall j :: 0 <= j < |d.items| ==> !d.items[j].Class?;
      ghost var rs := if scalar then Assigned(inner.kind, inner.default, xs) else [];
      assert d.List? ==> xs == d.items;
      var out: seq<Value> := [];
      for j := 0 to |xs|
        invariant |out| == j
        invariant scalar ==> Sequence(rs[..j]) == Ok(out)
        invariant forall m: Model :: old(allocated(m)) ==> old(m.attrs).Keys <= m.attrs.Keys
      {
        assert scalar ==> rs[..j + 1][..j] == rs[..j] && rs[j] == Assign(inner.kind, inner.default, xs[j]);
        var p := inner.Populate(xs[j]);
        if p.Err? {
          if scalar {
            SequenceStops(rs, j, p.fault);
          }
          return Err(p.fault);
        }
        var v := inner.ToPython(depth - 1);
        if v.Err? {
          if scalar {
            SequenceStops(rs, j, v.fault);
          }
          return Err(v.fault);
        }
        out := out + [v.value];
      }
      assert scalar ==> rs[..|xs|] == rs;
      r := Ok(List(out));
    }

    /** `to_serial(v)`: `None` stays `None`; anything else goes to the kind's `_to_serial`. */
    method ToSerial(v: Value, depth: nat) returns (r: Result<Value>)
      modifies (iset m: Model | InHeap(m))`attrs, (iset f: Field | InHeap(f))`data, (iset f: Field | InHeap(f))`relatedObj
      decreases depth, 6
      ensures v == Null ==> r == Ok(Null)
      ensures Scalar(kind) ==> r == Ok(v)
      ensures (Scalar(kind) || v == Null) ==> forall m: Model :: old(allocated(m)) ==> m.attrs == old(m.attrs)
      ensures !Scalar(kind) && v != Null && depth == 0 ==> r == Err(RecursionLimit)
      ensures kind.Nested? && v != Null && !v.Instance? && depth > 0 ==> r == Err(if v.Class? then TypeError else AttributeError)
      ensures kind.Nested? && r.Ok? && v != Null ==> r.value.Dict?
      ensures kind.Nested? && v.Instance? && v.obj.ScalarOnly() && depth > 0 ==>
        r == Ok(Dict(v.obj.Exported()))
        && forall k :: k in old(v.obj.attrs) ==> k in v.obj.attrs && v.obj.attrs[k] == old(v.obj.attrs)[k]
      ensures (kind.NestedList? || kind.FieldList?) && r.Ok? && v.List? ==>
        (r.value.List? && |r.value.items| == |v.items|)
      ensures kind.NestedList? && r.Ok? && v.List? ==>
        forall j :: 0 <= j < |v.items| ==> v.items[j].Instance? && r.value.items[j].Dict?
      ensures kind.FieldList? && Scalar(kind.inner.kind) && v.List? && depth > 0 ==> r == Ok(v)
      ensures forall m: Model :: old(allocated(m)) ==> old(m.attrs).Keys <= m.attrs.Keys
    {
      if v == Null {
        return Ok(Null);
      }
      match kind
      case Nested(_, _) =>
        if depth == 0 {
          return Err(RecursionLimit);
        }
        r := SerialModel(v, depth - 1);
      case NestedList(_, _) =>
        if depth == 0 {
          return Err(RecursionLimit);
        }
        var items := Iterate(v);
        if items.Err? {
          return Err(items.fault);
        }
        var xs := items.value;
        var out: seq<Value> := [];
        for j := 0 to |xs|
          invariant |out| == j
          invariant forall k :: 0 <= k < j ==> xs[k].Instance? && out[k].Dict?
          invariant forall m: Model :: old(allocated(m)) ==> old(m.attrs).Keys <= m.attrs.Keys
        {
          var s := SerialModel(xs[j], depth - 1);
          if s.Err? {
            return s;
          }
          out := out + [s.value];
        }
        r := Ok(List(out));
      case FieldList(inner) =>
        if depth == 0 {
          return Err(RecursionLimit);
        }
        var items := Iterate(v);
        if items.Err? {
          return Err(items.fault);
        }
        var xs := items.value;
        var out: seq<Value> := [];
        for j := 0 to |xs|
          invariant |out| == j
          invariant Scalar(inner.kind) ==> out == xs[..j]
          invariant forall m: Model :: old(allocated(m)) ==> old(m.attrs).Keys <= m.attrs.Keys
        {
          var s := inner.ToSerial(xs[j], depth - 1);
          if s.Err? {
            return s;
          }
          assert xs[..j + 1] == xs[..j] + [xs[j]];
          out := out + [s.value];
        }
        assert xs[..|xs|] == xs;
        r := Ok(List(out));
      case _ =>
        r := Ok(v);
    }

    /**
     * `instance.to_dict(serial=True)`: only a model instance has `to_dict`;
     * on a model class it is an unbound method, and calling it without an
     * instance raises `TypeError`.
     */
    static method SerialModel(v: Value, depth: nat) returns (r: Result<Value>)
      modifies (iset m: Model | InHeap(m))`attrs, (iset f: Field | InHeap(f))`data, (iset f: Field | InHeap(f))`relatedObj
      decreases depth, 11
      ensures v.Class? ==> r == Err(TypeError)
      ensures !v.Instance? && !v.Class? ==> r == Err(AttributeError)
      ensures r.Ok? ==> v.Instance? && r.value.Dict?
      ensures v.Instance? && v.obj.ScalarOnly() ==> r == Ok(Dict(v.obj.Exported()))
      ensures v.Instance? && v.obj.ScalarOnly() ==>
        forall k :: k in old(v.obj.attrs) ==> k in v.obj.attrs && v.obj.attrs[k] == old(v.obj.attrs)[k]
      ensures forall m: Model :: old(allocated(m)) ==> old(m.attrs).Keys <= m.attrs.Keys
    {
      match v
      case Instance(m) =>
        var e := m.ToDict(true, depth);
        if e.Err? {
          return Err(e.fault);
        }
        r := Ok(Dict(e.value));
      case Class(_) =>
        r := Err(TypeError);
      case _ =>
        r := Err(AttributeError);
    }

    /** `validate()`: convert, then run the validators in order. */
    method Validate(depth: nat) returns (r: Checked)
      modifies (iset m: Model | InHeap(m))`attrs, (iset f: Field | InHeap(f))`data, (iset f: Field | InHeap(f))`relatedObj
      decreases depth, 3
      ensures Scalar(kind) && Inert(default) ==>
        r == match ScalarToPython(kind, default, old(data))
             case Err(e) => Broken(e)
             case Ok(v) => Chain(validators, v)
      ensures Scalar(kind) && Inert(default) ==> ScalarToPython(kind, default, data) == ScalarToPython(kind, default, old(data))
      ensures Scalar(kind) ==> forall m: Model :: old(allocated(m)) ==> m.attrs == old(m.attrs)
      ensures Scalar(kind) ==> forall g: Field :: old(allocated(g)) ==>
        g.relatedObj == old(g.relatedObj) && (g != this ==> g.data == old(g.data))
      ensures forall m: Model :: old(allocated(m)) ==> old(m.attrs).Keys <= m.attrs.Keys
    {
      var v := ToPython(depth);
      match v
      case Err(e) =>
        r := Broken(e);
      case Ok(x) =>
        r := RunValidators(validators, x);
    }
  }

  class ModelClass {
    const name: string
    const bases: seq<Base>
    const fields: Schema                   // `_clsfields`, the resolved schema
    const attributes: map<string, Value>   // the other attributes of the class body
    const hooks: map<string, Hook>         // the `validate_<name>` methods, by method name
    const ancestors: set<ModelClass>

    constructor (name: string, bases: seq<Base>, fields: Schema,
                 attributes: map<string, Value>, hooks: map<string, Hook>)
      ensures this.name == name && this.bases == bases && this.fields == fields
      ensures this.attributes == attributes && this.hooks == hooks
      ensures ancestors == AncestorsOf(bases)
    {
      this.name := name;
      this.bases := bases;
      this.fields := fields;
      this.attributes := attributes;
      this.hooks := hooks;
      ancestors := AncestorsOf(bases);
    }

    /** `ModelMeta.__new__`: the class body's fields become the schema, the rest stay class attributes. */
    static method Declare(name: string, bases: seq<Base>, body: seq<(string, Member)>, hooks: map<string, Hook>)
      returns (c: ModelClass)
      requires OD.Unique(OD.Keys(body))
      modifies BodyFields(body)`verboseName
      ensures c.fields == Declared.Schema(BaseSchemas(bases), Declared.SortBy(OwnFields(body), CounterOf))
      ensures c.attributes == PlainAttributes(body) && c.hooks == hooks && c.name == name && c.bases == bases
      ensures fresh(c)
    {
      var fields, rest := GetDeclaredFields(bases, body);
      c := new ModelClass(name, bases, fields, rest, hooks);
    }
  }

  /** The field objects of a class body. */
  ghost function BodyFields(body: seq<(string, Member)>): set<Field> {
    set i | 0 <= i < |body| && body[i].1.FieldMember? :: body[i].1.field
  }

  /** The (name, field) entries of a class body, in body order. */
  function OwnFields(body: seq<(string, Member)>): seq<(string, Field)> {
    if body == [] then []
    else
      var n := |body| - 1;
      OwnFields(body[..n]) + (if body[n].1.FieldMember? then [(body[n].0, body[n].1.field)] else [])
  }

  /** The class attributes that are not fields. */
  function PlainAttributes(body: seq<(string, Member)>): map<string, Value> {
    if body == [] then map[]
    else
      var n := |body| - 1;
      var rest := PlainAttributes(body[..n]);
      if body[n].1.Attribute? then rest[body[n].0 := body[n].1.value] else rest
  }

  /** The schemas of the bases that are model classes, in the listed order. */
  function BaseSchemas(bases: seq<Base>): seq<seq<(string, Field)>> {
    if bases == [] then []
    else (if bases[0].ModelBase? then [bases[0].cls.fields] else []) + BaseSchemas(bases[1..])
  }

  /** The sort key of `get_declared_fields`: `creation_counter`. */
  function CounterOf(f: Field): int {
    f.counter
  }

  predicate HasText(s: Option<string>) {
    s.Some? && s.value != ""
  }

  /**
   * `get_declared_fields(bases, attrs)`: every field of the body leaves the
   * class attributes and gets the attribute name as verbose name when it has
   * none; the own fields are sorted by creation counter and placed after the
   * base schemas, and the whole list becomes an OrderedDict.
   */
  method GetDeclaredFields(bases: seq<Base>, body: seq<(string, Member)>)
    returns (fields: Schema, rest: map<string, Value>)
    requires OD.Unique(OD.Keys(body))
    modifies BodyFields(body)`verboseName
    ensures fields == Declared.Schema(BaseSchemas(bases), Declared.SortBy(OwnFields(body), CounterOf))
    ensures rest == PlainAttributes(body)
    ensures forall i :: 0 <= i < |body| && body[i].1.FieldMember? && HasText(old(body[i].1.field.verboseName)) ==>
      body[i].1.field.verboseName == old(body[i].1.field.verboseName)
    ensures forall i :: 0 <= i < |body| && body[i].1.FieldMember? && Unnamed(body, i, old(body[i].1.field.verboseName)) ==>
      body[i].1.field.verboseName == Some(body[i].0)
  {
    var own;
    own, rest := SplitBody(body);
    own := Declared.SortBy(own, CounterOf);
    var pairs := PrependBases(bases, own);
    OD.FromPairsSpec(pairs);
    fields := OD.FromPairs(pairs);
  }

  /**
   * Entry `i` of a class body is a field with a non-empty name, met there
   * for the first time, whose verbose name was `before` and empty.
   */
  predicate Unnamed(body: seq<(string, Member)>, i: nat, before: Option<string>)
    requires i < |body|
  {
    body[i].1.FieldMember? && body[i].0 != "" && !HasText(before)
    && forall j :: 0 <= j < i ==> body[j].1 != body[i].1
  }

  /**
   * The loop over the class body in `get_declared_fields`: fields are
   * collected in body order and given the attribute name as verbose name
   * when theirs is empty; the other entries stay class attributes.
   */
  method SplitBody(body: seq<(string, Member)>) returns (own: seq<(string, Field)>, rest: map<string, Value>)
    modifies BodyFields(body)`verboseName
    ensures own == OwnFields(body) && rest == PlainAttributes(body)
    ensures forall i :: 0 <= i < |body| && body[i].1.FieldMember? && HasText(old(body[i].1.field.verboseName)) ==>
      body[i].1.field.verboseName == old(body[i].1.field.verboseName)
    ensures forall i :: 0 <= i < |body| && body[i].1.FieldMember? && Unnamed(body, i, old(body[i].1.field.verboseName)) ==>
      body[i].1.field.verboseName == Some(body[i].0)
  {
    own := [];
    rest := map[];
    for i := 0 to |body|
      invariant own == OwnFields(body[..i]) && rest == PlainAttributes(body[..i])
      invariant forall k :: 0 <= k < |body| && body[k].1.FieldMember? && HasText(old(body[k].1.field.verboseName)) ==>
        body[k].1.field.verboseName == old(body[k].1.field.verboseName)
      invariant forall k :: 0 <= k < |body| && body[k].1.FieldMember? && Unnamed(body, k, old(body[k].1.field.verboseName)) ==>
        body[k].1.field.verboseName == if k < i then Some(body[k].0) else old(body[k].1.field.verboseName)
    {
      assert body[..i + 1][..i] == body[..i];
      var name := body[i].0;
      match body[i].1
      case FieldMember(f) =>
        if !HasText(f.verboseName) {
          f.verboseName := Some(name);
        }
        own := own + [(name, f)];
      case Attribute(v) =>
        rest := rest[name := v];
    }
    assert body[..|body|] == body;
  }

  /** The loop over the bases in `get_declared_fields`: each model base's schema goes in front, the last base first. */
  method PrependBases(bases: seq<Base>, own: seq<(string, Field)>) returns (pairs: seq<(string, Field)>)
    ensures pairs == Declared.Concat(BaseSchemas(bases)) + own
  {
    pairs := own;
    var j := |bases|;
    while j > 0
      invariant 0 <= j <= |bases|
      invariant pairs == Declared.Concat(BaseSchemas(bases[j..])) + own
    {
      j := j - 1;
      assert bases[j..][1..] == bases[j + 1..];
      var later := BaseSchemas(bases[j + 1..]);
      if bases[j].ModelBase? {
        var first := bases[j].cls.fields;
        assert BaseSchemas(bases[j..]) == [first] + later;
        assert ([first] + later)[1..] == later;
        assert Declared.Concat([first] + later) == first + Declared.Concat(later);
        pairs := first + pairs;
      } else {
        assert BaseSchemas(bases[j..]) == later;
      }
    }
    assert bases[0..] == bases;
  }

  /** The name `validate` looks up for a field's own check. */
  function HookName(name: string): string {
    "validate_" + name
  }

  /** `r` is the outcome `t` of a first step, unless a later step failed. */
  predicate Within(r: Result<Value>, t: Result<Value>) {
    (t.Err? ==> r == t) && (r.Ok? ==> r == t)
  }

  /**
   * What `__setattr__` promises for a field `f`: a scalar field stores the
   * assigned value; a ModelField stores an instance of its class (or `None`
   * from a `None` default), and keeps an instance it is given.
   */
  ghost predicate FieldStored(f: Field, key: string, value: Value, depth: nat, r: Result<()>, attrs: map<string, Value>) {
    (Scalar(f.kind) && !value.Class? && Inert(f.default) ==>
      (r.Ok? <==> Assign(f.kind, f.default, value).Ok?)
      && (r.Ok? ==> key in attrs && attrs[key] == Assign(f.kind, f.default, value).value)
      && (r.Err? ==> Assign(f.kind, f.default, value) == Err(r.fault)))
    && (f.kind.Nested? && r.Ok? ==> key in attrs && (attrs[key] == Null || IsInstance(attrs[key], f.kind.wrapped)))
    && (f.kind.Nested? && IsInstance(value, f.kind.wrapped) && f.kind.related.None? && depth > 0 ==>
      r.Ok? && key in attrs && attrs[key] == value)
  }

  /** A table has no field of a scalar kind missing under a name it holds. */
  lemma ScalarGet(fs: seq<(string, Field)>, k: string)
    requires ScalarFields(fs)
    ensures OD.Get(fs, k).Some? ==> Scalar(OD.Get(fs, k).value.kind) && Inert(OD.Get(fs, k).value.default)
  {
    if OD.Get(fs, k).Some? {
      var i := OD.FirstIndex(OD.Keys(fs), k);
      assert fs[i].1 == OD.Get(fs, k).value;
    }
  }

  /** Merging two tables of scalar fields gives a table of scalar fields. */
  lemma {:induction false} ScalarUpdate(d: seq<(string, Field)>, e: seq<(string, Field)>)
    requires ScalarFields(d) && ScalarFields(e)
    ensures ScalarFields(OD.Update(d, e))
    decreases |e|
  {
    if e != [] {
      var n := |e| - 1;
      assert ScalarFields(e[..n]) by {
        assert forall i :: 0 <= i < n ==> e[..n][i] == e[i];
      }
      ScalarUpdate(d, e[..n]);
      var u := OD.Update(d, e[..n]);
      assert OD.Update(d, e) == OD.Put(u, e[n].0, e[n].1);
    }
  }

  /** The message of a `ValidationError`, if the chain raised one. */
  function Message(c: Checked): Option<string> {
    if c.Invalid? then Some(c.message) else None
  }

  /**
   * What one round of `validate()` records for a scalar field holding
   * `data`: the conversion's exception escapes; otherwise the message the
   * validator chain raised, if any.
   */
  function OwnMessage(f: Field, data: Option<Value>): Result<Option<string>>
    requires Scalar(f.kind)
  {
    match ScalarToPython(f.kind, f.default, data)
    case Err(e) => Err(e)
    case Ok(v) => Ok(Message(Chain(f.validators, v)))
  }

  /** Every field of the scalar table `fs` reads as it did when it held `data0`. */
  ghost predicate Unchanged(fs: seq<(string, Field)>, data0: seq<Option<Value>>)
    requires ScalarFields(fs) && |data0| == |fs|
    reads set k | 0 <= k < |fs| :: fs[k].1
  {
    forall j :: 0 <= j < |fs| ==>
      ScalarToPython(fs[j].1.kind, fs[j].1.default, fs[j].1.data) == ScalarToPython(fs[j].1.kind, fs[j].1.default, data0[j])
  }

  /**
   * Rounds `0 .. |own|` of `validate()` over the scalar table `fs`, whose
   * fields held `data0` and whose model held `attrs0`, recorded `own` and `hook`.
   */
  ghost predicate Recorded(fs: seq<(string, Field)>, data0: seq<Option<Value>>, hooks: map<string, Hook>, attrs0: map<string, Value>,
                           own: seq<Option<string>>, hook: seq<Option<string>>)
    requires ScalarFields(fs) && |data0| == |fs| && |own| <= |fs| && |hook| == |own|
  {
    forall j :: 0 <= j < |own| ==>
      OwnMessage(fs[j].1, data0[j]) == Ok(own[j]) && hook[j] == HookMessage(hooks, fs[j].0, attrs0)
  }

  lemma RecordedStep(fs: seq<(string, Field)>, data0: seq<Option<Value>>, hooks: map<string, Hook>, attrs0: map<string, Value>,
                     own: seq<Option<string>>, hook: seq<Option<string>>, o: Option<string>, h: Option<string>)
    requires ScalarFields(fs) && |data0| == |fs| && |own| < |fs| && |hook| == |own|
    requires Recorded(fs, data0, hooks, attrs0, own, hook)
    requires OwnMessage(fs[|own|].1, data0[|own|]) == Ok(o) && h == HookMessage(hooks, fs[|own|].0, attrs0)
    ensures Recorded(fs, data0, hooks, attrs0, own + [o], hook + [h])
  {
  }

  /** What each field of `fs` holds now. */
  ghost method Snapshot(fs: seq<(string, Field)>) returns (d: seq<Option<Value>>)
    ensures |d| == |fs| && forall j :: 0 <= j < |fs| ==> d[j] == fs[j].1.data
  {
    d := seq(|fs|, j requires 0 <= j < |fs| reads set k | 0 <= k < |fs| :: fs[k].1 => fs[j].1.data);
  }

  /** Two data a scalar field reads alike record the same message. */
  lemma SameReading(f: Field, d1: Option<Value>, d2: Option<Value>)
    requires Scalar(f.kind) && ScalarToPython(f.kind, f.default, d1) == ScalarToPython(f.kind, f.default, d2)
    ensures OwnMessage(f, d1) == OwnMessage(f, d2)
  {
  }

  /** The message of the `validate_<name>` hook run on `attrs`; `None` when it passes or there is none. */
  function HookMessage(hooks: map<string, Hook>, name: string, attrs: map<string, Value>): Option<string> {
    if HookName(name) in hooks && hooks[HookName(name)](attrs).Failed? then
      Some(hooks[HookName(name)](attrs).message)
    else None
  }

  /** The value `set_data` hands on for a field read under `key`: `raw[key]` when `key in raw`, else the default called. */
  function Incoming(raw: Value, key: string, default: Value): Result<Value> {
    match Contains(raw, key)
    case Err(e) => Err(e)
    case Ok(present) => if present then Lookup(raw, key) else Ok(Called(default))
  }

  /** Every class field in `cs` holds in `attrs` what `set_data(raw)` assigns it. */
  predicate Loaded(raw: Value, cs: seq<(string, Field)>, es: seq<(string, Field)>, attrs: map<string, Value>)
    requires ScalarFields(cs) && ScalarFields(es)
  {
    forall i {:trigger Load(raw, cs[i].0, cs[i].1, cs, es)} :: 0 <= i < |cs| ==>
      Load(raw, cs[i].0, cs[i].1, cs, es).Ok? && cs[i].0 in attrs && attrs[cs[i].0] == Load(raw, cs[i].0, cs[i].1, cs, es).value
  }

  /** Storing the load of field `i` keeps the loads of fields `0 .. i - 1`, whose names differ from its own. */
  lemma LoadedStep(raw: Value, cs: seq<(string, Field)>, es: seq<(string, Field)>, a0: map<string, Value>, a1: map<string, Value>, i: nat)
    requires ScalarFields(cs) && ScalarFields(es) && OD.Unique(OD.Keys(cs)) && i < |cs|
    requires forall j {:trigger Load(raw, cs[j].0, cs[j].1, cs, es)} :: 0 <= j < i ==>
      Load(raw, cs[j].0, cs[j].1, cs, es).Ok? && cs[j].0 in a0 && a0[cs[j].0] == Load(raw, cs[j].0, cs[j].1, cs, es).value
    requires Load(raw, cs[i].0, cs[i].1, cs, es).Ok? && a1 == a0[cs[i].0 := Load(raw, cs[i].0, cs[i].1, cs, es).value]
    ensures forall j {:trigger Load(raw, cs[j].0, cs[j].1, cs, es)} :: 0 <= j < i + 1 ==>
      Load(raw, cs[j].0, cs[j].1, cs, es).Ok? && cs[j].0 in a1 && a1[cs[j].0] == Load(raw, cs[j].0, cs[j].1, cs, es).value
  {
    var ls := seq(|cs|, j requires 0 <= j < |cs| => Load(raw, cs[j].0, cs[j].1, cs, es));
    var ks := OD.Keys(cs);
    forall j | 0 <= j < i
      ensures ls[j].Ok? && ks[j] in a0 && a0[ks[j]] == ls[j].value
    {
      assert ls[j] == Load(raw, cs[j].0, cs[j].1, cs, es);
    }
    StoreStep(ks, ls, a0, a1, i);
  }

  /** Storing the value of key `i` keeps the values of keys `0 .. i - 1`, which differ from it. */
  lemma StoreStep(ks: seq<string>, ls: seq<Result<Value>>, a0: map<string, Value>, a1: map<string, Value>, i: nat)
    requires |ls| == |ks| && OD.Unique(ks) && i < |ks|
    requires forall j :: 0 <= j < i ==> ls[j].Ok? && ks[j] in a0 && a0[ks[j]] == ls[j].value
    requires ls[i].Ok? && a1 == a0[ks[i] := ls[i].value]
    ensures forall j :: 0 <= j < i + 1 ==> ls[j].Ok? && ks[j] in a1 && a1[ks[j]] == ls[j].value
  {
  }

  /** Storing under a name that is not a class field keeps every class field's load. */
  lemma LoadedOther(raw: Value, cs: seq<(string, Field)>, es: seq<(string, Field)>, a: map<string, Value>, k: string, v: Value)
    requires ScalarFields(cs) && ScalarFields(es) && Loaded(raw, cs, es, a) && k !in OD.Keys(cs)
    ensures Loaded(raw, cs, es, a[k := v])
  {
    forall i | 0 <= i < |cs|
      ensures cs[i].0 != k
    {
      assert OD.Keys(cs)[i] == cs[i].0;
    }
  }

  /** `data[key] if key in data else field.get_default()`, as `set_data` reads it. */
  method Fetch(raw: Value, key: string, f: Field) returns (r: Result<Value>)
    ensures !f.default.Class? ==> r == Incoming(raw, key, f.default)
    ensures !(raw.Dict? || raw.Str? || raw.List?) ==> r == Err(TypeError)
    ensures NoClassValues(raw) && Inert(f.default) && r.Ok? ==> !r.value.Class?
  {
    match Contains(raw, key)
    case Err(e) =>
      r := Err(e);
    case Ok(present) =>
      if present {
        r := Lookup(raw, key);
      } else {
        var d := f.GetDefault();
        r := Ok(d);
      }
  }

  /** No value of the dict `raw` is a model class, which populating would call to build an instance. */
  predicate NoClassValues(raw: Value) {
    raw.Dict? ==> forall k :: k in raw.entries ==> !raw.entries[k].Class?
  }

  /**
   * What `set_data(raw)` stores for the class field `name` configured by
   * `f`, on an instance whose class fields are `cs` and added fields `es`:
   * the value the key rule selects, assigned through the field `_fields`
   * holds under `name`.
   */
  function Load(raw: Value, name: string, f: Field, cs: seq<(string, Field)>, es: seq<(string, Field)>): Result<Value>
    requires ScalarFields(cs) && ScalarFields(es) && name in OD.Keys(cs)
  {
    var fs := OD.Update(cs, es);
    assert OD.Get(fs, name).Some? && Scalar(OD.Get(fs, name).value.kind) by {
      ScalarUpdate(cs, es);
      ScalarGet(fs, name);
      var i := OD.FirstIndex(OD.Keys(cs), name);
      assert cs[i].0 == name;
    }
    var g := OD.Get(fs, name).value;
    match Incoming(raw, KeyFor(f.source, name), f.default)
    case Err(e) => Err(e)
    case Ok(v) => Assign(g.kind, g.default, v)
  }

  /** The attributes named in `ks` that can be read, by name: the own attributes `a` first, then the class attributes `c`. */
  function Readable(a: map<string, Value>, c: map<string, Value>, ks: seq<string>): map<string, Value> {
    map k | k in ks && (k in a || k in c) :: if k in a then a[k] else c[k]
  }

  /** Changing the own attribute `k` leaves what can be read under other names; reading `k` then adds its entry. */
  lemma ReadableStep(out: map<string, Value>, a0: map<string, Value>, a1: map<string, Value>, c: map<string, Value>,
                     ks: seq<string>, k: string, e: Option<Value>)
    requires k !in ks && out == Readable(a0, c, ks)
    requires a1 == a0 || (k in a1 && a1 == a0[k := a1[k]])
    requires e.Some? ==> (k in a1 || k in c) && e.value == if k in a1 then a1[k] else c[k]
    requires e.None? ==> k !in a1 && k !in c
    ensures (if e.Some? then out[k := e.value] else out) == Readable(a1, c, ks + [k])
  {
  }

  /** On an instance of scalar fields, `_fields` is scalar too, and holds every field `__getattr__` finds. */
  lemma ScalarLookup(m: Model, key: string)
    requires m.ScalarOnly()
    ensures ScalarFields(m.Fields())
    ensures m.Descriptor(key).Some? ==>
      Scalar(m.Descriptor(key).value.kind) && Inert(m.Descriptor(key).value.default) && OD.Get(m.Fields(), key).Some?
  {
    ScalarUpdate(m.clsfields, m.extra);
    ScalarGet(m.clsfields, key);
    ScalarGet(m.extra, key);
    if OD.Get(m.clsfields, key).Some? {
      var i := OD.FirstIndex(OD.Keys(m.clsfields), key);
      assert m.clsfields[i].0 == key;
    } else if OD.Get(m.extra, key).Some? {
      var i := OD.FirstIndex(OD.Keys(m.extra), key);
      assert m.extra[i].0 == key;
    }
  }

  /** Every item of `vs` is an instance none of whose fields is called `name`. */
  ghost predicate Unbound(vs: seq<Value>, name: string)
    reads (set k | 0 <= k < |vs| && vs[k].Instance? :: vs[k].obj)`extra
  {
    forall k :: 0 <= k < |vs| ==> vs[k].Instance? && OD.Get(vs[k].obj.Fields(), name).None?
  }

  /** Every item of `vs` is an instance that holds `v` under `name`. */
  ghost predicate Related(vs: seq<Value>, name: string, v: Value)
    reads (set k | 0 <= k < |vs| && vs[k].Instance? :: vs[k].obj)`attrs
  {
    forall k :: 0 <= k < |vs| ==> vs[k].Instance? && name in vs[k].obj.attrs && vs[k].obj.attrs[name] == v
  }

  /** The attributes of each instance in `vs`, as they are now. */
  ghost method AttrsOf(vs: seq<Value>) returns (a: seq<map<string, Value>>)
    requires forall k :: 0 <= k < |vs| ==> vs[k].Instance?
    ensures |a| == |vs| && forall k :: 0 <= k < |vs| ==> a[k] == vs[k].obj.attrs
  {
    a := seq(|vs|, k requires 0 <= k < |vs| reads set i | 0 <= i < |vs| :: vs[i].obj => vs[k].obj.attrs);
  }

  /** Items that held `v` under `name` when their attributes were `snap` still hold it when only `o` changed, and so does `o` after them. */
  lemma RelatedKept(done: seq<Value>, snap: seq<map<string, Value>>, name: string, v: Value, o: Model)
    requires |snap| == |done|
    requires forall k :: 0 <= k < |done| ==> done[k].Instance? && name in snap[k] && snap[k][name] == v
    requires forall k :: 0 <= k < |done| && done[k].obj != o ==> done[k].obj.attrs == snap[k]
    requires name in o.attrs && o.attrs[name] == v
    ensures Related(done + [Instance(o)], name, v)
  {
    var all := done + [Instance(o)];
    forall k | 0 <= k < |all|
      ensures all[k].Instance? && name in all[k].obj.attrs && all[k].obj.attrs[name] == v
    {
      if k < |done| {
        assert all[k] == done[k];
      }
    }
  }

  /** The field `_fields` holds under a name is one of the instance's own field objects. */
  lemma FieldsOwned(m: Model, key: string)
    ensures OD.Get(m.Fields(), key).Some? ==> OD.Get(m.Fields(), key).value in m.FieldObjects()
  {
    var fs := m.Fields();
    if OD.Get(fs, key).Some? {
      var e := fs[OD.FirstIndex(OD.Keys(fs), key)];
      assert e in m.clsfields || e in m.extra;
    }
  }

  class Model {
    const cls: ModelClass
    const clsfields: Schema   // this instance's copies of the class fields
    var extra: Schema         // `_extra`, the fields added by `add_field`
    var attrs: map<string, Value>           // the instance's own attributes

    /** `cls()`: a fresh instance holding its own shallow copy of each class field. */
    constructor (c: ModelClass)
      ensures cls == c && extra == [] && attrs == map[]
      ensures |clsfields| == |c.fields| && OD.Keys(clsfields) == OD.Keys(c.fields)
      ensures forall i :: 0 <= i < |clsfields| ==> fresh(clsfields[i].1) && clsfields[i].1.CopyOf(c.fields[i].1)
      ensures forall i, j :: 0 <= i < j < |clsfields| ==> clsfields[i].1 != clsfields[j].1
    {
      var copies: seq<(string, Field)> := [];
      for i := 0 to |c.fields|
        invariant |copies| == i && OD.Keys(copies) == OD.Keys(c.fields[..i])
        invariant forall j :: 0 <= j < i ==>
          (copies[j].0 == c.fields[j].0 && fresh(copies[j].1) && copies[j].1.CopyOf(c.fields[j].1))
        invariant forall j, k :: 0 <= j < k < i ==> copies[j].1 != copies[k].1
      {
        var f := new Field.Copy(c.fields[i].1);
        OD.KeysConcat(copies, [(c.fields[i].0, f)]);
        OD.KeysConcat(c.fields[..i], [c.fields[i]]);
        assert c.fields[..i + 1] == c.fields[..i] + [c.fields[i]];
        copies := copies + [(c.fields[i].0, f)];
      }
      assert c.fields[..|c.fields|] == c.fields;
      cls := c;
      clsfields := copies;
      extra := [];
      attrs := map[];
    }

    /** `_fields`: the class fields, then the added ones; an added field wins on a name clash. */
    function Fields(): (fs: seq<(string, Field)>)
      reads this`extra
      ensures forall i :: 0 <= i < |fs| ==> fs[i] in clsfields || fs[i] in extra
    {
      OD.Update(clsfields, extra)
    }

    /** The field objects this instance holds: its copies of the class fields and its added fields. */
    function FieldObjects(): set<Field>
      reads this`extra
    {
      (set i | 0 <= i < |clsfields| :: clsfields[i].1) + (set i | 0 <= i < |extra| :: extra[i].1)
    }

    /** Ordinary attribute lookup: the instance's own attributes, then the class attributes. */
    function Stored(key: string): Option<Value>
      reads this`attrs
    {
      if key in attrs then Some(attrs[key])
      else if key in cls.attributes then Some(cls.attributes[key])
      else None
    }

    /** Every class field and every added field is scalar, with a default that builds no instance. */
    predicate ScalarOnly()
      reads this`extra
    {
      ScalarFields(clsfields) && ScalarFields(extra)
    }

    /** The readable attributes named in `_fields`, by name: what `to_dict` gives for an instance of scalar fields. */
    function Exported(): map<string, Value>
      reads this
    {
      Readable(attrs, cls.attributes, OD.Keys(Fields()))
    }

    /** `cls.from_dict(raw)`: a new instance bound to `raw` by `set_data`. */
    static method FromDict(c: ModelClass, raw: Value, depth: nat) returns (r: Result<Model>)
      modifies (iset m: Model | InHeap(m))`attrs, (iset f: Field | InHeap(f))`data, (iset f: Field | InHeap(f))`relatedObj
      decreases depth, 7
      ensures r.Ok? ==> fresh(r.value) && r.value.cls == c && r.value.extra == []
      ensures r.Ok? ==> forall i :: 0 <= i < |r.value.clsfields| ==> r.value.clsfields[i].0 in r.value.attrs
      ensures c.fields != [] && !(raw.Dict? || raw.Str? || raw.List?) ==> r == Err(TypeError)
      ensures ScalarFields(c.fields) && NoClassValues(raw) && r.Ok? ==>
        ScalarFields(r.value.clsfields) && Loaded(raw, r.value.clsfields, [], r.value.attrs)
        && forall k :: k in r.value.attrs ==> k in OD.Keys(r.value.clsfields)
      ensures ScalarFields(c.fields) ==>
        (forall m: Model :: old(allocated(m)) ==> m.attrs == old(m.attrs))
        && forall g: Field :: old(allocated(g)) ==> g.data == old(g.data) && g.relatedObj == old(g.relatedObj)
      ensures forall m: Model :: old(allocated(m)) ==> old(m.attrs).Keys <= m.attrs.Keys
    {
      var m := new Model(c);
      assert ScalarFields(c.fields) ==> m.ScalarOnly();
      assert forall g: Field :: old(allocated(g)) ==> g !in m.FieldObjects();
      var s := m.SetData(raw, depth);
      match s
      case Err(e) =>
        r := Err(e);
      case Ok(_) =>
        r := Ok(m);
    }

    /** `cls.from_kwargs(**kwargs)`. */
    static method FromKwargs(c: ModelClass, kwargs: map<string, Value>, depth: nat) returns (r: Result<Model>)
      modifies (iset m: Model | InHeap(m))`attrs, (iset f: Field | InHeap(f))`data, (iset f: Field | InHeap(f))`relatedObj
      decreases depth, 8
      ensures r.Ok? ==> fresh(r.value) && r.value.cls == c
      ensures r.Ok? ==> forall i :: 0 <= i < |r.value.clsfields| ==> r.value.clsfields[i].0 in r.value.attrs
      ensures ScalarFields(c.fields) && NoClassValues(Dict(kwargs)) && r.Ok? ==>
        ScalarFields(r.value.clsfields) && Loaded(Dict(kwargs), r.value.clsfields, [], r.value.attrs)
        && forall k :: k in r.value.attrs ==> k in OD.Keys(r.value.clsfields)
      ensures ScalarFields(c.fields) ==>
        (forall m: Model :: old(allocated(m)) ==> m.attrs == old(m.attrs))
        && forall g: Field :: old(allocated(g)) ==> g.data == old(g.data) && g.relatedObj == old(g.relatedObj)
      ensures forall m: Model :: old(allocated(m)) ==> old(m.attrs).Keys <= m.attrs.Keys
    {
      r := FromDict(c, Dict(kwargs), depth);
    }

    /** `cls(**values)`: `set_data` runs only when some value is given. */
    static method Create(c: ModelClass, values: map<string, Value>, depth: nat) returns (r: Result<Model>)
      modifies (iset m: Model | InHeap(m))`attrs, (iset f: Field | InHeap(f))`data, (iset f: Field | InHeap(f))`relatedObj
      decreases depth, 7
      ensures values == map[] ==> r.Ok? && fresh(r.value) && r.value.attrs == map[]
      ensures r.Ok? ==> fresh(r.value) && r.value.cls == c
      ensures r.Ok? && values != map[] ==>
        forall i :: 0 <= i < |r.value.clsfields| ==> r.value.clsfields[i].0 in r.value.attrs
      ensures ScalarFields(c.fields) && NoClassValues(Dict(values)) && r.Ok? && values != map[] ==>
        ScalarFields(r.value.clsfields) && Loaded(Dict(values), r.value.clsfields, [], r.value.attrs)
        && forall k :: k in r.value.attrs ==> k in OD.Keys(r.value.clsfields)
      ensures ScalarFields(c.fields) ==>
        (forall m: Model :: old(allocated(m)) ==> m.attrs == old(m.attrs))
        && forall g: Field :: old(allocated(g)) ==> g.data == old(g.data) && g.relatedObj == old(g.relatedObj)
      ensures forall m: Model :: old(allocated(m)) ==> old(m.attrs).Keys <= m.attrs.Keys
    {
      var m := new Model(c);
      if values == map[] {
        return Ok(m);
      }
      assert ScalarFields(c.fields) ==> m.ScalarOnly();
      assert forall g: Field :: old(allocated(g)) ==> g !in m.FieldObjects();
      var s := m.SetData(Dict(values), depth);
      match s
      case Err(e) =>
        r := Err(e);
      case Ok(_) =>
        r := Ok(m);
    }

    /**
     * `set_data(raw)`: every class field, in schema order, is assigned
     * `raw[key]` when `key = source or name` is in `raw`, and `get_default()`
     * otherwise.
     */
    method SetData(raw: Value, depth: nat) returns (r: Result<()>)
      modifies (iset m: Model | InHeap(m))`attrs, (iset f: Field | InHeap(f))`data, (iset f: Field | InHeap(f))`relatedObj
      decreases depth, 6
      ensures r.Ok? ==> forall i :: 0 <= i < |clsfields| ==> clsfields[i].0 in attrs
      ensures clsfields != [] && !(raw.Dict? || raw.Str? || raw.List?) ==> r == Err(TypeError)
      ensures ScalarOnly() && NoClassValues(raw) && r.Ok? ==> Loaded(raw, clsfields, extra, attrs)
      ensures ScalarOnly() && NoClassValues(raw) && r.Err? ==>
        exists i :: 0 <= i < |clsfields| && Load(raw, clsfields[i].0, clsfields[i].1, clsfields, extra) == Err(r.fault)
          && forall j :: 0 <= j < i ==> Load(raw, clsfields[j].0, clsfields[j].1, clsfields, extra).Ok?
      ensures ScalarOnly() ==> forall k :: k !in OD.Keys(clsfields) ==>
        (k in attrs <==> k in old(attrs)) && (k in attrs ==> attrs[k] == old(attrs)[k])
      ensures ScalarOnly() ==>
        (forall m: Model :: old(allocated(m)) && m != this ==> m.attrs == old(m.attrs))
        && forall g: Field :: old(allocated(g)) && g !in FieldObjects() ==> g.data == old(g.data) && g.relatedObj == old(g.relatedObj)
      ensures forall m: Model :: old(allocated(m)) ==> old(m.attrs).Keys <= m.attrs.Keys
    {
      ghost var so := ScalarOnly();
      ghost var sc := so && NoClassValues(raw);
      ghost var names := OD.Keys(clsfields);
      ghost var es := extra;
      for i := 0 to |clsfields|
        invariant forall j :: 0 <= j < i ==> names[j] in attrs
        invariant i > 0 ==> raw.Dict? || raw.Str? || raw.List?
        invariant ScalarOnly() == so && extra == es
        invariant sc ==> forall j {:trigger Load(raw, clsfields[j].0, clsfields[j].1, clsfields, es)} :: 0 <= j < i ==>
          Load(raw, clsfields[j].0, clsfields[j].1, clsfields, es).Ok?
          && clsfields[j].0 in attrs && attrs[clsfields[j].0] == Load(raw, clsfields[j].0, clsfields[j].1, clsfields, es).value
        invariant so ==> forall k :: k !in names[..i] ==>
          (k in attrs <==> k in old(attrs)) && (k in attrs ==> attrs[k] == old(attrs)[k])
        invariant so ==>
          (forall m: Model :: old(allocated(m)) && m != this ==> m.attrs == old(m.attrs))
          && forall g: Field :: old(allocated(g)) && g !in FieldObjects() ==> g.data == old(g.data) && g.relatedObj == old(g.relatedObj)
        invariant forall m: Model :: old(allocated(m)) ==> old(m.attrs).Keys <= m.attrs.Keys
      {
        ghost var before := attrs;
        var s := LoadField(raw, i, depth);
        assert before.Keys <= attrs.Keys;
        if s.Err? {
          assert sc ==> Load(raw, clsfields[i].0, clsfields[i].1, clsfields, es) == Err(s.fault);
          return Err(s.fault);
        }
        if sc {
          LoadedStep(raw, clsfields, es, before, attrs, i);
        }
        assert names[..i + 1] == names[..i] + [names[i]];
      }
      assert names[..|clsfields|] == names;
      r := Ok(());
    }

    /** One round of `set_data`: assign the class field `clsfields[i]` the value its key selects. */
    method LoadField(raw: Value, i: nat, depth: nat) returns (r: Result<()>)
      requires i < |clsfields|
      modifies (iset m: Model | InHeap(m))`attrs, (iset f: Field | InHeap(f))`data, (iset f: Field | InHeap(f))`relatedObj
      decreases depth, 5
      ensures r.Ok? ==> clsfields[i].0 in attrs
      ensures !(raw.Dict? || raw.Str? || raw.List?) ==> r == Err(TypeError)
      ensures ScalarOnly() && NoClassValues(raw) ==>
        (var l := Load(raw, clsfields[i].0, clsfields[i].1, clsfields, extra);
         (r.Ok? <==> l.Ok?) && (r.Ok? ==> attrs == old(attrs)[clsfields[i].0 := l.value])
         && (r.Err? ==> l == Err(r.fault)))
      ensures ScalarOnly() ==> attrs == old(attrs) || (clsfields[i].0 in attrs && attrs == old(attrs)[clsfields[i].0 := attrs[clsfields[i].0]])
      ensures ScalarOnly() ==>
        (forall m: Model :: old(allocated(m)) && m != this ==> m.attrs == old(m.attrs))
        && forall g: Field :: old(allocated(g)) && g !in FieldObjects() ==> g.data == old(g.data) && g.relatedObj == old(g.relatedObj)
      ensures forall m: Model :: old(allocated(m)) ==> old(m.attrs).Keys <= m.attrs.Keys
    {
      var (name, f) := clsfields[i];
      var key := KeyFor(f.source, name);
      var v := Fetch(raw, key, f);
      if v.Err? {
        return Err(v.fault);
      }
      if ScalarOnly() {
        ScalarLookup(this, name);
        OD.GetEntry(clsfields, i);
        FieldsOwned(this, name);
        r := SetAttr(name, v.value, depth);
      } else {
        r := SetAttr(name, v.value, depth);
      }
    }

    /**
     * `__setattr__`: a name in `_fields` populates that field, records this
     * instance as its related object and stores `to_python()`; any other
     * name stores the value as given.
     */
    method SetAttr(key: string, value: Value, depth: nat) returns (r: Result<()>)
      modifies (iset m: Model | InHeap(m))`attrs, (iset f: Field | InHeap(f))`data, (iset f: Field | InHeap(f))`relatedObj
      decreases depth, 4
      ensures r.Ok? ==> key in attrs
      ensures OD.Get(Fields(), key).None? ==>
        (r.Ok? && attrs == old(attrs)[key := value]
         && (forall m: Model :: old(allocated(m)) && m != this ==> m.attrs == old(m.attrs))
         && forall g: Field :: old(allocated(g)) ==> g.data == old(g.data) && g.relatedObj == old(g.relatedObj))
      ensures OD.Get(Fields(), key).Some? ==> FieldStored(OD.Get(Fields(), key).value, key, value, depth, r, attrs)
      ensures OD.Get(Fields(), key).Some? && Scalar(OD.Get(Fields(), key).value.kind) ==>
        (var f := OD.Get(Fields(), key).value;
         (r.Ok? ==> attrs == old(attrs)[key := attrs[key]] && f.relatedObj == Instance(this))
         && (r.Err? ==> attrs == old(attrs))
         && (forall m: Model :: old(allocated(m)) && m != this ==> m.attrs == old(m.attrs))
         && forall g: Field :: old(allocated(g)) && g != f ==> g.data == old(g.data) && g.relatedObj == old(g.relatedObj))
      ensures forall m: Model :: old(allocated(m)) ==> old(m.attrs).Keys <= m.attrs.Keys
    {
      var g := OD.Get(Fields(), key);
      if g.None? {
        attrs := attrs[key := value];
        return Ok(());
      }
      var v := Bind(g.value, value, depth);
      if v.Err? {
        return Err(v.fault);
      }
      attrs := attrs[key := v.value];
      r := Ok(());
    }

    /** The field branch of `__setattr__`: populate the field, point it back at this instance, convert. */
    method Bind(f: Field, value: Value, depth: nat) returns (r: Result<Value>)
      modifies (iset m: Model | InHeap(m))`attrs, (iset f: Field | InHeap(f))`data, (iset f: Field | InHeap(f))`relatedObj
      decreases depth, 3
      ensures Scalar(f.kind) && !value.Class? && Inert(f.default) ==> r == Assign(f.kind, f.default, value)
      ensures f.kind.Nested? && r.Ok? ==> r.value == Null || IsInstance(r.value, f.kind.wrapped)
      ensures f.kind.Nested? && IsInstance(value, f.kind.wrapped) && f.kind.related.None? && depth > 0 ==>
        r == Ok(value)
      ensures Scalar(f.kind) && r.Ok? ==> f.relatedObj == Instance(this)
      ensures Scalar(f.kind) ==> forall m: Model :: old(allocated(m)) ==> m.attrs == old(m.attrs)
      ensures Scalar(f.kind) ==> forall g: Field :: old(allocated(g)) && g != f ==>
        g.data == old(g.data) && g.relatedObj == old(g.relatedObj)
      ensures forall m: Model :: old(allocated(m)) ==> old(m.attrs).Keys <= m.attrs.Keys
    {
      var p := f.Populate(value);
      if p.Err? {
        return Err(p.fault);
      }
      f.relatedObj := Instance(this);
      r := f.ToPython(depth);
    }

    /**
     * Reading an attribute: a stored value is returned as is; a field name
     * with no stored value computes `field.to_python()` (class fields looked
     * up before added ones), stores it through `__setattr__` and returns it;
     * any other name raises `AttributeError`.
     */
    method GetAttr(key: string, depth: nat) returns (r: Result<Value>)
      modifies (iset m: Model | InHeap(m))`attrs, (iset f: Field | InHeap(f))`data, (iset f: Field | InHeap(f))`relatedObj
      decreases depth, 5
      ensures old(Stored(key)).Some? ==> r == Ok(old(Stored(key)).value) && attrs == old(attrs)
      ensures old(Stored(key)).None? && Descriptor(key).None? ==> r == Err(AttributeError)
      ensures r.Ok? ==> Stored(key).Some?
      ensures old(Stored(key)).None? && Descriptor(key).Some? ==>
        (var f := Descriptor(key).value;
         Scalar(f.kind) && Inert(f.default) ==> Within(r, ScalarToPython(f.kind, f.default, old(f.data))))
      ensures old(Stored(key)).None? && r.Ok? ==>
        OD.Get(Fields(), key).Some? && FieldStored(OD.Get(Fields(), key).value, key, r.value, depth, Ok(()), attrs)
      ensures ScalarOnly() ==>
        (key in attrs ==> attrs == old(attrs)[key := attrs[key]]) && (key !in attrs ==> attrs == old(attrs))
      ensures ScalarOnly() && r.Err? ==> attrs == old(attrs)
      ensures forall m: Model :: old(allocated(m)) ==> old(m.attrs).Keys <= m.attrs.Keys
    {
      var s := Stored(key);
      if s.Some? {
        return Ok(s.value);
      }
      if ScalarOnly() {
        ScalarLookup(this, key);
      }
      var g := Descriptor(key);
      if g.None? {
        return Err(AttributeError);
      }
      OD.UpdateGet(clsfields, extra, key);
      var v := g.value.ToPython(depth);
      if v.Err? {
        return v;
      }
      var a := SetAttr(key, v.value, depth);
      if a.Err? {
        return Err(a.fault);
      }
      r := v;
    }

    /** The field `__getattr__` finds for `key`: a class field first, then an added one. */
    function Descriptor(key: string): Option<Field>
      reads this`extra
    {
      if OD.Get(clsfields, key).Some? then OD.Get(clsfields, key) else OD.Get(extra, key)
    }

    /** Python 2 `hasattr`: reading the attribute succeeds; every exception counts as absent. */
    method HasAttr(key: string, depth: nat) returns (b: bool)
      modifies (iset m: Model | InHeap(m))`attrs, (iset f: Field | InHeap(f))`data, (iset f: Field | InHeap(f))`relatedObj
      decreases depth, 6
      ensures old(Stored(key)).Some? ==> b && attrs == old(attrs)
      ensures b ==> Stored(key).Some?
      ensures old(Stored(key)).None? && Descriptor(key).None? ==> !b
      ensures ScalarOnly() ==>
        (key in attrs ==> attrs == old(attrs)[key := attrs[key]]) && (key !in attrs ==> attrs == old(attrs))
      ensures ScalarOnly() && !b ==> attrs == old(attrs)
      ensures forall m: Model :: old(allocated(m)) ==> old(m.attrs).Keys <= m.attrs.Keys
    {
      var r := GetAttr(key, depth);
      b := r.Ok?;
    }

    /** `add_field(key, value, field)`: register the field in `_extra`, then assign through it. */
    method AddField(key: string, value: Value, field: Field, depth: nat) returns (r: Result<()>)
      modifies this`extra
      modifies (iset m: Model | InHeap(m))`attrs, (iset f: Field | InHeap(f))`data, (iset f: Field | InHeap(f))`relatedObj
      decreases depth, 5
      ensures extra == OD.Put(old(extra), key, field)
      ensures OD.Get(Fields(), key) == Some(field)
      ensures r.Ok? ==> key in attrs
      ensures FieldStored(field, key, value, depth, r, attrs)
      ensures forall m: Model :: old(allocated(m)) ==> old(m.attrs).Keys <= m.attrs.Keys
    {
      OD.PutLast(extra, key, field);
      extra := OD.Put(extra, key, field);
      OD.UpdateGet(clsfields, extra, key);
      r := SetAttr(key, value, depth);
    }

    /**
     * `to_dict(serial)`: every name of `_fields` whose attribute can be read,
     * mapped to its value, or with `serial` to its field's `to_serial` of it.
     */
    method ToDict(serial: bool, depth: nat) returns (r: Result<map<string, Value>>)
      modifies (iset m: Model | InHeap(m))`attrs, (iset f: Field | InHeap(f))`data, (iset f: Field | InHeap(f))`relatedObj
      decreases depth, 10
      ensures !serial ==> r.Ok?
      ensures r.Ok? ==> forall k :: k in r.value ==> k in OD.Keys(Fields()) && Stored(k).Some?
      ensures r.Ok? ==> forall k :: k in OD.Keys(Fields()) && k in old(attrs) ==> k in r.value
      ensures ScalarOnly() ==> r == Ok(Exported())
      ensures ScalarOnly() ==> forall k :: k in old(attrs) ==> k in attrs && attrs[k] == old(attrs)[k]
      ensures ScalarOnly() ==> forall k :: k in OD.Keys(Fields()) && k in old(attrs) ==> k in r.value && r.value[k] == old(attrs)[k]
      ensures forall m: Model :: old(allocated(m)) ==> old(m.attrs).Keys <= m.attrs.Keys
    {
      var fs := Fields();
      if ScalarOnly() {
        ScalarLookup(this, "");
        OD.UpdateUnique(clsfields, extra);
      }
      r := Entries(fs, serial, depth);
    }

    /** The generator of `to_dict` over the entries `fs` of `_fields`, in order. */
    method Entries(fs: seq<(string, Field)>, serial: bool, depth: nat) returns (r: Result<map<string, Value>>)
      requires ScalarOnly() ==> ScalarFields(fs) && OD.Unique(OD.Keys(fs))
      modifies (iset m: Model | InHeap(m))`attrs, (iset f: Field | InHeap(f))`data, (iset f: Field | InHeap(f))`relatedObj
      decreases depth, 9
      ensures !serial ==> r.Ok?
      ensures r.Ok? ==> forall k :: k in r.value ==> k in OD.Keys(fs) && Stored(k).Some?
      ensures r.Ok? ==> forall k :: k in OD.Keys(fs) && k in old(attrs) ==> k in r.value
      ensures ScalarOnly() ==> r == Ok(Readable(attrs, cls.attributes, OD.Keys(fs)))
      ensures ScalarOnly() ==> forall j :: j in old(attrs) ==> j in attrs && attrs[j] == old(attrs)[j]
      ensures forall m: Model :: old(allocated(m)) ==> old(m.attrs).Keys <= m.attrs.Keys
    {
      var names := OD.Keys(fs);
      ghost var sc := ScalarOnly();
      var out: map<string, Value> := map[];
      for i := 0 to |names|
        invariant forall k :: k in out ==> k in names[..i] && Stored(k).Some?
        invariant forall k :: k in names[..i] && k in old(attrs) ==> k in out
        invariant ScalarOnly() == sc
        invariant sc ==> out == Readable(attrs, cls.attributes, names[..i])
        invariant sc ==> forall j :: j in old(attrs) ==> j in attrs && attrs[j] == old(attrs)[j]
        invariant old(attrs).Keys <= attrs.Keys
        invariant forall m: Model :: old(allocated(m)) ==> old(m.attrs).Keys <= m.attrs.Keys
      {
        var k := names[i];
        if sc {
          ScalarGet(fs, k);
          assert k !in names[..i];
        }
        assert names[..i + 1] == names[..i] + [k];
        var e := Gather(out, names[..i], old(attrs), k, OD.Get(fs, k).value, serial, depth);
        if e.Err? {
          assert !sc;
          return Err(e.fault);
        }
        out := e.value;
      }
      assert names[..|names|] == names;
      r := Ok(out);
    }

    /** One step of `to_dict`: the entries `out` gathered for the names `ks`, with the entry for `k` when it has one. */
    method Gather(out: map<string, Value>, ghost ks: seq<string>, ghost a0: map<string, Value>,
                  k: string, f: Field, serial: bool, depth: nat)
      returns (r: Result<map<string, Value>>)
      requires forall j :: j in out ==> j in ks && Stored(j).Some?
      requires forall j :: j in ks && j in a0 ==> j in out
      requires a0.Keys <= attrs.Keys
      modifies (iset m: Model | InHeap(m))`attrs, (iset f: Field | InHeap(f))`data, (iset f: Field | InHeap(f))`relatedObj
      decreases depth, 8
      ensures !serial || Scalar(f.kind) ==> r.Ok?
      ensures a0.Keys <= attrs.Keys
      ensures r.Ok? ==> forall j :: j in r.value ==> j in ks + [k] && Stored(j).Some?
      ensures r.Ok? ==> forall j :: j in ks + [k] && j in a0 ==> j in r.value
      ensures ScalarOnly() && Scalar(f.kind) && k !in ks && out == old(Readable(attrs, cls.attributes, ks)) ==>
        r == Ok(Readable(attrs, cls.attributes, ks + [k]))
      ensures ScalarOnly() && Scalar(f.kind) ==> forall j :: j in old(attrs) ==> j in attrs && attrs[j] == old(attrs)[j]
      ensures forall m: Model :: old(allocated(m)) ==> old(m.attrs).Keys <= m.attrs.Keys
    {
      var e := Export(k, f, serial, depth);
      if ScalarOnly() && Scalar(f.kind) && k !in ks && out == old(Readable(attrs, cls.attributes, ks)) {
        ReadableStep(out, old(attrs), attrs, cls.attributes, ks, k, e.value);
      }
      match e
      case Err(x) =>
        r := Err(x);
      case Ok(None) =>
        r := Ok(out);
      case Ok(Some(x)) =>
        r := Ok(out[k := x]);
    }

    /** One entry of `to_dict`: skipped when `hasattr` fails, else the value or its `to_serial`. */
    method Export(k: string, f: Field, serial: bool, depth: nat) returns (r: Result<Option<Value>>)
      modifies (iset m: Model | InHeap(m))`attrs, (iset f: Field | InHeap(f))`data, (iset f: Field | InHeap(f))`relatedObj
      decreases depth, 7
      ensures !serial || Scalar(f.kind) ==> r.Ok?
      ensures r.Ok? && r.value.Some? ==> Stored(k).Some?
      ensures r.Ok? && r.value.Some? && (!serial || Scalar(f.kind)) ==> r.value.value == Stored(k).value
      ensures r.Ok? && k in old(attrs) ==> r.value.Some?
      ensures ScalarOnly() && (!serial || Scalar(f.kind)) ==>
        (k in attrs ==> attrs == old(attrs)[k := attrs[k]]) && (k !in attrs ==> attrs == old(attrs))
      ensures ScalarOnly() && r.Ok? && r.value.None? ==> Stored(k).None?
      ensures old(Stored(k)).Some? && (!serial || Scalar(f.kind)) ==> attrs == old(attrs) && r == Ok(Some(old(Stored(k)).value))
      ensures forall m: Model :: old(allocated(m)) ==> old(m.attrs).Keys <= m.attrs.Keys
    {
      var present := HasAttr(k, depth);
      if !present {
        return Ok(None);
      }
      var v := Stored(k).value;
      if !serial {
        return Ok(Some(v));
      }
      var s := f.ToSerial(v, depth);
      match s
      case Err(e) =>
        r := Err(e);
      case Ok(x) =>
        r := Ok(Some(x));
    }

    /**
     * `validate()`: for each name of `_fields`, the message of the field's
     * `validate()` and then the message of its `validate_<name>` hook, if
     * any; `None` when nothing was recorded.
     */
    method Validate(depth: nat)
      returns (r: Result<Option<ErrorReport.Errors>>, ghost names: seq<string>,
               ghost own: seq<Option<string>>, ghost hook: seq<Option<string>>)
      modifies (iset m: Model | InHeap(m))`attrs, (iset f: Field | InHeap(f))`data, (iset f: Field | InHeap(f))`relatedObj
      decreases depth, 8
      ensures names == OD.Keys(Fields())
      ensures r.Ok? ==>
        (|own| == |names| && |hook| == |names|
         && r.value == ErrorReport.Report(ErrorReport.Collect(names, own, hook))
         && forall i :: 0 <= i < |names| && HookName(names[i]) !in cls.hooks ==> hook[i].None?)
      ensures ScalarFields(Fields()) ==> attrs == old(attrs)
      ensures ScalarFields(Fields()) ==>
        (r.Ok? <==> forall i :: 0 <= i < |names| ==> OwnMessage(Fields()[i].1, old(Fields()[i].1.data)).Ok?)
      ensures ScalarFields(Fields()) && r.Ok? ==>
        forall i :: 0 <= i < |names| ==>
          own[i] == OwnMessage(Fields()[i].1, old(Fields()[i].1.data)).value
          && hook[i] == HookMessage(cls.hooks, names[i], old(attrs))
      ensures forall m: Model :: old(allocated(m)) ==> old(m.attrs).Keys <= m.attrs.Keys
    {
      var fs := Fields();
      names := OD.Keys(fs);
      ghost var sc := ScalarFields(fs);
      ghost var data0 := Snapshot(fs);
      ghost var attrs0 := attrs;
      own := [];
      hook := [];
      var errors: ErrorReport.Errors := map[];
      for i := 0 to |fs|
        invariant |own| == i && |hook| == i
        invariant errors == ErrorReport.Collect(names[..i], own, hook)
        invariant forall j :: 0 <= j < i && HookName(names[j]) !in cls.hooks ==> hook[j].None?
        invariant Fields() == fs
        invariant sc ==> attrs == attrs0 && Unchanged(fs, data0) && Recorded(fs, data0, cls.hooks, attrs0, own, hook)
        invariant forall m: Model :: old(allocated(m)) ==> old(m.attrs).Keys <= m.attrs.Keys
      {
        var c;
        c, own, hook := Visit(fs, i, names, sc, data0, attrs0, errors, own, hook, depth);
        if c.Err? {
          return Err(c.fault), names, own, hook;
        }
        errors := c.value;
      }
      assert names[..|fs|] == names;
      r := Ok(ErrorReport.Report(errors));
    }

    /**
     * Round `i` of `validate()` over the entries `fs` of `_fields`, whose
     * fields held `data0` and whose model held `attrs0` when the loop began:
     * the dictionary and the messages so far, extended by the two messages
     * of `fs[i]`. On scalar fields every field still reads as it did then,
     * and the round records what the field then held.
     */
    method Visit(fs: seq<(string, Field)>, i: nat, ghost names: seq<string>, ghost sc: bool,
                 ghost data0: seq<Option<Value>>, ghost attrs0: map<string, Value>,
                 errors: ErrorReport.Errors, ghost own: seq<Option<string>>, ghost hook: seq<Option<string>>, depth: nat)
      returns (r: Result<ErrorReport.Errors>, ghost own': seq<Option<string>>, ghost hook': seq<Option<string>>)
      requires i < |fs| && |data0| == |fs| && names == OD.Keys(fs) && |own| == i && |hook| == i
      requires errors == ErrorReport.Collect(names[..i], own, hook)
      requires forall j :: 0 <= j < i && HookName(names[j]) !in cls.hooks ==> hook[j].None?
      requires sc == ScalarFields(fs)
      requires sc ==> attrs == attrs0 && Unchanged(fs, data0) && Recorded(fs, data0, cls.hooks, attrs0, own, hook)
      modifies (iset m: Model | InHeap(m))`attrs, (iset f: Field | InHeap(f))`data, (iset f: Field | InHeap(f))`relatedObj
      decreases depth, 5
      ensures r.Ok? ==>
        |own'| == i + 1 && |hook'| == i + 1
        && r.value == ErrorReport.Collect(names[..i + 1], own', hook')
        && forall j :: 0 <= j < i + 1 && HookName(names[j]) !in cls.hooks ==> hook'[j].None?
      ensures sc ==> attrs == attrs0 && Unchanged(fs, data0)
      ensures sc ==> (r.Ok? <==> OwnMessage(fs[i].1, data0[i]).Ok?)
      ensures sc && r.Ok? ==> Recorded(fs, data0, cls.hooks, attrs0, own', hook')
      ensures forall m: Model :: old(allocated(m)) ==> old(m.attrs).Keys <= m.attrs.Keys
    {
      var (name, f) := fs[i];
      ghost var pre := f.data;
      var c := CheckField(name, f, depth);
      if sc {
        SameReading(f, pre, data0[i]);
        assert forall j :: 0 <= j < |fs| && fs[j].1 != f ==> fs[j].1.data == old(fs[j].1.data);
      }
      own', hook' := own, hook;
      if c.Err? {
        return Err(c.fault), own', hook';
      }
      var (ownMessage, hookMessage) := c.value;
      if sc {
        RecordedStep(fs, data0, cls.hooks, attrs0, own, hook, ownMessage, hookMessage);
      }
      assert names[..i + 1] == names[..i] + [name];
      ErrorReport.CollectStep(names[..i], own, hook, name, ownMessage, hookMessage);
      r := Ok(ErrorReport.Record(ErrorReport.Record(errors, name, ownMessage), name, hookMessage));
      own', hook' := own + [ownMessage], hook + [hookMessage];
    }

    /**
     * One round of `validate()`: the `ValidationError` message of the
     * field's `validate()`, then the message of its `validate_<name>` hook;
     * any other exception escapes.
     */
    method CheckField(name: string, f: Field, depth: nat) returns (r: Result<(Option<string>, Option<string>)>)
      modifies (iset m: Model | InHeap(m))`attrs, (iset f: Field | InHeap(f))`data, (iset f: Field | InHeap(f))`relatedObj
      decreases depth, 4
      ensures r.Ok? ==> r.value.1 == HookMessage(cls.hooks, name, attrs)
      ensures Scalar(f.kind) && Inert(f.default) ==>
        (r.Ok? <==> OwnMessage(f, old(f.data)).Ok?)
        && (r.Ok? ==> r.value.0 == OwnMessage(f, old(f.data)).value)
        && (r.Err? ==> OwnMessage(f, old(f.data)) == Err(r.fault))
      ensures Scalar(f.kind) && Inert(f.default) ==>
        ScalarToPython(f.kind, f.default, f.data) == ScalarToPython(f.kind, f.default, old(f.data))
      ensures Scalar(f.kind) ==> forall m: Model :: old(allocated(m)) ==> m.attrs == old(m.attrs)
      ensures Scalar(f.kind) ==> forall g: Field :: old(allocated(g)) && g != f ==> g.data == old(g.data)
      ensures forall m: Model :: old(allocated(m)) ==> old(m.attrs).Keys <= m.attrs.Keys
    {
      if Scalar(f.kind) && ScalarToPython(f.kind, f.default, f.data).Ok? {
        ChainOutcome(f.validators, ScalarToPython(f.kind, f.default, f.data).value);
      }
      var c := f.Validate(depth);
      var ownMessage: Option<string> := None;
      match c {
        case Broken(e) =>
          return Err(e);
        case Invalid(m) =>
          ownMessage := Some(m);
        case Valid(_) =>
      }
      var hookMessage: Option<string> := None;
      if HookName(name) in cls.hooks {
        match cls.hooks[HookName(name)](attrs)
        case Failed(m) =>
          hookMessage := Some(m);
        case _ =>
      }
      r := Ok((ownMessage, hookMessage));
    }
  }
}
