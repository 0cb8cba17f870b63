/**
 * The pure part of building a model's schema: the class's own fields sorted
 * by creation counter, after the schemas of its model bases in the listed
 * order, collected into an OrderedDict.
 */
module Declared {
  import opened Wrappers
  import OD = OrderedDict

  predicate SortedBy<V>(s: seq<(string, V)>, key: V -> int) {
    forall i, j :: 0 <= i < j < |s| ==> key(s[i].1) <= key(s[j].1)
  }

  /** Puts `x` before the first entry whose key is not smaller. */
  function Insert<V>(x: (string, V), s: seq<(string, V)>, key: V -> int): (r: seq<(string, V)>)
    requires SortedBy(s, key)
    ensures |r| == |s| + 1
    ensures r[0] == x || (s != [] && r[0] == s[0])
    ensures SortedBy(r, key)
    ensures multiset(r) == multiset(s) + multiset{x}
  {
    if s == [] || key(x.1) <= key(s[0].1) then
      SortedCons(x, s, key);
      [x] + s
    else
      var rest := s[1..];
      assert SortedBy(rest, key);
      var t := Insert(x, rest, key);
      assert s == [s[0]] + rest;
      assert multiset(s) == multiset{s[0]} + multiset(rest);
      assert multiset([s[0]] + t) == multiset{s[0]} + multiset(t);
      assert key(s[0].1) <= key(t[0].1);
      SortedCons(s[0], t, key);
      [s[0]] + t
  }

  lemma SortedCons<V>(a: (string, V), t: seq<(string, V)>, key: V -> int)
    requires SortedBy(t, key) && (t == [] || key(a.1) <= key(t[0].1))
    ensures SortedBy([a] + t, key)
  {
    var r := [a] + t;
    forall i, j | 0 <= i < j < |r|
      ensures key(r[i].1) <= key(r[j].1)
    {
      if i == 0 {
        assert r[j] == t[j - 1];
        assert key(t[0].1) <= key(t[j - 1].1);
      } else {
        assert r[i] == t[i - 1] && r[j] == t[j - 1];
      }
    }
  }

  /** `list.sort(key=...)`: a stable sort by `key`. */
  function SortBy<V>(s: seq<(string, V)>, key: V -> int): (r: seq<(string, V)>)
    ensures SortedBy(r, key)
    ensures multiset(r) == multiset(s)
  {
    if s == [] then []
    else
      assert s == [s[0]] + s[1..];
      Insert(s[0], SortBy(s[1..], key), key)
  }

  /** The entries of the base schemas, base 0 first. */
  function Concat<V>(schemas: seq<seq<(string, V)>>): seq<(string, V)> {
    if schemas == [] then [] else schemas[0] + Concat(schemas[1..])
  }

  /** The schema a class gets: base entries, then its own (sorted) entries, as an OrderedDict. */
  function Schema<V>(bases: seq<seq<(string, V)>>, own: seq<(string, V)>): seq<(string, V)> {
    OD.FromPairs(Concat(bases) + own)
  }

  /**
   * The schema lists every name once: the names of base 0, then of base 1 and
   * so on, then the class's own, each at the position of its first occurrence.
   */
  lemma SchemaOrder<V>(bases: seq<seq<(string, V)>>, own: seq<(string, V)>)
    ensures OD.Unique(OD.Keys(Schema(bases, own)))
    ensures OD.Keys(Schema(bases, own)) == OD.Dedup(OD.Keys(Concat(bases)) + OD.Keys(own))
  {
    OD.FromPairsSpec(Concat(bases) + own);
    OD.KeysConcat(Concat(bases), own);
  }

  /** A name the class declares itself maps to the class's own field, whatever the bases hold. */
  lemma SchemaOverride<V>(bases: seq<seq<(string, V)>>, own: seq<(string, V)>, i: nat)
    requires OD.Unique(OD.Keys(own)) && i < |own|
    ensures OD.Get(Schema(bases, own), own[i].0) == Some(own[i].1)
  {
    var all := Concat(bases) + own;
    OD.UpdateGet([], all, own[i].0);
    LastValueSuffix(Concat(bases), own, i);
  }

  /** A name the class declares itself maps to its own (last) entry of that name, whatever the bases hold. */
  lemma SchemaOwnWins<V>(bases: seq<seq<(string, V)>>, own: seq<(string, V)>, k: string)
    requires k in OD.Keys(own)
    ensures OD.Get(Schema(bases, own), k) == Some(OD.LastValue(own, k))
  {
    var all := Concat(bases) + own;
    OD.UpdateGet([], all, k);
    LastValueIn(Concat(bases), own, k);
  }

  lemma {:induction false} LastValueIn<V>(a: seq<(string, V)>, b: seq<(string, V)>, k: string)
    requires k in OD.Keys(b)
    ensures k in OD.Keys(a + b)
    ensures OD.LastValue(a + b, k) == OD.LastValue(b, k)
    decreases |b|
  {
    var ab := a + b;
    var i := OD.FirstIndex(OD.Keys(b), k);
    assert ab[|a| + i].0 == k;
    var n := |b| - 1;
    assert ab[|ab| - 1] == b[n];
    if b[n].0 != k {
      assert ab[..|ab| - 1] == a + b[..n];
      assert OD.Keys(b[..n]) == OD.Keys(b)[..n];
      assert i < n;
      LastValueIn(a, b[..n], k);
    }
  }

  /** A name only the bases declare maps to the field of the last base that declares it. */
  lemma SchemaInherited<V>(bases: seq<seq<(string, V)>>, own: seq<(string, V)>, k: string)
    requires k in OD.Keys(Concat(bases)) && k !in OD.Keys(own)
    ensures OD.Get(Schema(bases, own), k) == Some(OD.LastValue(Concat(bases), k))
  {
    var all := Concat(bases) + own;
    OD.UpdateGet([], all, k);
    LastValuePrefix(Concat(bases), own, k);
  }

  lemma {:induction false} LastValueSuffix<V>(a: seq<(string, V)>, b: seq<(string, V)>, i: nat)
    requires OD.Unique(OD.Keys(b)) && i < |b|
    ensures b[i].0 in OD.Keys(a + b)
    ensures OD.LastValue(a + b, b[i].0) == b[i].1
    decreases |b|
  {
    var ab := a + b;
    assert ab[|a| + i] == b[i];
    var n := |b| - 1;
    if i < n {
      assert ab[..|ab| - 1] == a + b[..n];
      assert OD.Keys(b[..n]) == OD.Keys(b)[..n];
      LastValueSuffix(a, b[..n], i);
    }
  }

  lemma {:induction false} LastValuePrefix<V>(a: seq<(string, V)>, b: seq<(string, V)>, k: string)
    requires k in OD.Keys(a) && k !in OD.Keys(b)
    ensures k in OD.Keys(a + b)
    ensures OD.LastValue(a + b, k) == OD.LastValue(a, k)
    decreases |b|
  {
    var ab := a + b;
    var j := OD.FirstIndex(OD.Keys(a), k);
    assert ab[j].0 == k;
    if b != [] {
      var n := |b| - 1;
      assert ab[|ab| - 1] == b[n];
      assert ab[..|ab| - 1] == a + b[..n];
      assert OD.Keys(b) == OD.Keys(b[..n]) + [b[n].0];
      LastValuePrefix(a, b[..n], k);
    } else {
      assert ab == a;
    }
  }
}
