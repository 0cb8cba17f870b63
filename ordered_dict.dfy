/**
 * `collections.OrderedDict` as the engine uses it: a sequence of (key, value)
 * entries in insertion order. Assigning an existing key replaces its value in
 * place; assigning a new key appends it.
 */
module OrderedDict {
  import opened Wrappers

  /** The keys of `d`, in order. */
  function Keys<K, V>(d: seq<(K, V)>): (ks: seq<K>)
    ensures |ks| == |d|
    ensures forall i :: 0 <= i < |d| ==> ks[i] == d[i].0
  {
    seq(|d|, i requires 0 <= i < |d| => d[i].0)
  }

  lemma KeysConcat<K, V>(a: seq<(K, V)>, b: seq<(K, V)>)
    ensures Keys(a + b) == Keys(a) + Keys(b)
  {
  }

  predicate Unique<K(==)>(ks: seq<K>) {
    forall i, j :: 0 <= i < j < |ks| ==> ks[i] != ks[j]
  }

  /** The position where `k` first occurs in `ks`. */
  function FirstIndex<K(==)>(ks: seq<K>, k: K): (i: nat)
    requires k in ks
    ensures i < |ks| && ks[i] == k
    ensures forall j :: 0 <= j < i ==> ks[j] != k
  {
    if ks[0] == k then 0 else 1 + FirstIndex(ks[1..], k)
  }

  /** `d.get(k)`: the value stored under `k`, if any. */
  function Get<K(==), V>(d: seq<(K, V)>, k: K): (r: Option<V>)
    ensures r.None? <==> k !in Keys(d)
    ensures r.Some? ==> d[FirstIndex(Keys(d), k)] == (k, r.value)
  {
    if d == [] then None
    else if d[0].0 == k then Some(d[0].1)
    else
      var r := Get(d[1..], k);
      assert Keys(d[1..]) == Keys(d)[1..];
      r
  }

  /** `d[k] = v`. */
  function Put<K(==), V>(d: seq<(K, V)>, k: K, v: V): (r: seq<(K, V)>)
    ensures Keys(r) == if k in Keys(d) then Keys(d) else Keys(d) + [k]
    ensures k in Keys(r) && forall x :: x in Keys(d) ==> x in Keys(r)
    ensures forall i :: 0 <= i < |r| ==> r[i] in d || r[i] == (k, v)
  {
    if k in Keys(d) then
      var r := d[FirstIndex(Keys(d), k) := (k, v)];
      assert Keys(r) == Keys(d);
      r
    else
      var r := d + [(k, v)];
      assert Keys(r) == Keys(d) + [k];
      r
  }

  /** Assigning every entry of `e`, in order: `OrderedDict(d, **e)` and `d.update(e)`. */
  function Update<K(==), V>(d: seq<(K, V)>, e: seq<(K, V)>): (r: seq<(K, V)>)
    ensures forall i :: 0 <= i < |d| ==> d[i].0 in Keys(r)
    ensures forall i :: 0 <= i < |e| ==> e[i].0 in Keys(r)
    ensures forall i :: 0 <= i < |r| ==> r[i] in d || r[i] in e
  {
    if e == [] then d
    else
      var n := |e| - 1;
      var u := Update(d, e[..n]);
      var r := Put(u, e[n].0, e[n].1);
      assert forall i :: 0 <= i < n ==> e[..n][i] == e[i];
      assert forall x :: x in e[..n] ==> x in e;
      r
  }

  /** `OrderedDict(pairs)`. */
  function FromPairs<K(==), V>(ps: seq<(K, V)>): seq<(K, V)> {
    Update([], ps)
  }

  /** The value of the last entry of `ps` with key `k`. */
  function LastValue<K(==), V>(ps: seq<(K, V)>, k: K): V
    requires k in Keys(ps)
  {
    var n := |ps| - 1;
    if ps[n].0 == k then ps[n].1
    else
      assert Keys(ps[..n]) == Keys(ps)[..n];
      assert k in Keys(ps)[..n] by {
        var i := FirstIndex(Keys(ps), k);
        assert i < n;
      }
      LastValue(ps[..n], k)
  }

  /** The elements of `xs` at their first occurrence, in order. */
  function Dedup<K(==)>(xs: seq<K>): (r: seq<K>)
    ensures forall i :: 0 <= i < |r| ==> r[i] in xs
    ensures forall i :: 0 <= i < |xs| ==> xs[i] in r
    ensures Unique(r)
  {
    if xs == [] then []
    else
      var n := |xs| - 1;
      var p := Dedup(xs[..n]);
      assert xs == xs[..n] + [xs[n]];
      if xs[n] in p then p else p + [xs[n]]
  }

  /** Dedup keeps the elements in the order of their first occurrence. */
  lemma DedupOrder<K>(xs: seq<K>)
    ensures forall i, j :: 0 <= i < j < |Dedup(xs)| ==>
      FirstIndex(xs, Dedup(xs)[i]) < FirstIndex(xs, Dedup(xs)[j])
  {
    forall i, j | 0 <= i < j < |Dedup(xs)|
      ensures FirstIndex(xs, Dedup(xs)[i]) < FirstIndex(xs, Dedup(xs)[j])
    {
      DedupOrderPair(xs, i, j);
    }
  }

  lemma {:induction false} DedupOrderPair<K>(xs: seq<K>, i: nat, j: nat)
    requires i < j < |Dedup(xs)|
    ensures FirstIndex(xs, Dedup(xs)[i]) < FirstIndex(xs, Dedup(xs)[j])
  {
    var n := |xs| - 1;
    var p := Dedup(xs[..n]);
    var r := Dedup(xs);
    assert xs == xs[..n] + [xs[n]];
    assert i < |p| && r[i] == p[i];
    FirstIndexPrefix(xs, n, p[i]);
    if j < |p| {
      assert r[j] == p[j];
      FirstIndexPrefix(xs, n, p[j]);
      DedupOrderPair(xs[..n], i, j);
    } else {
      assert r[j] == xs[n] && xs[n] !in p;
      assert xs[n] !in xs[..n];
      forall m | 0 <= m < n
        ensures xs[m] != xs[n]
      {
        assert xs[m] == xs[..n][m];
      }
    }
  }

  lemma FirstIndexPrefix<K>(xs: seq<K>, n: nat, y: K)
    requires n <= |xs| && y in xs[..n]
    ensures FirstIndex(xs, y) == FirstIndex(xs[..n], y)
  {
    var f := FirstIndex(xs[..n], y);
    assert xs[f] == y;
    assert forall j :: 0 <= j < f ==> xs[j] == xs[..n][j];
  }

  lemma {:induction false} DedupOfUnique<K>(xs: seq<K>)
    requires Unique(xs)
    ensures Dedup(xs) == xs
  {
    if xs != [] {
      var n := |xs| - 1;
      assert Unique(xs[..n]);
      DedupOfUnique(xs[..n]);
      assert xs[n] !in xs[..n];
      assert xs == xs[..n] + [xs[n]];
    }
  }

  lemma PutGet<K, V>(d: seq<(K, V)>, k: K, v: V, j: K)
    ensures Get(Put(d, k, v), j) == if j == k then Some(v) else Get(d, j)
  {
    var r := Put(d, k, v);
    if j == k {
      var i := FirstIndex(Keys(r), k);
      if k in Keys(d) {
        assert i == FirstIndex(Keys(d), k);
      } else {
        assert r[|d|] == (k, v);
        assert i == |d|;
      }
    } else if j in Keys(d) {
      assert Keys(r)[..|d|] == Keys(d);
      FirstIndexPrefix(Keys(r), |d|, j);
    }
  }

  /** The keys of an update: the old keys, then the new ones by first occurrence. */
  lemma {:induction false} UpdateKeys<K, V>(d: seq<(K, V)>, e: seq<(K, V)>)
    requires Unique(Keys(d))
    ensures Keys(Update(d, e)) == Dedup(Keys(d) + Keys(e))
  {
    if e == [] {
      assert Keys(d) + Keys(e) == Keys(d);
      DedupOfUnique(Keys(d));
    } else {
      var n := |e| - 1;
      var front := e[..n];
      UpdateKeys(d, front);
      var y := e[n].0;
      KeysFront(e);
      assert Keys(d) + Keys(e) == (Keys(d) + Keys(front)) + [y];
      DedupSnoc(Keys(d) + Keys(front), y);
    }
  }

  lemma KeysFront<K, V>(e: seq<(K, V)>)
    requires e != []
    ensures Keys(e) == Keys(e[..|e| - 1]) + [e[|e| - 1].0]
  {
    var n := |e| - 1;
    assert e == e[..n] + [e[n]];
    KeysConcat(e[..n], [e[n]]);
  }

  lemma DedupSnoc<K>(xs: seq<K>, y: K)
    ensures Dedup(xs + [y]) == if y in Dedup(xs) then Dedup(xs) else Dedup(xs) + [y]
  {
    assert (xs + [y])[..|xs|] == xs;
  }

  /** After an update, a key holds its last value in `e`, or its old value if `e` lacks it. */
  lemma {:induction false} UpdateGet<K, V>(d: seq<(K, V)>, e: seq<(K, V)>, k: K)
    ensures Get(Update(d, e), k) == if k in Keys(e) then Some(LastValue(e, k)) else Get(d, k)
  {
    if e != [] {
      var n := |e| - 1;
      var front := e[..n];
      var u := Update(d, front);
      assert Update(d, e) == Put(u, e[n].0, e[n].1);
      PutGet(u, e[n].0, e[n].1, k);
      if e[n].0 == k {
        assert Keys(e)[n] == k;
      } else {
        UpdateGet(d, front, k);
        LastValueBefore(e, k);
      }
    }
  }

  /** A key other than the last entry's is found, with the same last value, in the entries before it. */
  lemma LastValueBefore<K, V>(e: seq<(K, V)>, k: K)
    requires e != [] && e[|e| - 1].0 != k
    ensures k in Keys(e) <==> k in Keys(e[..|e| - 1])
    ensures k in Keys(e) ==> LastValue(e, k) == LastValue(e[..|e| - 1], k)
  {
    KeysFront(e);
  }

  lemma UpdateUnique<K, V>(d: seq<(K, V)>, e: seq<(K, V)>)
    requires Unique(Keys(d))
    ensures Unique(Keys(Update(d, e)))
  {
    UpdateKeys(d, e);
  }

  /**
   * `OrderedDict(pairs)`: the keys are unique, listed by first occurrence,
   * and each holds the value of its last occurrence.
   */
  lemma FromPairsSpec<K, V>(ps: seq<(K, V)>)
    ensures Unique(Keys(FromPairs(ps)))
    ensures Keys(FromPairs(ps)) == Dedup(Keys(ps))
    ensures forall k :: k in Keys(ps) ==> Get(FromPairs(ps), k) == Some(LastValue(ps, k))
    ensures forall k :: k !in Keys(ps) ==> Get(FromPairs(ps), k).None?
  {
    var empty: seq<(K, V)> := [];
    assert Keys(empty) + Keys(ps) == Keys(ps);
    UpdateKeys(empty, ps);
    UpdateUnique(empty, ps);
    forall k
      ensures Get(FromPairs(ps), k) == if k in Keys(ps) then Some(LastValue(ps, k)) else None
    {
      UpdateGet(empty, ps, k);
    }
  }

  /** With unique keys, every entry is what `Get` finds under its key. */
  lemma GetEntry<K, V>(d: seq<(K, V)>, i: nat)
    requires Unique(Keys(d)) && i < |d|
    ensures Get(d, d[i].0) == Some(d[i].1)
  {
    assert FirstIndex(Keys(d), d[i].0) == i;
  }

  /** With unique keys, the last entry of a key is its only one, which `Get` finds. */
  lemma {:induction false} LastValueUnique<K, V>(d: seq<(K, V)>, k: K)
    requires Unique(Keys(d)) && k in Keys(d)
    ensures Get(d, k) == Some(LastValue(d, k))
    decreases |d|, 1
  {
    var n := |d| - 1;
    if d[n].0 == k {
      GetEntry(d, n);
    } else {
      assert Keys(d[..n]) == Keys(d)[..n];
      LastValueFront(d, k);
    }
  }

  lemma {:induction false} LastValueFront<K, V>(d: seq<(K, V)>, k: K)
    requires Unique(Keys(d)) && k in Keys(d) && d[|d| - 1].0 != k
    ensures k in Keys(d[..|d| - 1]) && LastValue(d, k) == LastValue(d[..|d| - 1], k)
    ensures Get(d, k) == Some(LastValue(d, k))
    decreases |d|, 0
  {
    var n := |d| - 1;
    var front := d[..n];
    var i := FirstIndex(Keys(d), k);
    assert i < n && front[i] == d[i];
    assert Keys(front)[i] == k;
    assert Unique(Keys(front)) by {
      assert forall j :: 0 <= j < n ==> Keys(front)[j] == Keys(d)[j];
    }
    LastValueUnique(front, k);
    GetEntry(front, i);
    GetEntry(d, i);
  }

  /** Assigning a key of a dict with unique keys keeps them unique and makes `v` its last value. */
  lemma PutLast<K, V>(d: seq<(K, V)>, k: K, v: V)
    requires Unique(Keys(d))
    ensures Unique(Keys(Put(d, k, v)))
    ensures LastValue(Put(d, k, v), k) == v
  {
    PutGet(d, k, v, k);
    LastValueUnique(Put(d, k, v), k);
  }
}
