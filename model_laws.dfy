/**
 * Laws of the bound instance: the lookup table `_fields` and the separation
 * between instances of one class.
 */
module ModelLaws {
  import opened Wrappers
  import OD = OrderedDict
  import opened Micromodels

  /** A name of `_fields` maps to the added field when one was added under it, and to the class field otherwise. */
  lemma FieldsLookup(m: Model, key: string)
    ensures OD.Get(m.Fields(), key) == if key in OD.Keys(m.extra) then OD.Get(m.extra, key) else OD.Get(m.clsfields, key)
  {
    OD.UpdateGet(m.clsfields, m.extra, key);
    if key in OD.Keys(m.extra) {
      OD.LastValueUnique(m.extra, key);
    }
  }

  /** The names of `_fields`: the class fields in schema order, then the added names that are new, each once. */
  lemma FieldNames(m: Model)
    ensures OD.Keys(m.Fields()) == OD.Dedup(OD.Keys(m.clsfields) + OD.Keys(m.extra))
    ensures OD.Unique(OD.Keys(m.Fields()))
  {
    OD.UpdateKeys(m.clsfields, m.extra);
  }

  /**
   * Two instances of one class hold distinct copies of the class's field
   * objects. On a class of scalar fields, assigning any attribute of one
   * instance through `__setattr__` leaves the other instance and the
   * class's own field objects as they were.
   */
  method Isolation(c: ModelClass, key: string, value: Value, depth: nat) returns (a: Model, b: Model, r: Result<()>)
    modifies (iset m: Model | InHeap(m))`attrs, (iset f: Field | InHeap(f))`data, (iset f: Field | InHeap(f))`relatedObj
    ensures fresh(a) && fresh(b) && a != b && a.cls == c && b.cls == c
    ensures forall i, j :: 0 <= i < |a.clsfields| && 0 <= j < |b.clsfields| ==> a.clsfields[i].1 != b.clsfields[j].1
    ensures forall i, j :: 0 <= i < |a.clsfields| && 0 <= j < |c.fields| ==> a.clsfields[i].1 != c.fields[j].1
    ensures ScalarFields(c.fields) ==>
      b.attrs == map[] && |b.clsfields| == |c.fields|
      && (forall i :: 0 <= i < |b.clsfields| ==> b.clsfields[i].1.CopyOf(c.fields[i].1))
      && forall i :: 0 <= i < |c.fields| ==>
        c.fields[i].1.data == old(c.fields[i].1.data) && c.fields[i].1.relatedObj == old(c.fields[i].1.relatedObj)
  {
    a, b := Instances(c);
    ghost var target := OD.Get(a.Fields(), key);
    if a.ScalarOnly() {
      Owned(a, key);
    }
    r := a.SetAttr(key, value, depth);
  }

  /** Two fresh instances of `c`, each with its own copies of the class's field objects. */
  method Instances(c: ModelClass) returns (a: Model, b: Model)
    ensures fresh(a) && fresh(b) && a != b && a.cls == c && b.cls == c && a.extra == [] && b.attrs == map[]
    ensures forall i, j :: 0 <= i < |a.clsfields| && 0 <= j < |b.clsfields| ==> a.clsfields[i].1 != b.clsfields[j].1
    ensures forall i, j :: 0 <= i < |a.clsfields| && 0 <= j < |c.fields| ==> a.clsfields[i].1 != c.fields[j].1
    ensures |b.clsfields| == |c.fields| && forall i :: 0 <= i < |b.clsfields| ==> b.clsfields[i].1.CopyOf(c.fields[i].1)
    ensures ScalarFields(c.fields) ==> a.ScalarOnly()
  {
    a := new Model(c);
    b := new Model(c);
    assert forall i :: 0 <= i < |a.clsfields| ==>
      (Scalar(a.clsfields[i].1.kind) == Scalar(c.fields[i].1.kind) && Inert(a.clsfields[i].1.default) == Inert(c.fields[i].1.default));
  }

  /** On an instance of scalar fields, the field `_fields` holds under `key`, if any, is one of the instance's class fields. */
  lemma Owned(a: Model, key: string)
    requires a.ScalarOnly() && a.extra == []
    ensures OD.Get(a.Fields(), key).Some? ==>
      Scalar(OD.Get(a.Fields(), key).value.kind) && exists i :: 0 <= i < |a.clsfields| && a.clsfields[i].1 == OD.Get(a.Fields(), key).value
  {
    ScalarLookup(a, key);
    if OD.Get(a.Fields(), key).Some? {
      var fs := a.Fields();
      var k := OD.FirstIndex(OD.Keys(fs), key);
      assert fs[k] in a.clsfields;
    }
  }
}
