/** The JIT's property primitives: probes that never run user code, and two guarded
    stores, one of which trusts a (shape id, slot) pair instead of looking the name up. */
module JitProperty {
  import opened Wrappers
  import opened Values
  import opened Ordinary
  import opened Shapes
  import opened Objects

  function OwnDataProperty(o: ObjectValue, key: string): (r: Option<Value>)
    requires o.Valid()
    reads o
    ensures r == (var s := GetOwn(o.Abs(), key); if s.Some? && s.value.Accessor? then None else s)
  {
    if key in o.deleted then None
    else if key !in o.shape.index then None
    else if o.slots[o.shape.index[key]].Accessor? then None
    else Some(o.slots[o.shape.index[key]])
  }

  datatype Probe = NoNumber | NumberAt(number: Float, shapeId: nat, slot: nat)

  /** The probe whose result the guarded stores are given. */
  function NumericOwnProperty(o: ObjectValue, key: string): (r: Probe)
    requires o.Valid()
    reads o
    ensures r.NumberAt? <==> key in o.Abs().own && o.Abs().own[key].value.Number?
    ensures r.NumberAt? ==> o.Abs().own[key].value == Number(r.number) && ProbedAt(o.shape, key, r.shapeId, r.slot)
  {
    if key in o.deleted || key !in o.shape.index then NoNumber
    else
      var idx := o.shape.index[key];
      if !o.slots[idx].Number? then NoNumber
      else NumberAt(o.slots[idx].f, o.shape.id, idx)
  }

  /** (shapeId, slot) is what a probe for `key` gives on an object of shape `s`. */
  ghost predicate ProbedAt(s: Shape, key: string, shapeId: nat, slot: nat) {
    s.id == shapeId && key in s.index && s.index[key] == slot && slot < |s.names|
  }

  /** The condition of both stores in terms of the object alone. */
  ghost predicate HoldsNumberAt(o: ObjectValue, key: string, shapeId: nat, slot: nat)
    requires o.Valid()
    reads o
  {
    && o.shape.id == shapeId && key in o.Abs().own && o.shape.index[key] == slot
    && o.Abs().own[key].value.Number?
  }

  method GuardedSetNumericOwnProperty(o: ObjectValue, key: string, shapeId: nat, slot: int, number: Float)
    returns (ok: bool)
    requires o.Valid()
    modifies o`slots, o`deleted
    ensures o.Valid() && o.shape == old(o.shape)
    ensures ok <==> slot >= 0 && old(HoldsNumberAt(o, key, shapeId, slot))
    ensures o.Abs() == if ok then Store(old(o.Abs()), key, Number(number)) else old(o.Abs())
  {
    if o.shape.id != shapeId || slot < 0 || slot >= |o.slots| || key in o.deleted {
      return false;
    }
    if key !in o.shape.index || o.shape.index[key] != slot {
      return false;
    }
    if !o.slots[slot].Number? {
      return false;
    }
    o.Overwrite(key, Number(number));
    return true;
  }

  /** The store that repeats no lookup. Given a pair some probe for the key once produced,
      on any object of the tree, it behaves as the store above in every case. */
  method GuardedSetNumericOwnPropertySlot(tree: ShapeTree, o: ObjectValue, key: string, shapeId: nat, slot: int,
                                          number: Float, ghost probed: Shape)
    returns (ok: bool)
    requires o.LivesIn(tree) && probed in tree.all && slot >= 0 && ProbedAt(probed, key, shapeId, slot)
    modifies o`slots
    ensures o.Valid() && o.shape == old(o.shape)
    ensures ok <==> old(HoldsNumberAt(o, key, shapeId, slot))
    ensures o.Abs() == if ok then Store(old(o.Abs()), key, Number(number)) else old(o.Abs())
  {
    if o.shape.id != shapeId || slot < 0 || slot >= |o.slots| || key in o.deleted {
      return false;
    }
    SameShape(tree, o.shape, probed);
    if !o.slots[slot].Number? {
      return false;
    }
    StoreNumber(o, key, slot, number);
    return true;
  }

  /** The bound on the slot rules out the empty root layout, whose id 1 is also the id of
      the first derived shape; any other id has one layout. */
  lemma SameShape(tree: ShapeTree, s: Shape, t: Shape)
    requires tree.Valid() && s in tree.all && t in tree.all && s.id == t.id && s.names != [] && t.names != []
    ensures s == t
  {
  }

  /** The two do share the id: the first transition of a new tree gives it out again. */
  method RootIdIsGivenTwice(name: string) returns (tree: ShapeTree, first: Shape)
    ensures tree.Valid() && first in tree.all && first != tree.root && first.names == [name]
    ensures first.id == tree.root.id == 1
  {
    tree := new ShapeTree();
    assert tree.root.WellFormed();
    first := tree.Transition(tree.root, name);
  }

  method StoreNumber(o: ObjectValue, key: string, slot: nat, number: Float)
    requires o.Valid() && key in o.Abs().own && o.shape.index[key] == slot
    modifies o`slots
    ensures o.Valid() && o.Abs() == Store(old(o.Abs()), key, Number(number))
  {
    ShapeIndexes(o.shape);
    OverwriteSlot(o.shape.index, o.slots, o.deleted, o.attrs, key, Number(number));
    assert o.deleted - {key} == o.deleted;
    o.slots := o.slots[slot := Number(number)];
  }

  /** The stores ignore writability, so they agree with an assignment exactly when the
      property is writable or already holds the number. */
  lemma StoreIsSetExactly(v: View, key: string, number: Float)
    requires v.Valid() && key in v.own
    ensures Store(v, key, Number(number)) == SetOwn(v, key, Number(number)) <==>
      v.own[key].attrs.writable || v.own[key].value == Number(number)
  {
    assert Store(v, key, Number(number)).own[key].value == Number(number);
    if v.own[key].value == Number(number) {
      assert v.own[key := v.own[key]] == v.own;
    }
  }
}
