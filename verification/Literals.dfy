/** Object literals: the three ways of building one give the same object. */
module Literals {
  import opened Wrappers
  import opened Values
  import opened Ordinary
  import opened Shapes
  import opened Objects

  datatype Pair = Pair(key: string, value: Value)

  /** The reference: assigning the pairs one after the other to an empty object. */
  function Assigned(pairs: seq<Pair>): View
    decreases |pairs|
  {
    if pairs == [] then EMPTY_VIEW
    else
      var last := pairs[|pairs| - 1];
      SetOwn(Assigned(pairs[..|pairs| - 1]), last.key, last.value)
  }

  ghost predicate Storable(pairs: seq<Pair>) {
    forall p :: p in pairs ==> !p.value.Accessor?
  }

  /** What the reference builds: each key once, at its first occurrence, with the value of
      its last one, fully writable, enumerable and configurable. */
  lemma {:induction false} AssignedMeaning(pairs: seq<Pair>)
    ensures var v := Assigned(pairs);
      && v.extensible && Distinct(v.names)
      && (forall k :: k in v.own <==> k in v.names)
      && (forall k :: k in v.names <==> exists i :: 0 <= i < |pairs| && pairs[i].key == k)
      && (forall k, i :: LastAt(pairs, k, i) ==> k in v.own && v.own[k] == Slot(pairs[i].value, DEFAULT_ATTRS))
      && (forall i, j, p, q :: 0 <= i < j < |v.names| && FirstAt(pairs, v.names[i], p) && FirstAt(pairs, v.names[j], q)
            ==> p < q)
    decreases |pairs|
  {
    if pairs != [] {
      var n := |pairs| - 1;
      var before := pairs[..n];
      AssignedMeaning(before);
      var u, v := Assigned(before), Assigned(pairs);
      forall k ensures k in v.names <==> exists i :: 0 <= i < |pairs| && pairs[i].key == k {
        if k in u.names {
          var i :| 0 <= i < |before| && before[i].key == k;
          assert pairs[i].key == k;
        }
        if i :| 0 <= i < |pairs| && pairs[i].key == k && k != pairs[n].key {
          assert before[i].key == k;
        }
        assert pairs[n].key in v.names;
      }
      forall k, i | LastAt(pairs, k, i) ensures k in v.own && v.own[k] == Slot(pairs[i].value, DEFAULT_ATTRS) {
        if i < n {
          assert pairs[n].key != k;
          assert LastAt(before, k, i);
        }
        assert forall k' :: k' in u.own ==> u.own[k'].attrs == DEFAULT_ATTRS by { AllDefault(before); }
      }
      forall i, j, p, q | 0 <= i < j < |v.names| && FirstAt(pairs, v.names[i], p) && FirstAt(pairs, v.names[j], q)
        ensures p < q
      {
        FirstAtPrefix(pairs, v.names[i], p);
        FirstAtPrefix(pairs, v.names[j], q);
        if j < |u.names| {
          assert v.names[i] == u.names[i] && v.names[j] == u.names[j];
          assert u.names[i] in u.names && u.names[j] in u.names;
        } else {
          assert v.names[i] == u.names[i] && u.names[i] in u.names;
        }
      }
    }
  }

  ghost predicate LastAt(pairs: seq<Pair>, k: string, i: int) {
    0 <= i < |pairs| && pairs[i].key == k && forall j :: i < j < |pairs| ==> pairs[j].key != k
  }

  ghost predicate FirstAt(pairs: seq<Pair>, k: string, i: int) {
    0 <= i < |pairs| && pairs[i].key == k && forall j :: 0 <= j < i ==> pairs[j].key != k
  }

  /** A key seen before the last pair has its first occurrence there. */
  lemma FirstAtPrefix(pairs: seq<Pair>, k: string, i: int)
    requires FirstAt(pairs, k, i)
    ensures var before := pairs[..|pairs| - 1];
      if (exists j :: 0 <= j < |before| && before[j].key == k) then FirstAt(before, k, i) else i == |pairs| - 1
  {
    var before := pairs[..|pairs| - 1];
    if j :| 0 <= j < |before| && before[j].key == k {
      assert pairs[j].key == k;
    } else if i < |before| {
      assert before[i].key == k;
    }
  }

  lemma AllDefault(pairs: seq<Pair>)
    ensures forall k :: k in Assigned(pairs).own ==> Assigned(pairs).own[k].attrs == DEFAULT_ATTRS
    decreases |pairs|
  {
    if pairs != [] { AllDefault(pairs[..|pairs| - 1]); }
  }

  lemma SameKeysSameNames(ps: seq<Pair>, qs: seq<Pair>)
    requires |ps| == |qs| && forall i :: 0 <= i < |ps| ==> ps[i].key == qs[i].key
    ensures Assigned(ps).names == Assigned(qs).names && Assigned(ps).own.Keys == Assigned(qs).own.Keys
    decreases |ps|
  {
    if ps != [] {
      SameKeysSameNames(ps[..|ps| - 1], qs[..|qs| - 1]);
      AllDefault(ps[..|ps| - 1]);
      AllDefault(qs[..|qs| - 1]);
      AssignedMeaning(ps[..|ps| - 1]);
      AssignedMeaning(qs[..|qs| - 1]);
    }
  }

  // ----- the builders -------------------------------------------------------------

  ghost predicate IndexOfKey(shape: Shape, key: string, idx: nat) {
    key in shape.index && shape.index[key] == idx
  }

  /** Each pair has the slot of its key. */
  ghost predicate Resolved(shape: Shape, pairs: seq<Pair>, idxs: seq<nat>) {
    |idxs| == |pairs| && forall j :: 0 <= j < |pairs| ==> IndexOfKey(shape, pairs[j].key, idxs[j])
  }

  lemma ResolvedOneMore(s: Shape, t: Shape, pairs: seq<Pair>, i: nat, idxs: seq<nat>, idx: nat)
    requires i < |pairs| && Resolved(s, pairs[..i], idxs) && IndexOfKey(t, pairs[i].key, idx)
    requires s.WellFormed() && t.WellFormed() && s.names <= t.names
    ensures Resolved(t, pairs[..i + 1], idxs + [idx])
  {
    forall j | 0 <= j < i ensures IndexOfKey(t, pairs[j].key, idxs[j]) {
      assert pairs[..i][j] == pairs[j];
      PositionsKept(s, t, pairs[j].key, idxs[j]);
    }
  }

  /** A longer layout keeps every position of the one it was derived from. */
  lemma PositionsKept(s: Shape, t: Shape, key: string, idx: nat)
    requires s.WellFormed() && t.WellFormed() && s.names <= t.names && IndexOfKey(s, key, idx)
    ensures IndexOfKey(t, key, idx)
  {
    assert t.names[idx] == s.names[idx] == key;
  }

  /** One step of the reference on the names alone. */
  lemma NextName(pairs: seq<Pair>, i: nat)
    requires i < |pairs|
    ensures var before, after, key := Assigned(pairs[..i]), Assigned(pairs[..i + 1]), pairs[i].key;
      after.names == if key in before.names then before.names else before.names + [key]
  {
    assert pairs[..i + 1][..i] == pairs[..i];
    AssignedMeaning(pairs[..i]);
    AllDefault(pairs[..i]);
  }

  /** One pair of a literal: the layout with its key, and the key's slot. */
  method WalkPair(tree: ShapeTree, pairs: seq<Pair>, i: nat, s: Shape, idxs: seq<nat>)
    returns (shape: Shape, idxs': seq<nat>)
    requires tree.Valid() && s in tree.all && s.WellFormed()
    requires i < |pairs| && s.names == Assigned(pairs[..i]).names && Resolved(s, pairs[..i], idxs)
    modifies tree, tree.all`next
    ensures tree.Valid() && tree.Grown() && shape in tree.all && shape.WellFormed()
    ensures shape.names == Assigned(pairs[..i + 1]).names && Resolved(shape, pairs[..i + 1], idxs')
  {
    NextName(pairs, i);
    ShapeIndexes(s);
    var key := pairs[i].key;
    if key in s.index {
      ResolvedOneMore(s, s, pairs, i, idxs, s.index[key]);
      return s, idxs + [s.index[key]];
    }
    shape := tree.Transition(s, key);
    ResolvedOneMore(s, shape, pairs, i, idxs, |s.names|);
    return shape, idxs + [|s.names|];
  }

  /** Resolves the layout of a literal and the slot of each pair. */
  method ResolveLiteralShape(tree: ShapeTree, pairs: seq<Pair>) returns (shape: Shape, idxs: seq<nat>)
    requires tree.Valid()
    modifies tree, tree.all`next
    ensures tree.Valid() && tree.Grown() && shape in tree.all && shape.names == Assigned(pairs).names
    ensures Resolved(shape, pairs, idxs)
  {
    shape, idxs := tree.root, [];
    assert shape.WellFormed() && pairs[..0] == [];
    for i := 0 to |pairs|
      invariant tree.Valid() && tree.Grown() && shape in tree.all && shape.WellFormed()
      invariant shape.names == Assigned(pairs[..i]).names && Resolved(shape, pairs[..i], idxs)
    {
      shape, idxs := WalkPair(tree, pairs, i, shape, idxs);
    }
    assert pairs[..|pairs|] == pairs;
  }

  /** Slots filled so far hold the values the reference has so far. */
  ghost predicate FilledLike(shape: Shape, slots: seq<Value>, v: View) {
    && |slots| == |shape.names|
    && forall k :: k in v.own ==>
         k in shape.index && shape.index[k] < |slots| && slots[shape.index[k]] == v.own[k].value
  }

  lemma FillOne(shape: Shape, slots: seq<Value>, pairs: seq<Pair>, i: nat)
    requires shape.WellFormed() && i < |pairs| && FilledLike(shape, slots, Assigned(pairs[..i]))
    requires pairs[i].key in shape.index
    ensures FilledLike(shape, slots[shape.index[pairs[i].key] := pairs[i].value], Assigned(pairs[..i + 1]))
  {
    assert pairs[..i + 1][..i] == pairs[..i];
    AssignedMeaning(pairs[..i]);
    AllDefault(pairs[..i]);
    ShapeIndexes(shape);
  }

  /** A filled object of the right layout is the reference object. */
  lemma FilledIsAssigned(o: ObjectValue, pairs: seq<Pair>)
    requires o.Valid() && o.deleted == {} && o.attrs == map[] && !o.nonExtensible
    requires o.shape.names == Assigned(pairs).names && FilledLike(o.shape, o.slots, Assigned(pairs))
    ensures o.Abs() == Assigned(pairs)
  {
    var v := Assigned(pairs);
    AssignedMeaning(pairs);
    AllDefault(pairs);
    ShapeIndexes(o.shape);
    assert o.Abs().own.Keys == v.own.Keys;
    forall k | k in v.own ensures o.Abs().own[k] == v.own[k] {}
    assert o.Abs().own == v.own;
  }

  /** The fill loop of the builder that takes pairs: one lookup per pair. */
  method FillByKey(o: ObjectValue, pairs: seq<Pair>)
    requires o.Valid() && Storable(pairs) && o.shape.names == Assigned(pairs).names
    modifies o`slots
    ensures o.Valid() && FilledLike(o.shape, o.slots, Assigned(pairs))
  {
    AssignedMeaning(pairs);
    ShapeIndexes(o.shape);
    for i := 0 to |pairs|
      invariant o.Valid() && FilledLike(o.shape, o.slots, Assigned(pairs[..i]))
    {
      var p := pairs[i];
      assert p in pairs && p.key in o.shape.names;
      FillOne(o.shape, o.slots, pairs, i);
      o.slots := o.slots[o.shape.index[p.key] := p.value];
    }
    assert pairs[..|pairs|] == pairs;
  }

  /** The fill loop of the builder that takes a resolved layout: no lookup at all. */
  method FillByIndex(o: ObjectValue, idxs: seq<nat>, pairs: seq<Pair>)
    requires o.Valid() && Storable(pairs) && |idxs| == |pairs|
    requires forall j :: 0 <= j < |idxs| ==> IndexOfKey(o.shape, pairs[j].key, idxs[j])
    modifies o`slots
    ensures o.Valid() && FilledLike(o.shape, o.slots, Assigned(pairs))
  {
    ShapeIndexes(o.shape);
    for j := 0 to |idxs|
      invariant o.Valid() && FilledLike(o.shape, o.slots, Assigned(pairs[..j]))
    {
      assert IndexOfKey(o.shape, pairs[j].key, idxs[j]) && pairs[j] in pairs;
      FillOne(o.shape, o.slots, pairs, j);
      if idxs[j] < |o.shape.names| {
        o.slots := o.slots[idxs[j] := pairs[j].value];
      }
    }
    assert pairs[..|pairs|] == pairs;
  }

  method NewObjectFromPairs(tree: ShapeTree, pairs: seq<Pair>) returns (o: ObjectValue)
    requires tree.Valid() && Storable(pairs)
    modifies tree, tree.all`next
    ensures fresh(o) && o.LivesIn(tree) && tree.Grown() && o.Abs() == Assigned(pairs) && o.proto == NoProto
  {
    var shape, _ := ResolveLiteralShape(tree, pairs);
    o := new ObjectValue.Blank(tree, shape, NoProto);
    FillByKey(o, pairs);
    FilledIsAssigned(o, pairs);
  }

  /** A literal site that has cached the layout resolved from `resolved` builds, for any
      pairs with the same keys, the object those pairs mean. */
  method NewObjectFromShape(tree: ShapeTree, shape: Shape, idxs: seq<nat>, pairs: seq<Pair>, proto: Link,
                            ghost resolved: seq<Pair>)
    returns (o: ObjectValue)
    requires tree.Valid() && shape in tree.all && Storable(pairs)
    requires shape.names == Assigned(resolved).names && Resolved(shape, resolved, idxs)
    requires |resolved| == |pairs| && forall j :: 0 <= j < |pairs| ==> resolved[j].key == pairs[j].key
    ensures fresh(o) && o.LivesIn(tree) && o.Abs() == Assigned(pairs) && o.proto == proto && o.shape == shape
  {
    SameKeysSameNames(resolved, pairs);
    o := new ObjectValue.Blank(tree, shape, proto);
    FillByIndex(o, idxs, pairs);
    FilledIsAssigned(o, pairs);
  }

  /** The slow way: one assignment per pair. */
  method NewObjectBySetting(tree: ShapeTree, pairs: seq<Pair>) returns (o: ObjectValue)
    requires tree.Valid() && Storable(pairs)
    modifies tree, tree.all`next
    ensures fresh(o) && o.LivesIn(tree) && tree.Grown() && o.Abs() == Assigned(pairs)
  {
    o := new ObjectValue(tree);
    assert pairs[..0] == [];
    for i := 0 to |pairs|
      invariant fresh(o) && o.LivesIn(tree) && tree.Grown() && o.Abs() == Assigned(pairs[..i])
    {
      assert pairs[..i + 1][..i] == pairs[..i] && pairs[i] in pairs;
      o.Set(tree, pairs[i].key, pairs[i].value);
    }
    assert pairs[..|pairs|] == pairs;
  }

  /** Up to the depth limit, two objects with the same key order share one shape, however
      they were built; the shape cached by a literal site is then everyone's shape. */
  lemma SameKeysSameShape(tree: ShapeTree, a: ObjectValue, b: ObjectValue)
    requires a.LivesIn(tree) && b.LivesIn(tree) && a.Abs().names == b.Abs().names
    requires |a.Abs().names| <= MAX_SHAPE_PROPS
    ensures a.shape == b.shape
  {
  }
}
