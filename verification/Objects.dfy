/** Plain objects on the heap: a shared shape, one slot per name, and per-object overlays
    for deleted names and non-default attributes. Every method is proved against the
    operation of the same meaning on the object's view. */
module Objects {
  import opened Wrappers
  import opened Values
  import opened Ordinary
  import opened Shapes
  import Descriptors
  import Histories

  function AttrIn(attrs: map<string, PropAttrs>, key: string): PropAttrs {
    if key in attrs then attrs[key] else DEFAULT_ATTRS
  }

  /** The live properties that slots, layout and overlays describe. */
  function OwnOf(index: map<string, nat>, slots: seq<Value>, deleted: set<string>,
                 attrs: map<string, PropAttrs>): map<string, Slot>
  {
    map k | k in index && k !in deleted && index[k] < |slots| :: Slot(slots[index[k]], AttrIn(attrs, k))
  }

  ghost predicate Indexes(index: map<string, nat>, n: nat) {
    && (forall k :: k in index ==> index[k] < n)
    && (forall j, k :: j in index && k in index && index[j] == index[k] ==> j == k)
  }

  lemma OverwriteSlot(index: map<string, nat>, slots: seq<Value>, deleted: set<string>,
                      attrs: map<string, PropAttrs>, key: string, value: Value)
    requires Indexes(index, |slots|) && key in index
    ensures OwnOf(index, slots[index[key] := value], deleted - {key}, attrs) ==
            OwnOf(index, slots, deleted, attrs)[key := Slot(value, AttrIn(attrs, key))]
  {
  }

  lemma AddSlot(index: map<string, nat>, slots: seq<Value>, deleted: set<string>,
                attrs: map<string, PropAttrs>, key: string, value: Value)
    requires Indexes(index, |slots|) && key !in index && key !in deleted
    ensures OwnOf(index[key := |slots|], slots + [value], deleted, attrs) ==
            OwnOf(index, slots, deleted, attrs)[key := Slot(value, AttrIn(attrs, key))]
  {
  }

  lemma ChangeAttr(index: map<string, nat>, slots: seq<Value>, deleted: set<string>,
                   attrs: map<string, PropAttrs>, key: string, attrs': map<string, PropAttrs>)
    requires Indexes(index, |slots|) && key in index && key !in deleted
    requires forall k :: k != key ==> AttrIn(attrs, k) == AttrIn(attrs', k)
    ensures OwnOf(index, slots, deleted, attrs') ==
            OwnOf(index, slots, deleted, attrs)[key := Slot(slots[index[key]], AttrIn(attrs', key))]
  {
  }

  lemma DropSlot(index: map<string, nat>, slots: seq<Value>, deleted: set<string>,
                 attrs: map<string, PropAttrs>, key: string)
    ensures OwnOf(index, slots, deleted + {key}, attrs - {key}) == OwnOf(index, slots, deleted, attrs) - {key}
  {
  }

  lemma PutTwice(v: View, key: string, s: Slot, t: Slot)
    ensures Put(Put(v, key, s), key, t) == Put(v, key, t)
  {
    assert v.own[key := s][key := t] == v.own[key := t];
  }

  lemma KeysDecide(v: View, keys: seq<string>, frozen: bool)
    requires keys == OwnKeys(v) && forall k :: k in v.own ==> k in v.names
    ensures forall j :: 0 <= j < |keys| ==> keys[j] in v.own
    ensures TestIntegrity(v, frozen) <==>
      !v.extensible && forall j :: 0 <= j < |keys| ==> Histories.Restricted(v, keys[j], frozen)
  {
    Descriptors.LiveNamesSound(v.names, v.own);
    assert forall j :: 0 <= j < |keys| ==> keys[j] in keys;
    if forall j :: 0 <= j < |keys| ==> Histories.Restricted(v, keys[j], frozen) {
      forall k | k in v.own ensures Histories.Restricted(v, k, frozen) {
        assert k in keys;
      }
    }
  }

  datatype Link = NoProto | Plain(o: ObjectValue) | Exotic(id: nat)

  class ObjectValue {
    var shape: Shape
    var slots: seq<Value>
    var proto: Link
    var deleted: set<string>
    var attrs: map<string, PropAttrs>
    var nonExtensible: bool

    ghost predicate Valid()
      reads this
    {
      && shape.WellFormed() && |slots| == |shape.names|
      && (forall v :: v in slots ==> SlotOk(v))
      && deleted <= shape.index.Keys
      && attrs.Keys <= shape.index.Keys - deleted
      && (forall k :: k in attrs ==> attrs[k] != DEFAULT_ATTRS)
    }

    /** The object is consistent and its shape belongs to the tree. */
    ghost predicate LivesIn(tree: ShapeTree)
      reads this, tree, tree.all
    {
      Valid() && tree.Valid() && shape in tree.all
    }

    /** The abstract value of the object. */
    ghost function Abs(): View
      requires Valid()
      reads this
    {
      View(shape.names, OwnOf(shape.index, slots, deleted, attrs), !nonExtensible)
    }

    lemma AbsValid()
      requires Valid()
      ensures Abs().Valid()
    {
      forall k | k in Abs().own ensures k in Abs().names {
        assert shape.names[shape.index[k]] == k;
      }
    }

    constructor (tree: ShapeTree)
      requires tree.Valid()
      ensures LivesIn(tree) && Abs() == EMPTY_VIEW && shape == tree.root && proto == NoProto
    {
      shape := tree.root;
      slots := [];
      proto := NoProto;
      deleted := {};
      attrs := map[];
      nonExtensible := false;
    }

    /** A laid-out object whose slots are still to be filled. */
    constructor Blank(tree: ShapeTree, shape: Shape, proto: Link)
      requires tree.Valid() && shape in tree.all
      ensures LivesIn(tree) && this.shape == shape && this.proto == proto
      ensures deleted == {} && attrs == map[] && !nonExtensible
    {
      this.shape := shape;
      this.slots := seq(|shape.names|, i => Undefined);
      this.proto := proto;
      deleted := {};
      attrs := map[];
      nonExtensible := false;
      new;
      assert shape.WellFormed();
    }

    function GetSlot(key: string): (r: Option<Value>)
      requires Valid()
      reads this
      ensures r == GetOwn(Abs(), key)
    {
      if key in deleted then None
      else if key !in shape.index then None
      else Some(slots[shape.index[key]])
    }

    /** Entries exist only for attributes that differ from the default. */
    method SetAttr(key: string, a: PropAttrs)
      requires Valid() && key in Abs().own
      modifies this`attrs
      ensures Valid() && Abs() == Put(old(Abs()), key, old(Abs()).own[key].(attrs := a))
    {
      ShapeIndexes(shape);
      var after := if a == DEFAULT_ATTRS then attrs - {key} else attrs[key := a];
      ChangeAttr(shape.index, slots, deleted, attrs, key, after);
      assert AttrIn(after, key) == a;
      assert after.Keys <= attrs.Keys + {key} && forall k :: k in after ==> after[k] != DEFAULT_ATTRS;
      attrs := after;
    }

    /** Writes an own property; a deleted name gets its slot back, a new one transitions. */
    method SetSlot(tree: ShapeTree, key: string, value: Value)
      requires LivesIn(tree) && SlotOk(value)
      modifies this`shape, this`slots, this`deleted, tree, tree.all`next
      ensures LivesIn(tree) && tree.Grown() && Abs() == Store(old(Abs()), key, value)
    {
      if key in shape.index {
        Overwrite(key, value);
      } else {
        AddProperty(tree, key, value);
      }
    }

    method Overwrite(key: string, value: Value)
      requires Valid() && SlotOk(value) && key in shape.index
      modifies this`slots, this`deleted
      ensures Valid() && Abs() == Store(old(Abs()), key, value)
    {
      ShapeIndexes(shape);
      OverwriteSlot(shape.index, slots, deleted, attrs, key, value);
      if key in deleted {
        deleted := deleted - {key};
        slots := slots[shape.index[key] := value];
      } else {
        assert deleted - {key} == deleted;
        slots := slots[shape.index[key] := value];
      }
      assert key in shape.names;
    }

    method AddProperty(tree: ShapeTree, key: string, value: Value)
      requires LivesIn(tree) && SlotOk(value) && key !in shape.index
      modifies this`shape, this`slots, tree, tree.all`next
      ensures LivesIn(tree) && tree.Grown() && Abs() == Store(old(Abs()), key, value)
    {
      var longer := tree.Transition(shape, key);
      Extend(longer, key, value);
    }

    /** Moves to a layout with one more name and appends its slot. */
    method Extend(longer: Shape, key: string, value: Value)
      requires Valid() && SlotOk(value) && key !in shape.index && longer.WellFormed()
      requires longer.names == shape.names + [key] && longer.index == shape.index[key := |shape.names|]
      modifies this`shape, this`slots
      ensures Valid() && Abs() == Store(old(Abs()), key, value) && shape == longer
    {
      ShapeIndexes(shape);
      AddSlot(shape.index, slots, deleted, attrs, key, value);
      shape, slots := longer, slots + [value];
    }

    /** Ordinary assignment; refused silently. */
    method Set(tree: ShapeTree, key: string, value: Value)
      requires LivesIn(tree) && SlotOk(value)
      modifies this`shape, this`slots, this`deleted, tree, tree.all`next
      ensures LivesIn(tree) && tree.Grown() && Abs() == SetOwn(old(Abs()), key, value)
    {
      if key in attrs && !attrs[key].writable {
        return;
      }
      var current := GetSlot(key);
      if current.None? && nonExtensible {
        return;
      }
      SetSlot(tree, key, value);
    }

    method Delete(key: string) returns (ok: bool)
      requires Valid()
      modifies this`deleted, this`attrs
      ensures Valid() && (Abs(), ok) == DeleteOwn(old(Abs()), key)
    {
      var current := GetSlot(key);
      if current.None? {
        return true;
      }
      if key in attrs && !attrs[key].configurable {
        return false;
      }
      DropSlot(shape.index, slots, deleted, attrs, key);
      deleted := deleted + {key};
      attrs := attrs - {key};
      return true;
    }

    /** Every live name, in layout order. */
    method AllOwnKeys() returns (keys: seq<string>)
      requires Valid()
      ensures keys == OwnKeys(Abs()) && forall k :: k in keys ==> k in Abs().own
    {
      ShapeIndexes(shape);
      Descriptors.LiveNamesSound(Abs().names, Abs().own);
      ghost var own := Abs().own;
      keys := [];
      for i := 0 to |shape.names|
        invariant keys == LiveNames(shape.names[..i], own)
      {
        var name := shape.names[i];
        assert shape.names[..i + 1] == shape.names[..i] + [name];
        Descriptors.LiveNamesAppend(shape.names[..i], [name], own);
        assert LiveNames([name], own) == if name in own then [name] else [];
        if name !in deleted {
          keys := keys + [name];
        }
      }
      assert shape.names[..|shape.names|] == shape.names;
    }

    function OwnPropertyDescriptor(key: string): (r: Option<Descriptor>)
      requires Valid()
      reads this
      ensures r == OwnDescriptor(Abs(), key)
    {
      var value := GetSlot(key);
      if value.None? then None
      else
        var a := AttrIn(attrs, key);
        if value.value.Accessor? then
          Some(Descriptor(None, None, Some(a.enumerable), Some(a.configurable),
                          Some(value.value.getter), Some(value.value.setter)))
        else
          Some(Descriptor(Some(value.value), Some(a.writable), Some(a.enumerable), Some(a.configurable), None, None))
    }

    predicate IsCompatibleDescriptor(key: string, d: Descriptor)
      requires Valid()
      reads this
      ensures IsCompatibleDescriptor(key, d) == IsCompatible(Abs(), key, d)
    {
      var c := OwnPropertyDescriptor(key);
      if c.None? then !nonExtensible
      else
        var current := c.value;
        var currentAccessor := current.getter.Some? || current.setter.Some?;
        var descAccessor := d.getter.Some? || d.setter.Some?;
        var descData := d.value.Some? || d.writable.Some?;
        if current.configurable == Some(true) then true
        else if d.configurable == Some(true) || (d.enumerable.Some? && d.enumerable != current.enumerable) then false
        else if (descAccessor && !currentAccessor) || (descData && currentAccessor) then false
        else if currentAccessor then
          !(d.getter.Some? && !EngineSameValue(d.getter.value, Or(current.getter, Undefined)))
          && !(d.setter.Some? && !EngineSameValue(d.setter.value, Or(current.setter, Undefined)))
        else if current.writable == Some(false) then
          !(d.writable == Some(true))
          && !(d.value.Some? && !EngineSameValue(d.value.value, Or(current.value, Undefined)))
        else true
    }

    method DefineOwnProperty(tree: ShapeTree, key: string, d: Descriptor) returns (out: Outcome)
      requires LivesIn(tree) && NoSentinel(d)
      modifies this`shape, this`slots, this`deleted, this`attrs, tree, tree.all`next
      ensures LivesIn(tree) && tree.Grown() && (Abs(), out) == Define(old(Abs()), key, d)
    {
      var curVal;
      out, curVal := ValidateDefinition(key, d);
      if out != Defined {
        return;
      }
      var eff, stored := Merge(curVal, AttrIn(attrs, key), d);
      StoreDefinition(tree, key, stored, eff);
    }

    /** Everything checked before anything is written. */
    method ValidateDefinition(key: string, d: Descriptor) returns (out: Outcome, curVal: Option<Value>)
      requires Valid()
      ensures out == Define(Abs(), key, d).1
      ensures out == Defined ==> curVal == GetOwn(Abs(), key) && (curVal.Some? ==> SlotOk(curVal.value))
      ensures out == Defined ==>
        Current(Abs(), key) == if curVal.Some? then Some(Slot(curVal.value, AttrIn(attrs, key))) else None
    {
      var wellFormed := CheckFields(d);
      if !wellFormed {
        return TypeError, None;
      }
      AbsValid();
      curVal := GetSlot(key);
      if curVal.None? && nonExtensible {
        return Rejected, curVal;
      }
      var cur := AttrIn(attrs, key);
      if curVal.Some? && !cur.configurable {
        var allowed := MayRedefine(curVal.value, cur, d);
        if !allowed {
          return Rejected, curVal;
        }
      }
      return Defined, curVal;
    }

    method StoreDefinition(tree: ShapeTree, key: string, stored: Option<Value>, eff: PropAttrs)
      requires LivesIn(tree) && (stored.Some? ==> SlotOk(stored.value)) && (stored.None? ==> key in Abs().own)
      modifies this`shape, this`slots, this`deleted, this`attrs, tree, tree.all`next
      ensures LivesIn(tree) && tree.Grown()
      ensures var v := old(Abs());
        Abs() == Put(v, key, Slot(if stored.Some? then stored.value else v.own[key].value, eff))
    {
      ghost var v := Abs();
      if stored.Some? {
        SetSlot(tree, key, stored.value);
        PutTwice(v, key, Abs().own[key], Slot(stored.value, eff));
      }
      SetAttr(key, eff);
    }

    method PreventExtensions()
      requires Valid()
      modifies this`nonExtensible
      ensures Valid() && Abs() == old(Abs()).(extensible := false)
    {
      nonExtensible := true;
    }

    /** seal and freeze: one redefinition per own key, none of which is ever refused. */
    method SetIntegrityLevel(tree: ShapeTree, frozen: bool) returns (out: Outcome)
      requires LivesIn(tree)
      modifies this`shape, this`slots, this`deleted, this`attrs, this`nonExtensible, tree, tree.all`next
      ensures LivesIn(tree) && tree.Grown()
      ensures Abs() == SetIntegrity(old(Abs()), frozen) && out == Defined
    {
      PreventExtensions();
      var keys := AllOwnKeys();
      out := RestrictEach(tree, keys, frozen);
    }

    method RestrictEach(tree: ShapeTree, keys: seq<string>, frozen: bool) returns (out: Outcome)
      requires LivesIn(tree) && forall k :: k in keys ==> k in Abs().own
      modifies this`shape, this`slots, this`deleted, this`attrs, tree, tree.all`next
      ensures LivesIn(tree) && tree.Grown() && out == Defined
      ensures Abs() == RestrictKeys(old(Abs()), keys, frozen)
    {
      ghost var goal := RestrictKeys(Abs(), keys, frozen);
      for i := 0 to |keys|
        invariant LivesIn(tree) && old(tree.all) <= tree.all && fresh(tree.all - old(tree.all))
        invariant ToRestrict(Abs(), keys[i..], frozen, goal)
      {
        out := RestrictNext(tree, keys, i, frozen, goal);
        if out != Defined {
          return;
        }
      }
      out := Defined;
    }

    /** The keys are there, and restricting them leads to the goal. */
    static ghost predicate ToRestrict(v: View, keys: seq<string>, frozen: bool, goal: View) {
      RestrictKeys(v, keys, frozen) == goal && forall k :: k in keys ==> k in v.own
    }

    method RestrictNext(tree: ShapeTree, keys: seq<string>, i: nat, frozen: bool, ghost goal: View)
      returns (out: Outcome)
      requires LivesIn(tree) && i < |keys| && ToRestrict(Abs(), keys[i..], frozen, goal)
      modifies this`shape, this`slots, this`deleted, this`attrs, tree, tree.all`next
      ensures LivesIn(tree) && tree.Grown() && out == Defined && ToRestrict(Abs(), keys[i + 1..], frozen, goal)
    {
      assert keys[i..][0] == keys[i] && keys[i] in keys[i..] && keys[i..][1..] == keys[i + 1..];
      out := RestrictKey(tree, keys[i], frozen);
    }

    method RestrictKey(tree: ShapeTree, key: string, frozen: bool) returns (out: Outcome)
      requires LivesIn(tree) && key in Abs().own
      modifies this`shape, this`slots, this`deleted, this`attrs, tree, tree.all`next
      ensures LivesIn(tree) && tree.Grown() && out == Defined && Abs().own.Keys == old(Abs()).own.Keys
      ensures Abs() == Define(old(Abs()), key, IntegrityDescriptor(old(Abs()), key, frozen)).0
    {
      AbsValid();
      Histories.RestrictOne(Abs(), key, frozen);
      var d := Descriptor(None, None, None, Some(false), None, None);
      if frozen {
        var current := OwnPropertyDescriptor(key);
        if current.Some? && current.value.value.Some? {
          d := d.(writable := Some(false));
        }
      }
      out := DefineOwnProperty(tree, key, d);
    }

    /** Keeps the object below the level asked for. */
    predicate IsLoose(key: string, frozen: bool)
      requires Valid() && key in Abs().own
      reads this
      ensures IsLoose(key, frozen) <==> !Histories.Restricted(Abs(), key, frozen)
    {
      var d := OwnPropertyDescriptor(key);
      d.None? || d.value.configurable == Some(true)
      || (frozen && d.value.value.Some? && d.value.writable == Some(true))
    }

    method TestIntegrityLevel(frozen: bool) returns (ok: bool)
      requires Valid()
      ensures ok == TestIntegrity(Abs(), frozen)
    {
      if !nonExtensible {
        return false;
      }
      var keys := AllOwnKeys();
      AbsValid();
      KeysDecide(Abs(), keys, frozen);
      for i := 0 to |keys|
        invariant forall j :: 0 <= j < i ==> Histories.Restricted(Abs(), keys[j], frozen)
      {
        if IsLoose(keys[i], frozen) {
          return false;
        }
      }
      return true;
    }

    static method CheckFields(d: Descriptor) returns (ok: bool)
      ensures ok == WellFormed(d)
    {
      if (d.getter.Some? || d.setter.Some?) && (d.value.Some? || d.writable.Some?) {
        return false;
      }
      if d.getter.Some? && !d.getter.value.Undefined? && !d.getter.value.Function? {
        return false;
      }
      if d.setter.Some? && !d.setter.value.Undefined? && !d.setter.value.Function? {
        return false;
      }
      return true;
    }

    static method MayRedefine(curVal: Value, cur: PropAttrs, d: Descriptor) returns (ok: bool)
      ensures ok == Redefinable(Slot(curVal, cur), d)
    {
      if d.configurable == Some(true) {
        return false;
      }
      if d.enumerable.Some? && d.enumerable.value != cur.enumerable {
        return false;
      }
      if (d.getter.Some? || d.setter.Some?) && !curVal.Accessor? {
        return false;
      }
      if (d.value.Some? || d.writable.Some?) && curVal.Accessor? {
        return false;
      }
      if curVal.Accessor? {
        if d.getter.Some? && !EngineSameValue(d.getter.value, curVal.getter) {
          return false;
        }
        if d.setter.Some? && !EngineSameValue(d.setter.value, curVal.setter) {
          return false;
        }
      } else if !cur.writable {
        if d.writable == Some(true) {
          return false;
        }
        if d.value.Some? && !EngineSameValue(d.value.value, curVal) {
          return false;
        }
      }
      return true;
    }

    /** The effective attributes, and the value to store unless the slot stays as it is. */
    static method Merge(curVal: Option<Value>, curAttrs: PropAttrs, d: Descriptor)
      returns (eff: PropAttrs, stored: Option<Value>)
      requires WellFormed(d) && NoSentinel(d)
      ensures (curVal.Some? ==> SlotOk(curVal.value)) && stored.Some? ==> SlotOk(stored.value)
      ensures var cur := if curVal.Some? then Some(Slot(curVal.value, curAttrs)) else None;
        && eff == MergedAttrs(cur, d)
        && Or(stored, Or(curVal, Undefined)) == MergedValue(cur, d)
        && (stored.None? ==> curVal.Some?)
    {
      var curIsAcc := curVal.Some? && curVal.value.Accessor?;
      eff := if curVal.Some? then curAttrs else NO_ATTRS;
      if curVal.Some? && curIsAcc && (d.value.Some? || d.writable.Some?) {
        eff := eff.(writable := false);
      }
      if d.writable.Some? {
        eff := eff.(writable := d.writable.value);
      }
      if d.enumerable.Some? {
        eff := eff.(enumerable := d.enumerable.value);
      }
      if d.configurable.Some? {
        eff := eff.(configurable := d.configurable.value);
      }
      stored := None;
      if d.getter.Some? || d.setter.Some? {
        var g, s := Undefined, Undefined;
        if curIsAcc {
          g, s := curVal.value.getter, curVal.value.setter;
        }
        if d.getter.Some? {
          g := d.getter.value;
        }
        if d.setter.Some? {
          s := d.setter.value;
        }
        stored := Some(Accessor(g, s));
      } else if d.value.Some? {
        stored := d.value;
      } else if curVal.None? {
        stored := Some(Undefined);
      }
    }
  }

  lemma ShapeIndexes(s: Shape)
    requires s.WellFormed()
    ensures Indexes(s.index, |s.names|) && forall k :: k in s.index <==> k in s.names
  {
    forall j, k | j in s.index && k in s.index && s.index[j] == s.index[k] ensures j == k {
      assert s.names[s.index[j]] == j && s.names[s.index[k]] == k;
    }
  }
}
