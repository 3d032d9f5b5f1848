/** What defining a property promises: compatibility, read-back, locality, idempotence. */
module Descriptors {
  import opened Wrappers
  import opened Values
  import opened Ordinary

  /** Defining succeeds exactly when the read-only compatibility test says it may. */
  lemma DefinedIffCompatible(v: View, key: string, d: Descriptor)
    requires v.Valid() && WellFormed(d)
    ensures Define(v, key, d).1 == Defined <==> IsCompatible(v, key, d)
  {
    if key in v.own {
      var s := v.own[key];
      assert s.value.Accessor? <==> IsAccessorDescriptor(OwnDescriptor(v, key).value);
    }
  }

  /** A named field is the one read back afterwards. */
  predicate ReadsBack(d: Descriptor, now: Descriptor) {
    && (d.value.Some? ==> now.value == d.value)
    && (d.writable.Some? ==> now.writable == d.writable)
    && (d.enumerable.Some? ==> now.enumerable == d.enumerable)
    && (d.configurable.Some? ==> now.configurable == d.configurable)
    && (d.getter.Some? ==> now.getter == d.getter)
    && (d.setter.Some? ==> now.setter == d.setter)
  }

  /** A field not named keeps its value while the property stays of its kind; a property
      that is new or changes kind gets the defaults. */
  predicate KeepsOrDefaults(old_: Option<Descriptor>, d: Descriptor, now: Descriptor) {
    var sameKind := old_.Some? && IsAccessorDescriptor(old_.value) == IsAccessorDescriptor(now);
    && (d.enumerable.None? ==> now.enumerable == if old_.Some? then old_.value.enumerable else Some(false))
    && (d.configurable.None? ==> now.configurable == if old_.Some? then old_.value.configurable else Some(false))
    && (if IsAccessorDescriptor(now) then
          && (d.getter.None? ==> now.getter == if sameKind then old_.value.getter else Some(Undefined))
          && (d.setter.None? ==> now.setter == if sameKind then old_.value.setter else Some(Undefined))
        else
          && (d.value.None? ==> now.value == if sameKind then old_.value.value else Some(Undefined))
          && (d.writable.None? ==> now.writable == if sameKind then old_.value.writable else Some(false)))
  }

  /** Success reads back what was named and touches no other key; failure changes nothing.
      A descriptor naming only `writable` on an accessor is the one that is not read back. */
  lemma DefineReadsBack(v: View, key: string, d: Descriptor)
    requires v.Valid() && NoSentinel(d)
    ensures var (v', out) := Define(v, key, d);
      && v'.Valid() && v'.extensible == v.extensible
      && (out != Defined ==> v' == v)
      && (out == Defined ==>
            && OwnDescriptor(v', key).Some?
            && KeepsOrDefaults(OwnDescriptor(v, key), d, OwnDescriptor(v', key).value)
            && (ReadsBack(d, OwnDescriptor(v', key).value) <==>
                !(key in v.own && v.own[key].value.Accessor? && d.writable.Some? && d.value.None?))
            && v'.own - {key} == v.own - {key}
            && v.names <= v'.names)
  {
    var (v', out) := Define(v, key, d);
    if out == Defined {
      var cur := Current(v, key);
      var s := v'.own[key];
      assert s == Slot(MergedValue(cur, d), MergedAttrs(cur, d));
      if IsAccessorDescriptor(d) {
        assert s.value.Accessor? && SlotOk(s.value);
      }
    }
  }

  /** Redefining a property by its own descriptor is accepted and changes nothing, not
      even the hidden writable flag an accessor inherits from a former data property. */
  lemma OwnDescriptorIsNoOp(v: View, key: string)
    requires v.Valid() && key in v.own
    ensures Define(v, key, OwnDescriptor(v, key).value) == (v, Defined)
  {
    var s := v.own[key];
    var d := OwnDescriptor(v, key).value;
    EngineSameValueReflexive(s.value);
    if s.value.Accessor? {
      EngineSameValueReflexive(s.value.getter);
      EngineSameValueReflexive(s.value.setter);
    }
    assert Slot(MergedValue(Some(s), d), MergedAttrs(Some(s), d)) == s;
    assert v.own[key := s] == v.own;
  }

  // ----- key order ----------------------------------------------------------------

  lemma LiveNamesAppend(a: seq<string>, b: seq<string>, own: map<string, Slot>)
    ensures LiveNames(a + b, own) == LiveNames(a, own) + LiveNames(b, own)
  {
    if a == [] {
      assert a + b == b;
    } else {
      assert (a + b)[1..] == a[1..] + b;
      LiveNamesAppend(a[1..], b, own);
    }
  }

  lemma LiveNamesIgnoresOthers(names: seq<string>, own: map<string, Slot>, key: string, s: Slot)
    requires key !in names
    ensures LiveNames(names, own[key := s]) == LiveNames(names, own)
  {
    if names != [] {
      assert names[0] in names && forall k :: k in names[1..] ==> k in names;
      LiveNamesIgnoresOthers(names[1..], own, key, s);
    }
  }

  lemma LiveNamesSound(names: seq<string>, own: map<string, Slot>)
    ensures forall k :: k in LiveNames(names, own) <==> k in names && k in own
  {
  }

  ghost predicate LiveKeyFollows(v: View, key: string) {
    exists i, j :: 0 <= i < j < |v.names| && v.names[i] == key && v.names[j] in v.own
  }

  /** A key added again after deletion returns to its old place. So adding puts the key
      last exactly when no live key was laid out after the place it had. */
  lemma AddedKeyIsLastExactly(v: View, key: string, value: Value)
    requires v.Valid() && v.extensible && key !in v.own
    ensures OwnKeys(SetOwn(v, key, value)) == OwnKeys(v) + [key] <==> !LiveKeyFollows(v, key)
  {
    var s := Slot(value, DEFAULT_ATTRS);
    if key !in v.names {
      NewNameIsLast(v.names, key, v.own, s);
    } else {
      var p :| 0 <= p < |v.names| && v.names[p] == key;
      ReturningNameIsLastExactly(v.names, p, v.own, s);
      if LiveKeyFollows(v, key) {
        var i, j :| 0 <= i < j < |v.names| && v.names[i] == key && v.names[j] in v.own;
        assert i == p;
      }
    }
  }

  lemma NewNameIsLast(names: seq<string>, key: string, own: map<string, Slot>, s: Slot)
    requires key !in names
    ensures LiveNames(names + [key], own[key := s]) == LiveNames(names, own) + [key]
  {
    LiveNamesAppend(names, [key], own[key := s]);
    LiveNamesIgnoresOthers(names, own, key, s);
    assert LiveNames([key], own[key := s]) == [key];
  }

  lemma ReturningNameIsLastExactly(names: seq<string>, p: nat, own: map<string, Slot>, s: Slot)
    requires p < |names| && names[p] !in own
    requires forall i, j :: 0 <= i < j < |names| ==> names[i] != names[j]
    ensures LiveNames(names, own[names[p] := s]) == LiveNames(names, own) + [names[p]] <==>
      !exists j :: p < j < |names| && names[j] in own
  {
    var a, key, b := names[..p], names[p], names[p + 1..];
    assert names == a + ([key] + b);
    SplitAround(a, key, b, own, s);
    LiveNamesSound(b, own);
    LastIffNothingFollows(LiveNames(a, own), key, LiveNames(b, own));
    LiveAfter(names, p, own);
  }

  lemma LiveAfter(names: seq<string>, p: nat, own: map<string, Slot>)
    requires p < |names|
    ensures LiveNames(names[p + 1..], own) == [] <==> forall j :: p < j < |names| ==> names[j] !in own
  {
    var b := names[p + 1..];
    LiveNamesSound(b, own);
    if LiveNames(b, own) != [] {
      var k := LiveNames(b, own)[0];
      assert k in LiveNames(b, own);
      var j :| 0 <= j < |b| && b[j] == k;
      assert names[p + 1 + j] == k;
    } else {
      forall j | p < j < |names| ensures names[j] !in own {
        assert b[j - p - 1] == names[j];
        assert names[j] in b;
      }
    }
  }

  lemma LastIffNothingFollows(x: seq<string>, key: string, y: seq<string>)
    requires key !in y
    ensures x + [key] + y == x + y + [key] <==> y == []
  {
    if y != [] {
      assert (x + [key] + y)[|x|] == key;
      assert (x + y + [key])[|x|] == y[0];
      assert y[0] in y;
    } else {
      assert x + [key] + y == x + y + [key];
    }
  }

  lemma SplitAround(a: seq<string>, key: string, b: seq<string>, own: map<string, Slot>, s: Slot)
    requires key !in a && key !in b && key !in own
    ensures LiveNames(a + ([key] + b), own) == LiveNames(a, own) + LiveNames(b, own)
    ensures LiveNames(a + ([key] + b), own[key := s]) == LiveNames(a, own) + [key] + LiveNames(b, own)
  {
    SplitNames(a, key, b, own);
    SplitNames(a, key, b, own[key := s]);
    LiveNamesIgnoresOthers(a, own, key, s);
    LiveNamesIgnoresOthers(b, own, key, s);
  }

  lemma SplitNames(a: seq<string>, key: string, b: seq<string>, own: map<string, Slot>)
    ensures LiveNames(a + ([key] + b), own) ==
            LiveNames(a, own) + (if key in own then [key] else []) + LiveNames(b, own)
  {
    LiveNamesAppend(a, [key] + b, own);
    assert ([key] + b)[1..] == b;
  }
}
