/** ECMA-262 own-property algorithms, written from the standard alone, and the exact
    extent to which the engine's operations implement them. */
module Ecma {
  import opened Wrappers
  import opened Values
  import opened Ordinary

  /** A property as the standard has it: only data properties are writable or not. */
  datatype Property =
    | Data(value: Value, writable: bool, enumerable: bool, configurable: bool)
    | Pair(getter: Value, setter: Value, enumerable: bool, configurable: bool)

  function PropertyOf(s: Slot): Property {
    if s.value.Accessor? then Pair(s.value.getter, s.value.setter, s.attrs.enumerable, s.attrs.configurable)
    else Data(s.value, s.attrs.writable, s.attrs.enumerable, s.attrs.configurable)
  }

  /** The language-level reading of a stored object. */
  function Properties(v: View): map<string, Property> {
    map k | k in v.own :: PropertyOf(v.own[k])
  }

  /** ValidateAndApplyPropertyDescriptor, section 10.1.6.3: None is `false`. */
  function ValidateAndApply(extensible: bool, d: Descriptor, current: Option<Property>): Option<Property> {
    if current.None? then
      if !extensible then None
      else if IsAccessorDescriptor(d) then
        Some(Pair(Or(d.getter, Undefined), Or(d.setter, Undefined), Or(d.enumerable, false), Or(d.configurable, false)))
      else
        Some(Data(Or(d.value, Undefined), Or(d.writable, false), Or(d.enumerable, false), Or(d.configurable, false)))
    else
      var c := current.value;
      if !c.configurable && !Permitted(c, d) then None
      else
        var e := Or(d.enumerable, c.enumerable);
        var f := Or(d.configurable, c.configurable);
        if c.Data? && IsAccessorDescriptor(d) then
          Some(Pair(Or(d.getter, Undefined), Or(d.setter, Undefined), e, f))
        else if c.Pair? && IsDataDescriptor(d) then
          Some(Data(Or(d.value, Undefined), Or(d.writable, false), e, f))
        else if c.Data? then
          Some(Data(Or(d.value, c.value), Or(d.writable, c.writable), e, f))
        else
          Some(Pair(Or(d.getter, c.getter), Or(d.setter, c.setter), e, f))
  }

  /** Step 5 of section 10.1.6.3: what a non-configurable property still allows. */
  predicate Permitted(c: Property, d: Descriptor) {
    && (d.configurable.Some? ==> !d.configurable.value)
    && (d.enumerable.Some? ==> d.enumerable.value == c.enumerable)
    && (IsAccessorDescriptor(d) || IsDataDescriptor(d) ==> IsAccessorDescriptor(d) == c.Pair?)
    && (match c
        case Pair(g, s, _, _) =>
          && (d.getter.Some? ==> SameValue(d.getter.value, g))
          && (d.setter.Some? ==> SameValue(d.setter.value, s))
        case Data(x, w, _, _) =>
          !w ==>
            && (d.writable.Some? ==> !d.writable.value)
            && (d.value.Some? ==> SameValue(d.value.value, x)))
  }

  function CurrentProperty(v: View, key: string): Option<Property> {
    if key in v.own then Some(PropertyOf(v.own[key])) else None
  }

  /** What [[DefineOwnProperty]] must leave behind: the new property under the key and
      nothing else touched, or the object as it was. */
  ghost predicate DefinesAsSpecified(v: View, key: string, d: Descriptor, v': View, out: Outcome) {
    match ValidateAndApply(v.extensible, d, CurrentProperty(v, key))
    case None => out == Rejected && v' == v
    case Some(p) =>
      out == Defined && v'.extensible == v.extensible && Properties(v') == Properties(v)[key := p]
  }

  /** A descriptor naming `writable` without `value`, on a configurable accessor: the
      standard turns the property into data, the engine keeps the accessor. */
  predicate WritableOnlyOnAccessor(v: View, key: string, d: Descriptor) {
    && key in v.own && v.own[key].value.Accessor? && v.own[key].attrs.configurable
    && d.writable.Some? && d.value.None?
  }

  /** A permitted redefinition of a read-only, non-configurable value by an equal one
      that is stored at another address: the standard accepts it, the engine does not. */
  predicate EqualValueRefused(v: View, key: string, d: Descriptor) {
    && key in v.own && !v.own[key].value.Accessor?
    && !v.own[key].attrs.configurable && !v.own[key].attrs.writable
    && d.value.Some? && StoredApart(d.value.value, v.own[key].value)
    && d.configurable != Some(true) && d.writable != Some(true)
    && (d.enumerable.Some? ==> d.enumerable.value == v.own[key].attrs.enumerable)
  }

  /** The engine's definition is the standard's, except in exactly the two cases above. */
  lemma DefineIsEcmaExactly(v: View, key: string, d: Descriptor)
    requires v.Valid() && WellFormed(d) && NoSentinel(d)
    ensures var (v', out) := Define(v, key, d);
      DefinesAsSpecified(v, key, d, v', out) <==>
      !WritableOnlyOnAccessor(v, key, d) && !EqualValueRefused(v, key, d)
  {
    RefusalIsEcma(v, key, d);
    var (v', out) := Define(v, key, d);
    var spec := ValidateAndApply(v.extensible, d, CurrentProperty(v, key));
    if out == Defined {
      PropertiesUpdate(v, v', key, v'.own[key]);
      MergeIsEcma(v, key, d);
      UpdateInjective(Properties(v), key, PropertyOf(v'.own[key]), spec.value);
    }
  }

  lemma PropertiesUpdate(v: View, v': View, key: string, s: Slot)
    requires v'.own == v.own[key := s]
    ensures Properties(v') == Properties(v)[key := PropertyOf(s)]
  {
  }

  lemma UpdateInjective<K, V>(m: map<K, V>, k: K, a: V, b: V)
    ensures m[k := a] == m[k := b] <==> a == b
  {
    assert m[k := a][k] == a && m[k := b][k] == b;
  }

  /** Rejection agrees with the standard unless an equal value is refused. */
  lemma RefusalIsEcma(v: View, key: string, d: Descriptor)
    requires v.Valid() && WellFormed(d)
    ensures var spec := ValidateAndApply(v.extensible, d, CurrentProperty(v, key));
      (Define(v, key, d).1 == Rejected) <==> spec.None? || EqualValueRefused(v, key, d)
  {
    if key in v.own {
      var s := v.own[key];
      if d.value.Some? { EngineSameValueExact(d.value.value, s.value); }
      if s.value.Accessor? {
        if d.getter.Some? { EngineSameValueExact(d.getter.value, s.value.getter); }
        if d.setter.Some? { EngineSameValueExact(d.setter.value, s.value.setter); }
      }
    }
  }

  lemma MergeIsEcma(v: View, key: string, d: Descriptor)
    requires v.Valid() && WellFormed(d) && NoSentinel(d) && Define(v, key, d).1 == Defined
    ensures var p := PropertyOf(Define(v, key, d).0.own[key]);
      var spec := ValidateAndApply(v.extensible, d, CurrentProperty(v, key));
      spec.Some? && (spec.value == p <==> !WritableOnlyOnAccessor(v, key, d))
  {
    RefusalIsEcma(v, key, d);
  }

  // ----- malformed descriptors and integrity levels ---------------------------------------------

  /** ToPropertyDescriptor, section 6.2.6.5, throws: both kinds are named, or a half that is
      neither undefined nor a function. */
  predicate Malformed(d: Descriptor) {
    || ((d.getter.Some? || d.setter.Some?) && (d.value.Some? || d.writable.Some?))
    || (d.getter.Some? && d.getter.value != Undefined && !d.getter.value.Function?)
    || (d.setter.Some? && d.setter.value != Undefined && !d.setter.value.Function?)
  }

  /** What SetIntegrityLevel, section 7.3.15, leaves of a property. */
  function AtIntegrity(p: Property, frozen: bool): Property {
    match p
    case Data(x, w, e, _) => Data(x, if frozen then false else w, e, false)
    case Pair(g, s, e, _) => Pair(g, s, e, false)
  }

  /** TestIntegrityLevel, section 7.3.16. */
  ghost predicate IsAtIntegrity(v: View, frozen: bool) {
    && !v.extensible
    && forall k :: k in v.own ==>
         match PropertyOf(v.own[k])
         case Data(_, w, _, c) => !c && (frozen ==> !w)
         case Pair(_, _, _, c) => !c
  }

  // ----- assignment and deletion ---------------------------------------------------------------

  /** The own part of OrdinarySetWithOwnDescriptor, section 10.1.9.2, when no accessor is in
      play: a writable property is redefined with the value alone, a missing one is created
      with all three attributes, and anything else is refused. */
  function AssignedProperty(extensible: bool, value: Value, current: Option<Property>): Option<Property> {
    var yes := Some(true);
    if current.None? then
      ValidateAndApply(extensible, Descriptor(Some(value), yes, yes, yes, None, None), current)
    else if current.value.Data? && !current.value.writable then None
    else ValidateAndApply(extensible, Descriptor(Some(value), None, None, None, None, None), current)
  }

  /** Whether an assignment writes at all. */
  predicate Assignable(v: View, key: string) {
    if key in v.own then v.own[key].attrs.writable else v.extensible
  }

  predicate HoldsAccessor(v: View, key: string) {
    key in v.own && v.own[key].value.Accessor?
  }

  lemma AssignmentStoresEcma(v: View, key: string, value: Value)
    requires !value.Accessor? && !HoldsAccessor(v, key)
    ensures var p := AssignedProperty(v.extensible, value, CurrentProperty(v, key));
      && p.Some? == Assignable(v, key)
      && (p.Some? ==> p.value == PropertyOf(Slot(value, if key in v.own then v.own[key].attrs else DEFAULT_ATTRS)))
  {
  }

  /** On a key that holds no accessor, and with no prototype in play, assignment is what the
      standard says. On an accessor it is an overwrite, unless the hidden writable flag
      forbids it: a property write of the program runs the setter instead, but builtins that
      call `Set` themselves do overwrite. */
  lemma AssignIsEcma(v: View, key: string, value: Value)
    requires v.Valid() && !value.Accessor?
    ensures var w := SetOwn(v, key, value);
      var p := AssignedProperty(v.extensible, value, CurrentProperty(v, key));
      && w.extensible == v.extensible && v.names <= w.names
      && (!HoldsAccessor(v, key) ==>
            Properties(w) == if p.Some? then Properties(v)[key := p.value] else Properties(v))
      && (HoldsAccessor(v, key) ==> (w == v <==> !v.own[key].attrs.writable))
  {
    var w := SetOwn(v, key, value);
    if !HoldsAccessor(v, key) {
      AssignmentStoresEcma(v, key, value);
      if Assignable(v, key) {
        PropertiesUpdate(v, w, key, w.own[key]);
      }
    } else if Assignable(v, key) {
      assert w.own[key].value == value;
    }
  }

  /** OrdinaryDelete, section 10.1.10.1. */
  lemma DeleteIsEcma(v: View, key: string)
    requires v.Valid()
    ensures var (w, ok) := DeleteOwn(v, key);
      && ok == !(key in v.own && !PropertyOf(v.own[key]).configurable)
      && Properties(w) == (if ok then Properties(v) - {key} else Properties(v))
      && w.extensible == v.extensible && w.names == v.names
  {
    var (w, ok) := DeleteOwn(v, key);
    assert Properties(w) == if ok then Properties(v) - {key} else Properties(v);
  }
}
