/** Own properties of a plain object, as a value: what every operation of the engine
    does to them, and the algorithms of ECMA-262 they stand for. */
module Ordinary {
  import opened Wrappers
  import opened Values

  datatype PropAttrs = PropAttrs(writable: bool, enumerable: bool, configurable: bool)

  const DEFAULT_ATTRS := PropAttrs(true, true, true)
  const NO_ATTRS := PropAttrs(false, false, false)

  datatype Slot = Slot(value: Value, attrs: PropAttrs)

  /** `names` is the layout: every name ever added, in order; a deleted name keeps its
      place and gets it back when added again. `own` holds the live properties. */
  datatype View = View(names: seq<string>, own: map<string, Slot>, extensible: bool) {
    ghost predicate Valid() {
      && Distinct(names)
      && (forall k :: k in own ==> k in names && SlotOk(own[k].value))
    }
  }

  /** The halves of a stored accessor are functions or undefined. */
  predicate SlotOk(v: Value) {
    v.Accessor? ==> IsCallableOrUndefined(v.getter) && IsCallableOrUndefined(v.setter)
  }

  const EMPTY_VIEW := View([], map[], true)

  // ----- reading and writing ------------------------------------------------------

  function GetOwn(v: View, key: string): Option<Value> {
    if key in v.own then Some(v.own[key].value) else None
  }

  /** One live property replaced; a new name goes to the end of the layout. */
  function Put(v: View, key: string, s: Slot): View {
    v.(names := if key in v.names then v.names else v.names + [key], own := v.own[key := s])
  }

  /** Storing a value without any check. */
  function Store(v: View, key: string, value: Value): View {
    Put(v, key, Slot(value, if key in v.own then v.own[key].attrs else DEFAULT_ATTRS))
  }

  /** Assignment: ignored on a read-only property, and on a new one when not extensible. */
  function SetOwn(v: View, key: string, value: Value): View {
    if key in v.own && !v.own[key].attrs.writable then v
    else if key !in v.own && !v.extensible then v
    else Store(v, key, value)
  }

  function DeleteOwn(v: View, key: string): (r: (View, bool)) {
    if key !in v.own then (v, true)
    else if !v.own[key].attrs.configurable then (v, false)
    else (v.(own := v.own - {key}), true)
  }

  function LiveNames(names: seq<string>, own: map<string, Slot>): seq<string> {
    if names == [] then []
    else (if names[0] in own then [names[0]] else []) + LiveNames(names[1..], own)
  }

  function OwnKeys(v: View): seq<string> {
    LiveNames(v.names, v.own)
  }

  // ----- descriptors --------------------------------------------------------------

  /** A property descriptor; an absent field is None. */
  datatype Descriptor = Descriptor(
    value: Option<Value>, writable: Option<bool>, enumerable: Option<bool>, configurable: Option<bool>,
    getter: Option<Value>, setter: Option<Value>)

  predicate IsAccessorDescriptor(d: Descriptor) {
    d.getter.Some? || d.setter.Some?
  }

  predicate IsDataDescriptor(d: Descriptor) {
    d.value.Some? || d.writable.Some?
  }

  /** What ToPropertyDescriptor (ECMA-262, section 6.2.6.5) lets through: not both kinds,
      and each half callable or undefined. A value is never the internal sentinel. */
  predicate WellFormed(d: Descriptor) {
    && !(IsAccessorDescriptor(d) && IsDataDescriptor(d))
    && (d.getter.Some? ==> IsCallableOrUndefined(d.getter.value))
    && (d.setter.Some? ==> IsCallableOrUndefined(d.setter.value))
  }

  predicate NoSentinel(d: Descriptor) {
    d.value.Some? ==> !d.value.value.Accessor?
  }

  function Or<T>(o: Option<T>, default: T): T {
    if o.Some? then o.value else default
  }

  datatype Outcome = Defined | Rejected | TypeError | RangeError

  /** The redefinition checks of a non-configurable property, in the engine's order. */
  predicate Redefinable(cur: Slot, d: Descriptor) {
    && !(d.configurable == Some(true))
    && !(d.enumerable.Some? && d.enumerable.value != cur.attrs.enumerable)
    && !(IsAccessorDescriptor(d) && !cur.value.Accessor?)
    && !(IsDataDescriptor(d) && cur.value.Accessor?)
    && (if cur.value.Accessor? then
          && !(d.getter.Some? && !EngineSameValue(d.getter.value, cur.value.getter))
          && !(d.setter.Some? && !EngineSameValue(d.setter.value, cur.value.setter))
        else
          !cur.attrs.writable ==>
            && !(d.writable == Some(true))
            && !(d.value.Some? && !EngineSameValue(d.value.value, cur.value)))
  }

  /** The attributes a definition leaves: fields named by the descriptor, else the current
      ones; turning an accessor into data resets writable. */
  function MergedAttrs(cur: Option<Slot>, d: Descriptor): PropAttrs {
    var base := if cur.Some? then cur.value.attrs else NO_ATTRS;
    var kind := if cur.Some? && cur.value.value.Accessor? && IsDataDescriptor(d)
                then base.(writable := false) else base;
    PropAttrs(Or(d.writable, kind.writable), Or(d.enumerable, kind.enumerable), Or(d.configurable, kind.configurable))
  }

  function MergedValue(cur: Option<Slot>, d: Descriptor): Value {
    if IsAccessorDescriptor(d) then
      var pair := if cur.Some? && cur.value.value.Accessor? then cur.value.value else Accessor(Undefined, Undefined);
      Accessor(Or(d.getter, pair.getter), Or(d.setter, pair.setter))
    else if d.value.Some? then d.value.value
    else if cur.Some? then cur.value.value
    else Undefined
  }

  function Current(v: View, key: string): Option<Slot> {
    if key in v.own then Some(v.own[key]) else None
  }

  function Define(v: View, key: string, d: Descriptor): (View, Outcome) {
    var cur := Current(v, key);
    if !WellFormed(d) then (v, TypeError)
    else if cur.None? && !v.extensible then (v, Rejected)
    else if cur.Some? && !cur.value.attrs.configurable && !Redefinable(cur.value, d) then (v, Rejected)
    else (Put(v, key, Slot(MergedValue(cur, d), MergedAttrs(cur, d))), Defined)
  }

  /** The effective descriptor of an own property. */
  function OwnDescriptor(v: View, key: string): Option<Descriptor> {
    if key !in v.own then None
    else
      var s := v.own[key];
      if s.value.Accessor? then
        Some(Descriptor(None, None, Some(s.attrs.enumerable), Some(s.attrs.configurable),
                        Some(s.value.getter), Some(s.value.setter)))
      else
        Some(Descriptor(Some(s.value), Some(s.attrs.writable), Some(s.attrs.enumerable),
                        Some(s.attrs.configurable), None, None))
  }

  /** The engine's separate compatibility test, which only reads descriptors. */
  predicate IsCompatible(v: View, key: string, d: Descriptor) {
    var c := OwnDescriptor(v, key);
    if c.None? then v.extensible
    else
      var cur := c.value;
      var curAcc := IsAccessorDescriptor(cur);
      if cur.configurable == Some(true) then true
      else if d.configurable == Some(true) || (d.enumerable.Some? && d.enumerable != cur.enumerable) then false
      else if (IsAccessorDescriptor(d) && !curAcc) || (IsDataDescriptor(d) && curAcc) then false
      else if curAcc then
        !(d.getter.Some? && !EngineSameValue(d.getter.value, Or(cur.getter, Undefined)))
        && !(d.setter.Some? && !EngineSameValue(d.setter.value, Or(cur.setter, Undefined)))
      else if cur.writable == Some(false) then
        !(d.writable == Some(true)) && !(d.value.Some? && !EngineSameValue(d.value.value, Or(cur.value, Undefined)))
      else true
  }

  // ----- integrity levels ---------------------------------------------------------

  /** The descriptor with which seal or freeze redefines one key. */
  function IntegrityDescriptor(v: View, key: string, frozen: bool): Descriptor {
    var data := key in v.own && !v.own[key].value.Accessor?;
    Descriptor(None, if frozen && data then Some(false) else None, None, Some(false), None, None)
  }

  /** Redefining the listed keys one after the other. */
  function RestrictKeys(v: View, keys: seq<string>, frozen: bool): View
    decreases keys
  {
    if keys == [] then v
    else RestrictKeys(Define(v, keys[0], IntegrityDescriptor(v, keys[0], frozen)).0, keys[1..], frozen)
  }

  function SetIntegrity(v: View, frozen: bool): View {
    RestrictKeys(v.(extensible := false), OwnKeys(v), frozen)
  }

  predicate TestIntegrity(v: View, frozen: bool) {
    && !v.extensible
    && forall k :: k in v.own ==>
         !v.own[k].attrs.configurable && (frozen && !v.own[k].value.Accessor? ==> !v.own[k].attrs.writable)
  }
}
