/** Assignment through the prototype chain: OrdinarySet of ECMA-262, section 10.1.9, which
    asks every holder on the way up, against the interpreter, which looks up the chain only
    for accessors. */
module Inheritance {
  import opened Wrappers
  import opened Values
  import opened Ordinary
  import opened Ecma

  /** The first of the objects, receiver first, that has the key. */
  function FirstHolder(chain: seq<View>, key: string): Option<Slot> {
    if chain == [] then None
    else if key in chain[0].own then Some(chain[0].own[key])
    else FirstHolder(chain[1..], key)
  }

  // ----- the interpreter --------------------------------------------------------------------

  /** What an assignment comes to: the receiver afterwards, or a setter to be called. */
  datatype Effect = Leaves(v: View) | Runs(setter: Value)

  /** An accessor found first is run, or ignored if it has no setter; otherwise only the
      receiver's own property decides. */
  function SetProperty(chain: seq<View>, key: string, value: Value): Effect
    requires chain != []
  {
    var holder := FirstHolder(chain, key);
    if holder.Some? && holder.value.value.Accessor? then
      if holder.value.value.setter.Undefined? then Leaves(chain[0]) else Runs(holder.value.value.setter)
    else Leaves(SetOwn(chain[0], key, value))
  }

  // ----- the standard -----------------------------------------------------------------------

  datatype EcmaEffect = Holds(properties: map<string, Property>) | Calls(setter: Value)

  /** OrdinarySetWithOwnDescriptor, section 10.1.9.2: without the key the parent is asked,
      past the last parent the property counts as a plain missing one. */
  function OrdinarySet(receiver: View, chain: seq<View>, key: string, value: Value): EcmaEffect {
    if chain == [] then WriteOn(receiver, key, value)
    else if key !in chain[0].own then OrdinarySet(receiver, chain[1..], key, value)
    else
      match PropertyOf(chain[0].own[key])
      case Data(_, writable, _, _) => if writable then WriteOn(receiver, key, value) else Holds(Properties(receiver))
      case Pair(_, setter, _, _) => if setter.Undefined? then Holds(Properties(receiver)) else Calls(setter)
  }

  /** Step 2 of the same section: the receiver's own property is redefined with the value
      alone, or created with all three attributes. */
  function WriteOn(receiver: View, key: string, value: Value): EcmaEffect {
    var current := CurrentProperty(receiver, key);
    if current.Some? && current.value.Pair? then Holds(Properties(receiver))
    else
      var p := AssignedProperty(receiver.extensible, value, current);
      Holds(if p.Some? then Properties(receiver)[key := p.value] else Properties(receiver))
  }

  // ----- reading ----------------------------------------------------------------------------

  /** What a read comes to: a value, or a getter to be called. */
  datatype Reading = Is(v: Value) | Asks(getter: Value)

  function ReadingOf(v: Value): Reading {
    if v.Accessor? then if v.getter.Undefined? then Is(Undefined) else Asks(v.getter) else Is(v)
  }

  function GetProperty(chain: seq<View>, key: string): Reading {
    var holder := FirstHolder(chain, key);
    if holder.Some? then ReadingOf(holder.value.value) else Is(Undefined)
  }

  /** OrdinaryGet, section 10.1.8.1. */
  function OrdinaryGet(chain: seq<View>, key: string): Reading {
    if chain == [] then Is(Undefined)
    else
      var current := CurrentProperty(chain[0], key);
      if current.None? then OrdinaryGet(chain[1..], key)
      else match current.value
        case Data(v, _, _, _) => Is(v)
        case Pair(getter, _, _, _) => if getter.Undefined? then Is(Undefined) else Asks(getter)
  }

  /** Reading up the chain is the standard's in every case. */
  lemma {:induction false} GetIsEcma(chain: seq<View>, key: string)
    ensures GetProperty(chain, key) == OrdinaryGet(chain, key)
  {
    if chain != [] && key !in chain[0].own { GetIsEcma(chain[1..], key); }
  }

  // ----- where they agree --------------------------------------------------------------------

  predicate SameEffect(engine: Effect, standard: EcmaEffect) {
    match engine
    case Leaves(v) => standard == Holds(Properties(v))
    case Runs(setter) => standard == Calls(setter)
  }

  /** A property that the receiver may gain, inherited from a read-only one: the standard
      refuses to shadow it. */
  predicate ShadowsReadOnly(chain: seq<View>, key: string)
    requires chain != []
  {
    var holder := FirstHolder(chain[1..], key);
    && key !in chain[0].own && chain[0].extensible
    && holder.Some? && !holder.value.value.Accessor? && !holder.value.attrs.writable
  }

  lemma OrdinarySetAtHolder(receiver: View, chain: seq<View>, key: string, value: Value)
    ensures var holder := FirstHolder(chain, key);
      OrdinarySet(receiver, chain, key, value) ==
      if holder.None? then WriteOn(receiver, key, value)
      else OrdinarySet(receiver, [View([key], map[key := holder.value], true)], key, value)
  {
    if chain != [] && key !in chain[0].own {
      OrdinarySetAtHolder(receiver, chain[1..], key, value);
    }
  }

  /** Assignment is the standard's, up and down the chain, exactly when it does not give a
      receiver a property it would shadow read-only. */
  lemma SetIsEcmaExactly(chain: seq<View>, key: string, value: Value)
    requires chain != [] && chain[0].Valid() && !value.Accessor?
    ensures SameEffect(SetProperty(chain, key, value), OrdinarySet(chain[0], chain, key, value)) <==>
            !ShadowsReadOnly(chain, key)
  {
    var v := chain[0];
    OrdinarySetAtHolder(v, chain, key, value);
    if !HoldsAccessor(v, key) {
      AssignIsEcma(v, key, value);
    }
    if ShadowsReadOnly(chain, key) {
      assert key in SetOwn(v, key, value).own && key !in Properties(v);
      assert key in Properties(SetOwn(v, key, value));
    }
  }

  /** What `Set` itself, called by builtins, does right: data found on the receiver, data it
      may not shadow aside, and accessors without setter that it leaves alone. */
  predicate SetsDirectly(chain: seq<View>, key: string)
    requires chain != []
  {
    var v, holder := chain[0], FirstHolder(chain, key);
    if holder.Some? && holder.value.value.Accessor? then
      holder.value.value.setter.Undefined? && !Assignable(v, key)
    else !ShadowsReadOnly(chain, key)
  }

  /** `Set` looks for no accessor, its own included: it is OrdinarySet exactly when none with
      a setter, or one that would be overwritten or shadowed, is found first. */
  lemma DirectSetIsEcmaExactly(chain: seq<View>, key: string, value: Value)
    requires chain != [] && chain[0].Valid() && !value.Accessor?
    ensures SameEffect(Leaves(SetOwn(chain[0], key, value)), OrdinarySet(chain[0], chain, key, value)) <==>
            SetsDirectly(chain, key)
  {
    var v, holder := chain[0], FirstHolder(chain, key);
    var w := SetOwn(v, key, value);
    OrdinarySetAtHolder(v, chain, key, value);
    if holder.Some? && holder.value.value.Accessor? {
      if Assignable(v, key) {
        assert key in Properties(w) && Properties(w)[key].Data?;
        assert key in Properties(v) ==> Properties(v)[key].Pair?;
      }
    } else {
      SetIsEcmaExactly(chain, key, value);
    }
  }

  /** The smallest case: an empty object below a frozen one. The engine gives it the
      property, the standard does not. */
  lemma FrozenPrototypeIsShadowed(value: Value)
    requires !value.Accessor?
    ensures var frozen := SetIntegrity(SetOwn(EMPTY_VIEW, "x", Null), true);
      var chain := [EMPTY_VIEW, frozen];
      && TestIntegrity(frozen, true)
      && SetProperty(chain, "x", value) == Leaves(SetOwn(EMPTY_VIEW, "x", value))
      && OrdinarySet(EMPTY_VIEW, chain, "x", value) == Holds(map[])
      && "x" in SetOwn(EMPTY_VIEW, "x", value).own
  {
    var one := SetOwn(EMPTY_VIEW, "x", Null);
    assert one == View(["x"], map["x" := Slot(Null, DEFAULT_ATTRS)], true);
    var keys := ["x"];
    assert keys[0] in one.own && keys[1..] == [] && one.names == keys;
    assert LiveNames(keys, one.own) == [keys[0]] + LiveNames(keys[1..], one.own);
    assert OwnKeys(one) == keys;
    var frozen := SetIntegrity(one, true);
    var d := IntegrityDescriptor(one.(extensible := false), "x", true);
    assert frozen == RestrictKeys(Define(one.(extensible := false), keys[0], d).0, keys[1..], true);
    var chain := [EMPTY_VIEW, frozen];
    assert chain[1..] == [frozen] && FirstHolder(chain, "x") == Some(frozen.own["x"]);
    OrdinarySetAtHolder(EMPTY_VIEW, chain, "x", value);
    assert Properties(EMPTY_VIEW) == map[];
  }
}
