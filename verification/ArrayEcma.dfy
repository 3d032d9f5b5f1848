/** Array operations against ECMA-262: assignment to an index, redefinition of an index and
    of the length, with the exact condition under which each is the standard's. */
module ArrayEcma {
  import opened Wrappers
  import opened Values
  import opened Ordinary
  import opened Ecma
  import opened ArrayModel
  import opened ArrayHistories

  /** An array as the standard has it: its length and one property per present index. */
  datatype EcmaArray = EcmaArray(length: nat, elements: map<nat, Property>, lengthWritable: bool, extensible: bool)

  function ElementsOf(v: ArrayView): map<nat, Property> {
    map i: nat | i < |v.items| && v.items[i].Some? :: PropertyOf(Slot(v.items[i].value, AttrAt(v, i)))
  }

  function Reading(v: ArrayView): EcmaArray {
    EcmaArray(|v.items|, ElementsOf(v), v.lengthWritable, v.extensible)
  }

  /** Whether the standard lets a missing index come into being (section 10.4.2.1, step 2). */
  predicate MayCreate(v: ArrayView, i: nat) {
    v.extensible && (i < |v.items| || v.lengthWritable)
  }

  // ----- assignment to an index ----------------------------------------------------------------

  /** Whether an assignment to the index takes effect: the element is writable data, or may be
      created. */
  predicate Takes(a: EcmaArray, i: nat) {
    if i in a.elements then a.elements[i].Data? && a.elements[i].writable
    else a.extensible && (i < a.length || a.lengthWritable)
  }

  /** OrdinarySet on an index that no prototype has and that holds no accessor. */
  function PutElement(a: EcmaArray, i: nat, x: Value): EcmaArray {
    if !Takes(a, i) then a
    else if i in a.elements then a.(elements := a.elements[i := Data(x, true, a.elements[i].enumerable,
                                                                      a.elements[i].configurable)])
    else a.(length := if i < a.length then a.length else i + 1, elements := a.elements[i := Data(x, true, true, true)])
  }

  function Assigned(v: ArrayView, i: nat, x: Value): EcmaArray {
    PutElement(Reading(v), i, x)
  }

  /** A missing index whose entry, left from a removed element, would come back to life. */
  predicate RevivesEntry(v: ArrayView, i: nat) {
    Absent(v, i) && i in v.attrs && MayCreate(v, i)
  }

  /** A hole of a non-extensible array that the engine fills all the same. */
  predicate FillsSealedHole(v: ArrayView, i: nat) {
    i < |v.items| && v.items[i].None? && !v.extensible && AttrAt(v, i).writable
  }

  /** On an index that no prototype has, assignment is the standard's except in exactly those
      two cases. */
  lemma SetAtIsEcmaExactly(v: ArrayView, i: nat, x: Value)
    requires Tidy(v) && !x.Accessor? && (!Absent(v, i) ==> !v.items[i].value.Accessor?)
    ensures Reading(SetAt(v, i, x)) == Assigned(v, i, x) <==> !RevivesEntry(v, i) && !FillsSealedHole(v, i)
  {
    var w := SetAt(v, i, x);
    SetAtElements(v, i, x);
    if Absent(v, i) {
      assert i !in ElementsOf(v);
      if RevivesEntry(v, i) {
        assert Assigned(v, i, x).elements[i] == Data(x, true, true, true);
        if i in ElementsOf(w) { assert ElementsOf(w)[i] == PropertyOf(Slot(x, AttrAt(v, i))); }
      } else if FillsSealedHole(v, i) {
        assert i in ElementsOf(w);
      }
    }
  }

  /** What an assignment does to the elements. */
  lemma SetAtElements(v: ArrayView, i: nat, x: Value)
    ensures var w := SetAt(v, i, x);
      w == v || ElementsOf(w) == ElementsOf(v)[i := PropertyOf(Slot(x, AttrAt(v, i)))]
  {
    var w := SetAt(v, i, x);
    if w != v {
      assert forall j: nat :: j != i && j < |v.items| ==> w.items[j] == v.items[j];
      assert forall j: nat :: |v.items| <= j < |w.items| && j != i ==> w.items[j].None?;
    }
  }

  // ----- assignment with prototypes --------------------------------------------------------------

  /** What assigning an element comes to, in the engine and in the standard. */
  datatype Effect = Leaves(v: ArrayView) | Runs(setter: Value)
  datatype EcmaEffect = Holds(a: EcmaArray) | Calls(setter: Value)

  /** With a numeric key the interpreter writes at once if the element is writable data, or
      is missing and the array extensible. Nothing inherited is looked at then. */
  predicate Direct(v: ArrayView, i: nat) {
    if Absent(v, i) then v.extensible else !v.items[i].value.Accessor? && AttrAt(v, i).writable
  }

  /** A prototype's property for the index: an element of an array, or in an object's slots. */
  datatype Holder = Element(p: Property) | Slotted(p: Property)

  /** The holders along the prototypes, nearest first. The standard finds the nearest one. */
  function Nearest(up: seq<Holder>): Option<Property> {
    if up == [] then None else Some(up[0].p)
  }

  /** The engine's search for accessors passes over the elements of arrays. */
  function Seen(up: seq<Holder>): Option<Property> {
    if up == [] then None
    else match up[0] case Slotted(p) => Some(p) case Element(_) => Seen(up[1..])
  }

  /** Otherwise, and with a string key, an accessor seen comes first, even before the array's
      own element. */
  predicate Intercepted(v: ArrayView, i: nat, up: seq<Holder>, numericKey: bool) {
    !(numericKey && Direct(v, i)) && Seen(up).Some? && Seen(up).value.Pair?
  }

  function AssignElement(v: ArrayView, i: nat, x: Value, up: seq<Holder>, numericKey: bool): Effect {
    if Intercepted(v, i, up, numericKey) then
      var setter := Seen(up).value.setter;
      if setter.Undefined? then Leaves(v) else Runs(setter)
    else Leaves(SetAt(v, i, x))
  }

  function CallOrHold(setter: Value, v: ArrayView): EcmaEffect {
    if setter.Undefined? then Holds(Reading(v)) else Calls(setter)
  }

  /** OrdinarySet: the own property decides, then the inherited one, then a missing one is
      created. */
  function SetElement(v: ArrayView, i: nat, x: Value, up: seq<Holder>): EcmaEffect {
    if !Absent(v, i) then
      if v.items[i].value.Accessor? then CallOrHold(v.items[i].value.setter, v) else Holds(Assigned(v, i, x))
    else
      match Nearest(up)
      case None => Holds(Assigned(v, i, x))
      case Some(Pair(_, setter, _, _)) => CallOrHold(setter, v)
      case Some(Data(_, writable, _, _)) => Holds(if writable then Assigned(v, i, x) else Reading(v))
  }

  predicate SameEffect(engine: Effect, standard: EcmaEffect) {
    match engine
    case Leaves(v) => standard == Holds(Reading(v))
    case Runs(setter) => standard == Calls(setter)
  }

  /** The engine writes a missing index. */
  predicate Fills(v: ArrayView, i: nat) {
    if i < |v.items| then AttrAt(v, i).writable else CanGrow(v)
  }

  /** Where the engine writes a missing index, the two agree unless a read-only or accessor
      property is shadowed, an entry comes back to life, or a hole of a non-extensible array
      is filled. */
  predicate WritesMissingRightly(v: ArrayView, i: nat, up: seq<Holder>) {
    match Nearest(up)
    case Some(Pair(_, setter, _, _)) => setter.Undefined? && !Fills(v, i)
    case Some(Data(_, false, _, _)) => !Fills(v, i)
    case _ => !RevivesEntry(v, i) && !FillsSealedHole(v, i)
  }

  /** Where it takes an accessor for the one to ask, they agree if the nearest property is an
      accessor with that setter, or if there is no setter and nothing would be created. */
  predicate AsksForMissingRightly(v: ArrayView, i: nat, up: seq<Holder>, setter: Value) {
    match Nearest(up)
    case Some(Pair(_, nearest, _, _)) => nearest == setter
    case Some(Data(_, false, _, _)) => setter.Undefined?
    case _ => setter.Undefined? && !MayCreate(v, i)
  }

  predicate Agrees(v: ArrayView, i: nat, x: Value, up: seq<Holder>, numericKey: bool) {
    var asks := Intercepted(v, i, up, numericKey);
    if Absent(v, i) then
      if asks then AsksForMissingRightly(v, i, up, Seen(up).value.setter) else WritesMissingRightly(v, i, up)
    else if v.items[i].value.Accessor? then
      // its own setter has to be the one asked, or it has none and is not overwritten
      var own := v.items[i].value.setter;
      if asks then Seen(up).value.setter == own else own.Undefined? && !AttrAt(v, i).writable
    else
      // a data element is not to be kept from being written by the accessor asked
      asks ==> Seen(up).value.setter.Undefined? && (AttrAt(v, i).writable ==> v.items[i].value == x)
  }

  /** Assigning an element is the standard's, whatever the prototypes hold for the index,
      exactly when its branch of the conditions above says so. */
  lemma AssignElementIsEcmaExactly(v: ArrayView, i: nat, x: Value, up: seq<Holder>, numericKey: bool)
    requires Tidy(v) && !x.Accessor?
    ensures SameEffect(AssignElement(v, i, x, up, numericKey), SetElement(v, i, x, up)) <==>
            Agrees(v, i, x, up, numericKey)
  {
    if Absent(v, i) {
      AssignMissingExactly(v, i, x, up, numericKey);
    } else {
      AssignPresentExactly(v, i, x, up, numericKey);
    }
  }

  lemma AssignMissingExactly(v: ArrayView, i: nat, x: Value, up: seq<Holder>, numericKey: bool)
    requires Tidy(v) && !x.Accessor? && Absent(v, i)
    ensures SameEffect(AssignElement(v, i, x, up, numericKey), SetElement(v, i, x, up)) <==>
            Agrees(v, i, x, up, numericKey)
  {
    SetAtReads(v, i, x);
    if !Intercepted(v, i, up, numericKey) {
      SetAtIsEcmaExactly(v, i, x);
    }
  }

  lemma AssignPresentExactly(v: ArrayView, i: nat, x: Value, up: seq<Holder>, numericKey: bool)
    requires Tidy(v) && !x.Accessor? && !Absent(v, i)
    ensures SameEffect(AssignElement(v, i, x, up, numericKey), SetElement(v, i, x, up)) <==>
            Agrees(v, i, x, up, numericKey)
  {
    SetAtReads(v, i, x);
    if !v.items[i].value.Accessor? {
      SetAtIsEcmaExactly(v, i, x);
    }
  }

  /** A setter that an array prototype has as an element is never called: the empty array
      below it gets the element. */
  lemma ElementSetterIsPassedOver(x: Value, getter: Value, setter: Value, numericKey: bool)
    requires !x.Accessor? && !setter.Undefined?
    ensures var v, up := ArrayView([], true, map[], true), [Element(Pair(getter, setter, true, true))];
      && AssignElement(v, 0, x, up, numericKey) == Leaves(v.(items := [Some(x)]))
      && SetElement(v, 0, x, up) == Calls(setter)
  {
    var v, up := ArrayView([], true, map[], true), [Element(Pair(getter, setter, true, true))];
    assert up[1..] == [] && Seen(up) == None;
    assert Grown(v.items, 0) + [Some(x)] == [Some(x)];
  }

  /** When an assignment shows. */
  lemma SetAtReads(v: ArrayView, i: nat, x: Value)
    requires Tidy(v) && !x.Accessor?
    ensures Absent(v, i) ==> (Reading(SetAt(v, i, x)) == Reading(v) <==> !Fills(v, i))
    ensures Absent(v, i) ==> (Assigned(v, i, x) == Reading(v) <==> !MayCreate(v, i))
    ensures !Absent(v, i) && !AttrAt(v, i).writable ==> SetAt(v, i, x) == v
    ensures !Absent(v, i) && v.items[i].value.Accessor? ==>
              (Reading(SetAt(v, i, x)) == Reading(v) <==> !AttrAt(v, i).writable)
    ensures !Absent(v, i) && !v.items[i].value.Accessor? && AttrAt(v, i).writable ==>
              (Assigned(v, i, x) == Reading(v) <==> v.items[i].value == x)
  {
    var w := SetAt(v, i, x);
    if w != v {
      SetAtElements(v, i, x);
      assert i in ElementsOf(w) && ElementsOf(w)[i] == PropertyOf(Slot(x, AttrAt(v, i)));
    }
    if !Absent(v, i) {
      var e := ElementsOf(v);
      assert e[i := e[i]] == e;
      if !v.items[i].value.Accessor? && AttrAt(v, i).writable {
        var p := e[i];
        assert Assigned(v, i, x).elements[i] == p.(value := x);
      }
    } else {
      assert i !in ElementsOf(v);
      if MayCreate(v, i) { assert i in Assigned(v, i, x).elements; }
    }
  }

  // ----- redefinition of an index ----------------------------------------------------------------

  /** The index as the only key of a plain object that is extensible if it may be created. */
  function AsObject(v: ArrayView, i: nat): View {
    if Absent(v, i) then View([], map[], MayCreate(v, i))
    else View(["i"], map["i" := Slot(v.items[i].value, AttrAt(v, i))], MayCreate(v, i))
  }

  /** What the standard leaves of a redefined index; None is a refusal. */
  function Redefined(v: ArrayView, i: nat, d: Descriptor): Option<Property> {
    ValidateAndApply(MayCreate(v, i), d, if Absent(v, i) then None else Some(PropertyOf(CurrentAt(v, i).value)))
  }

  ghost predicate RedefinesAsSpecified(v: ArrayView, i: nat, d: Descriptor) {
    var (w, out) := DefineAt(v, i, d);
    match Redefined(v, i, d)
    case None => out == Rejected && w == v
    case Some(p) =>
      && out == Defined && w.lengthWritable == v.lengthWritable && w.extensible == v.extensible
      && |w.items| == (if i < |v.items| then |v.items| else i + 1)
      && ElementsOf(w) == ElementsOf(v)[i := p]
  }

  /** Redefining an index errs exactly where redefining an ordinary property does. */
  lemma DefineAtIsEcmaExactly(v: ArrayView, i: nat, d: Descriptor)
    requires WellFormed(d) && NoSentinel(d)
    requires forall j :: 0 <= j < |v.items| && v.items[j].Some? ==> SlotOk(v.items[j].value)
    ensures RedefinesAsSpecified(v, i, d) <==>
      !WritableOnlyOnAccessor(AsObject(v, i), "i", d) && !EqualValueRefused(AsObject(v, i), "i", d)
  {
    var o := AsObject(v, i);
    assert Current(o, "i") == CurrentAt(v, i);
    assert CurrentProperty(o, "i") == if Absent(v, i) then None else Some(PropertyOf(CurrentAt(v, i).value));
    RefusalIsEcma(o, "i", d);
    var (w, out) := DefineAt(v, i, d);
    assert out == Define(o, "i", d).1;
    if out == Defined {
      MergeIsEcma(o, "i", d);
      DefineAtElements(v, i, d);
      UpdateInjective(ElementsOf(v), i, PropertyOf(Define(o, "i", d).0.own["i"]), Redefined(v, i, d).value);
    }
  }

  lemma DefineAtElements(v: ArrayView, i: nat, d: Descriptor)
    requires DefineAt(v, i, d).1 == Defined
    ensures var cur := CurrentAt(v, i);
      ElementsOf(DefineAt(v, i, d).0) == ElementsOf(v)[i := PropertyOf(Slot(MergedValue(cur, d), MergedAttrs(cur, d)))]
  {
    var w := DefineAt(v, i, d).0;
    assert AttrAt(w, i) == MergedAttrs(CurrentAt(v, i), d);
    assert forall j: nat :: j != i ==> AttrAt(w, j) == AttrAt(v, j);
    assert forall j: nat :: j != i && j < |v.items| ==> w.items[j] == v.items[j];
    assert forall j: nat :: |v.items| <= j < |w.items| && j != i ==> w.items[j].None?;
  }

  // ----- cutting the length ------------------------------------------------------------------------

  /** ArraySetLength, section 10.4.2.4, for a writable length and a shorter one: elements are
      deleted from the end, down to the new length or to the first that may not go. */
  function CutDown(v: ArrayView, n: nat): (m: nat)
    requires n <= |v.items|
    ensures n <= m <= |v.items|
    decreases |v.items|
  {
    if n == |v.items| then n
    else if Fixed(v, |v.items| - 1) then |v.items|
    else CutDown(v.(items := v.items[..|v.items| - 1]), n)
  }

  /** The standard stops below the last fixed element. */
  lemma {:induction false} CutDownMeaning(v: ArrayView, n: nat)
    requires n <= |v.items|
    ensures var m := CutDown(v, n);
      && n <= m <= |v.items| && (m > n ==> Fixed(v, m - 1))
      && forall i :: m <= i < |v.items| ==> !Fixed(v, i)
    decreases |v.items|
  {
    if n < |v.items| && !Fixed(v, |v.items| - 1) {
      var u := v.(items := v.items[..|v.items| - 1]);
      CutDownMeaning(u, n);
      assert forall i :: 0 <= i < |u.items| ==> Fixed(u, i) == Fixed(v, i);
    }
  }

  /** Shortening an array: the engine refuses as a whole where the standard cuts as far as
      it can, so the two agree exactly when nothing fixed is in the way or the very last
      element is. */
  lemma CutIsEcmaExactly(v: ArrayView, n: nat)
    requires v.lengthWritable && n < |v.items| && n <= MAX_LENGTH
    ensures |SetLength(v, Some(n)).0.items| == CutDown(v, n) <==> CutDown(v, n) == n || Fixed(v, |v.items| - 1)
    ensures (SetLength(v, Some(n)).1 == Defined) <==> CutDown(v, n) == n
    ensures SetLength(v, Some(n)).0.items <= v.items
  {
    CutDownMeaning(v, n);
    var m := CutDown(v, n);
    if m > n {
      assert n <= m - 1 < |v.items| && Fixed(v, m - 1);
    }
  }

  // ----- redefining and assigning the length -------------------------------------------------------

  /** `length` as the property it is. */
  function LengthProperty(v: ArrayView): Property {
    Data(LengthValue(|v.items|), v.lengthWritable, false, false)
  }

  function LengthValue(n: nat): Value {
    Number(Finite(n as real))
  }

  /** OrdinaryDefineOwnProperty of `length`; None is a refusal, otherwise its writability. */
  function DefineLengthProperty(v: ArrayView, d: Descriptor, n: Option<nat>): Option<bool> {
    var value := if n.Some? then Some(LengthValue(n.value)) else None;
    var p := ValidateAndApply(v.extensible, d.(value := value), Some(LengthProperty(v)));
    if p.Some? && p.value.Data? then Some(p.value.writable) else None
  }

  /** ArraySetLength, section 10.4.2.4. `n` is the descriptor's value as a length, if it has
      a value and that is one. */
  function ArraySetLength(v: ArrayView, d: Descriptor, n: Option<nat>): (EcmaArray, Outcome) {
    var a := Reading(v);
    if d.value.None? then
      var w := DefineLengthProperty(v, d, None);
      if w.None? then (a, Rejected) else (a.(lengthWritable := w.value), Defined)
    else if n.None? || n.value > MAX_LENGTH then (a, RangeError)
    else if n.value >= |v.items| then
      var w := DefineLengthProperty(v, d, n);
      if w.None? then (a, Rejected) else (a.(length := n.value, lengthWritable := w.value), Defined)
    else if !v.lengthWritable then (a, Rejected)
    else
      var keep := d.writable != Some(false);
      if DefineLengthProperty(v, if keep then d else d.(writable := Some(true)), n).None? then (a, Rejected)
      else
        var m := CutDown(v, n.value);
        (Reading(v.(items := v.items[..m], lengthWritable := keep)), if m == n.value then Defined else Rejected)
  }

  /** An invalid length that is refused for another reason before it is looked at. */
  predicate RefusedBeforeRange(v: ArrayView, d: Descriptor, n: Option<nat>) {
    && d.value.Some? && (n.None? || n.value > MAX_LENGTH)
    && (d.enumerable == Some(true) || d.configurable == Some(true) || (!v.lengthWritable && d.writable == Some(true)))
  }

  /** A cut that stops at a fixed element: the standard has then removed what lies behind it
      and taken the writability asked for, the engine has done neither. */
  predicate StopsMidway(v: ArrayView, d: Descriptor, n: Option<nat>) {
    && d.value.Some? && n.Some? && n.value < |v.items| && n.value <= MAX_LENGTH && v.lengthWritable
    && d.enumerable != Some(true) && d.configurable != Some(true)
    && CutDown(v, n.value) > n.value
    && (CutDown(v, n.value) < |v.items| || d.writable == Some(false))
  }

  ghost predicate LengthAsSpecified(v: ArrayView, d: Descriptor, n: Option<nat>) {
    var (w, out) := DefineLength(v, d, n);
    (Reading(w), out) == ArraySetLength(v, d, n)
  }

  /** Redefining the length is the standard's except in exactly those two cases. */
  lemma DefineLengthIsEcmaExactly(v: ArrayView, d: Descriptor, n: Option<nat>)
    requires WellFormed(d) && (d.value.None? ==> n.None?)
    ensures LengthAsSpecified(v, d, n) <==> !RefusedBeforeRange(v, d, n) && !StopsMidway(v, d, n)
  {
    LengthPropertyExactly(v, d, n);
    if d.value.Some? && n.Some? && n.value <= MAX_LENGTH {
      if n.value < |v.items| {
        DefineShorterExactly(v, d, n.value);
      } else {
        GrownReads(v, n.value, Or(d.writable, v.lengthWritable));
      }
    }
    assert ElementsOf(v.(lengthWritable := Or(d.writable, v.lengthWritable))) == ElementsOf(v);
  }

  /** What the ordinary redefinition of `length` allows. */
  lemma LengthPropertyExactly(v: ArrayView, d: Descriptor, n: Option<nat>)
    requires WellFormed(d)
    ensures var w := DefineLengthProperty(v, d, n);
      && (IsAccessorDescriptor(d) && n.None? ==> w.None?)
      && (!IsAccessorDescriptor(d) ==>
            w == if d.enumerable == Some(true) || d.configurable == Some(true)
                    || (!v.lengthWritable && (d.writable == Some(true) || (n.Some? && n.value != |v.items|)))
                 then None else Some(Or(d.writable, v.lengthWritable)))
  {
    if n.Some? { assert (n.value as real) == (|v.items| as real) <==> n.value == |v.items|; }
  }

  lemma GrownReads(v: ArrayView, n: nat, writable: bool)
    requires n >= |v.items|
    ensures ElementsOf(v.(items := Grown(v.items, n), lengthWritable := writable)) == ElementsOf(v)
  {
    var w := v.(items := Grown(v.items, n), lengthWritable := writable);
    assert forall j: nat :: j < |v.items| ==> w.items[j] == v.items[j];
    assert forall j: nat :: |v.items| <= j < |w.items| ==> w.items[j].None?;
  }

  lemma DefineShorterExactly(v: ArrayView, d: Descriptor, n: nat)
    requires WellFormed(d) && d.value.Some? && n < |v.items| && n <= MAX_LENGTH
    ensures LengthAsSpecified(v, d, Some(n)) <==> !StopsMidway(v, d, Some(n))
  {
    LengthPropertyExactly(v, d, Some(n));
    LengthPropertyExactly(v, d.(writable := Some(true)), Some(n));
    CutDownMeaning(v, n);
    var m := CutDown(v, n);
    if m > n { assert n <= m - 1 < |v.items| && Fixed(v, m - 1); }
    if m == |v.items| { assert v.items[..m] == v.items; }
  }

  /** Assigning to `length`: a read-only length refuses, anything else is ArraySetLength with
      the value alone. */
  function AssignedLength(v: ArrayView, n: Option<nat>): (EcmaArray, Outcome) {
    if !v.lengthWritable then (Reading(v), Defined)
    else ArraySetLength(v, Descriptor(Some(Undefined), None, None, None, None, None), n)
  }

  /** Assignment leaves what the standard leaves unless a cut stops midway, and fails exactly
      when the standard does, though always with a TypeError. */
  lemma AssignLengthIsEcmaExactly(v: ArrayView, n: Option<nat>)
    ensures var (w, out) := SetLength(v, n);
      && (out == TypeError <==> AssignedLength(v, n).1 != Defined)
      && (Reading(w) == AssignedLength(v, n).0 <==>
          !StopsMidway(v, Descriptor(Some(Undefined), None, None, None, None, None), n))
  {
    var d := Descriptor(Some(Undefined), None, None, None, None, None);
    LengthPropertyExactly(v, d, n);
    if v.lengthWritable && n.Some? && n.value <= MAX_LENGTH {
      if n.value < |v.items| {
        CutDownMeaning(v, n.value);
        var m := CutDown(v, n.value);
        if m > n.value { assert n.value <= m - 1 < |v.items| && Fixed(v, m - 1); }
        if m == |v.items| { assert v.items[..m] == v.items; }
      } else {
        GrownReads(v, n.value, true);
      }
    }
  }
}
