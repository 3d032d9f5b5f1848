/** Whole histories of operations on a heap of plain objects, without any cache. */
module Histories {
  import opened Wrappers
  import opened Values
  import opened Ordinary
  import opened Descriptors
  import opened Inheritance
  import opened Heaps

  /** One operation of the interpreter on object number `o`. `Create` allocates an empty
      object. A getter that a read or call needs runs between operations; `Record` is what
      a call site does with the method such a getter gave it. `SetDirectly` is the object's
      own `Set`, which builtins such as Object.assign call: it looks for no accessor.
      `StoreNumber` is a probe of compiled code and the guarded store that follows it. */
  datatype Op =
    | Create(proto: Parent)
    | Relink(o: nat, proto: Parent)
    | Read(o: nat, key: string)
    | Assign(o: nat, key: string, value: Value)
    | Invoke(o: nat, key: string, pc: nat)
    | Record(o: nat, key: string, pc: nat, f: Value)
    | Remove(o: nat, key: string)
    | Redefine(o: nat, key: string, d: Descriptor)
    | SetDirectly(o: nat, key: string, value: Value)
    | StoreNumber(o: nat, key: string, number: Float)
    | PreventExtensions(o: nat)
    | Restrict(o: nat, frozen: bool)

  datatype Result =
    | Got(v: Value)
    | GetterRuns(getter: Value)
    | SetterRuns(setter: Value)
    | Elsewhere(id: nat)    // decided behind a prototype that is not a plain object
    | Callee(f: Value)
    | Removed(ok: bool)
    | LinkTaken(ok: bool)
    | Completed(out: Outcome)
    | NoObject

  predicate Language(op: Op) {
    match op
    case Assign(_, _, value) => !value.Accessor?
    case SetDirectly(_, _, value) => !value.Accessor?
    case Redefine(_, _, d) => NoSentinel(d)
    case _ => true
  }

  /** Whether the plain objects decide about the key. */
  ghost predicate Decided(h: Heap, o: nat, key: string)
    requires h.Linked() && o < |h.views|
  {
    End(h, o).Foreign? ==> FirstHolder(Chain(h, o), key).Some?
  }

  ghost function ReadResult(h: Heap, o: nat, key: string): Result
    requires h.Linked() && o < |h.views|
  {
    if !Decided(h, o, key) then Elsewhere(End(h, o).id)
    else match GetProperty(Chain(h, o), key)
      case Is(v) => Got(v)
      case Asks(getter) => GetterRuns(getter)
  }

  function CalleeOf(r: Result): Result {
    if r.Got? then Callee(r.v) else r
  }

  /** What an assignment leaves of the object, and how it ends. */
  ghost function AssignResult(h: Heap, o: nat, key: string, value: Value): (View, Result)
    requires h.Linked() && o < |h.views|
  {
    if !Decided(h, o, key) then (h.views[o], Elsewhere(End(h, o).id))
    else match SetProperty(Chain(h, o), key, value)
      case Leaves(v) => (v, Completed(Defined))
      case Runs(setter) => (h.views[o], SetterRuns(setter))
  }

  /** A store of compiled code: where a number is, another one is put. */
  function StoreOwn(v: View, key: string, number: Float): View {
    if key in v.own && v.own[key].value.Number? then Store(v, key, Number(number)) else v
  }

  /** The operations on one object that its prototypes have no part in. */
  function StepOwn(v: View, op: Op): (View, Result) {
    match op
    case Remove(_, key) => var (v', ok) := DeleteOwn(v, key); (v', Removed(ok))
    case Redefine(_, key, d) => var (v', out) := Define(v, key, d); (v', Completed(out))
    case SetDirectly(_, key, value) => (SetOwn(v, key, value), Completed(Defined))
    case StoreNumber(_, key, number) => (StoreOwn(v, key, number), Completed(Defined))
    case PreventExtensions(_) => (v.(extensible := false), Completed(Defined))
    case Restrict(_, frozen) => (SetIntegrity(v, frozen), Completed(Defined))
    case _ => (v, Completed(Defined))
  }

  ghost function StepView(h: Heap, op: Op): (View, Result)
    requires h.Linked() && !op.Create? && !op.Relink? && op.o < |h.views|
  {
    match op
    case Read(o, key) => (h.views[o], ReadResult(h, o, key))
    case Assign(o, key, value) => AssignResult(h, o, key, value)
    case Invoke(o, key, _) => (h.views[o], CalleeOf(ReadResult(h, o, key)))
    case _ => StepOwn(h.views[op.o], op)
  }

  ghost function Step(h: Heap, op: Op): (r: (Heap, Result))
    requires h.Linked()
    ensures r.0.Linked() && |r.0.views| >= |h.views|
  {
    if op.Create? then
      if InHeap(h, op.proto) then (AddObject(h, op.proto), Completed(Defined)) else (h, NoObject)
    else if op.o >= |h.views| then (h, NoObject)
    else if op.Relink? then
      if !InHeap(h, op.proto) then (h, NoObject)
      else
        var (h', ok) := SetParent(h, op.o, op.proto);
        (h', LinkTaken(ok))
    else
      var (v, res) := StepView(h, op);
      (SetView(h, op.o, v), res)
  }

  ghost function Run(h: Heap, ops: seq<Op>): (r: (Heap, seq<Result>))
    requires h.Linked()
    ensures r.0.Linked() && |r.0.views| >= |h.views|
    decreases |ops|
  {
    if ops == [] then (h, [])
    else
      var (before, results) := Run(h, ops[..|ops| - 1]);
      var (after, res) := Step(before, ops[|ops| - 1]);
      (after, results + [res])
  }

  // ----- what may happen to a property over time -----------------------------------

  /** Legal operations, those of compiled code only if allowed. */
  ghost predicate Legal(ops: seq<Op>, compiled: bool) {
    forall op :: op in ops ==> Language(op) && (op.StoreNumber? ==> compiled)
  }

  /** A non-configurable property keeps its enumerability and its being there, never becomes
      an accessor, and is never changed as one; if not writable it stays as it is, except
      that compiled code overwrites numbers. An accessor has a writable flag, too: it is
      what it was as a data property, and nothing but assignment sees it. */
  predicate SlotLater(s: Slot, t: Slot, compiled: bool) {
    !s.attrs.configurable ==>
      && !t.attrs.configurable && t.attrs.enumerable == s.attrs.enumerable
      && (t.value.Accessor? ==> t == s)
      && (!s.attrs.writable ==> t == s || (compiled && s.value.Number? && t.value.Number? && t.attrs == s.attrs))
  }

  ghost predicate Later(v: View, w: View, compiled: bool) {
    && v.names <= w.names
    && (!v.extensible ==> !w.extensible && w.own.Keys <= v.own.Keys && w.names == v.names)
    && forall k :: k in v.own && !v.own[k].attrs.configurable ==>
         k in w.own && SlotLater(v.own[k], w.own[k], compiled)
  }

  lemma LaterTransitive(u: View, v: View, w: View, compiled: bool)
    requires Later(u, v, compiled) && Later(v, w, compiled)
    ensures Later(u, w, compiled)
  {
    forall k | k in u.own && !u.own[k].attrs.configurable
      ensures k in w.own && SlotLater(u.own[k], w.own[k], compiled)
    {
      assert SlotLater(u.own[k], v.own[k], compiled);
      assert SlotLater(v.own[k], w.own[k], compiled);
    }
  }

  lemma DefineLater(v: View, key: string, d: Descriptor)
    requires v.Valid() && NoSentinel(d)
    ensures Later(v, Define(v, key, d).0, false) && Define(v, key, d).0.Valid()
  {
    DefineReadsBack(v, key, d);
    var (w, out) := Define(v, key, d);
    if out == Defined && key in v.own && !v.own[key].attrs.configurable {
      var s := v.own[key];
      if d.value.Some? && !s.value.Accessor? { SameStored(d.value.value, s.value); }
      if s.value.Accessor? {
        if d.getter.Some? { SameStored(d.getter.value, s.value.getter); }
        if d.setter.Some? { SameStored(d.setter.value, s.value.setter); }
      }
      assert SlotLater(s, w.own[key], false);
    }
  }

  /** The engine's test is only ever passed by the value already stored. */
  lemma SameStored(a: Value, b: Value)
    ensures EngineSameValue(a, b) ==> a == b
  {
    if a.Number? && b.Number? { FloatSameIsEqual(a.f, b.f); }
  }

  lemma {:induction false} RestrictKeysLater(v: View, keys: seq<string>, frozen: bool)
    requires v.Valid()
    ensures Later(v, RestrictKeys(v, keys, frozen), false) && RestrictKeys(v, keys, frozen).Valid()
    decreases keys
  {
    if keys != [] {
      var d := IntegrityDescriptor(v, keys[0], frozen);
      DefineLater(v, keys[0], d);
      var w := Define(v, keys[0], d).0;
      RestrictKeysLater(w, keys[1..], frozen);
      LaterTransitive(v, w, RestrictKeys(v, keys, frozen), false);
    }
  }

  /** Replacing one property by a later one, or adding one where that is allowed. */
  lemma PutLater(v: View, key: string, s: Slot, compiled: bool)
    requires v.Valid() && !s.value.Accessor? && (key !in v.own ==> v.extensible)
    requires key in v.own ==> SlotLater(v.own[key], s, compiled)
    ensures Later(v, Put(v, key, s), compiled) && Put(v, key, s).Valid()
  {
    var w := Put(v, key, s);
    forall k | k in v.own && !v.own[k].attrs.configurable
      ensures k in w.own && SlotLater(v.own[k], w.own[k], compiled)
    {
      assert k != key ==> w.own[k] == v.own[k];
    }
  }

  lemma SetOwnLater(v: View, key: string, value: Value)
    requires v.Valid() && !value.Accessor?
    ensures Later(v, SetOwn(v, key, value), false) && SetOwn(v, key, value).Valid()
  {
    if if key in v.own then v.own[key].attrs.writable else v.extensible {
      PutLater(v, key, Slot(value, if key in v.own then v.own[key].attrs else DEFAULT_ATTRS), false);
    }
  }

  lemma StoreOwnLater(v: View, key: string, number: Float)
    requires v.Valid()
    ensures Later(v, StoreOwn(v, key, number), true) && StoreOwn(v, key, number).Valid()
  {
    if key in v.own && v.own[key].value.Number? {
      PutLater(v, key, Slot(Number(number), v.own[key].attrs), true);
    }
  }

  lemma AssignLater(h: Heap, o: nat, key: string, value: Value)
    requires h.Valid() && o < |h.views| && !value.Accessor?
    ensures var w := AssignResult(h, o, key, value).0; Later(h.views[o], w, false) && w.Valid()
  {
    SetOwnLater(h.views[o], key, value);
    assert AssignResult(h, o, key, value).0 in {h.views[o], SetOwn(h.views[o], key, value)};
  }

  lemma StepOwnLater(v: View, op: Op)
    requires v.Valid() && Language(op)
    ensures Later(v, StepOwn(v, op).0, op.StoreNumber?) && StepOwn(v, op).0.Valid()
  {
    match op
    case Redefine(_, key, d) => DefineLater(v, key, d);
    case SetDirectly(_, key, value) => SetOwnLater(v, key, value);
    case StoreNumber(_, key, number) => StoreOwnLater(v, key, number);
    case Restrict(_, frozen) =>
      var u := v.(extensible := false);
      assert Later(v, u, false) && u.Valid();
      RestrictKeysLater(u, OwnKeys(v), frozen);
      LaterTransitive(v, u, SetIntegrity(v, frozen), false);
    case _ =>
  }

  lemma StepViewLater(h: Heap, op: Op)
    requires h.Valid() && Language(op) && !op.Create? && !op.Relink? && op.o < |h.views|
    ensures Later(h.views[op.o], StepView(h, op).0, op.StoreNumber?) && StepView(h, op).0.Valid()
  {
    if op.Assign? {
      AssignLater(h, op.o, op.key, op.value);
    } else {
      StepOwnLater(h.views[op.o], op);
    }
  }

  lemma StepLater(h: Heap, op: Op, i: nat)
    requires h.Valid() && Language(op) && i < |h.views|
    ensures Step(h, op).0.Valid() && Later(h.views[i], Step(h, op).0.views[i], op.StoreNumber?)
  {
    if !op.Create? && !op.Relink? && op.o < |h.views| {
      StepViewLater(h, op);
    }
  }

  /** Over every history every object only moves forward. */
  lemma {:induction false} RunLater(h: Heap, ops: seq<Op>, i: nat, compiled: bool)
    requires h.Valid() && i < |h.views| && Legal(ops, compiled)
    ensures Run(h, ops).0.Valid() && Later(h.views[i], Run(h, ops).0.views[i], compiled)
    decreases |ops|
  {
    if ops != [] {
      var n := |ops| - 1;
      RunLater(h, ops[..n], i, compiled);
      var before := Run(h, ops[..n]).0;
      assert ops[n] in ops;
      StepLater(before, ops[n], i);
      LaterTransitive(h.views[i], before.views[i], Run(h, ops).0.views[i], compiled);
    }
  }

  // ----- integrity levels ----------------------------------------------------------

  predicate Restricted(v: View, k: string, frozen: bool) {
    k in v.own ==>
      && !v.own[k].attrs.configurable
      && (frozen && !v.own[k].value.Accessor? ==> !v.own[k].attrs.writable)
  }

  /** What a level leaves of a property: not configurable, and if data is frozen not writable. */
  function Tightened(s: Slot, frozen: bool): Slot {
    Slot(s.value, PropAttrs(s.attrs.writable && !(frozen && !s.value.Accessor?), s.attrs.enumerable, false))
  }

  /** No step of seal or freeze is ever refused, so each key ends up restricted, and no more
      than the level asks for. */
  lemma RestrictOne(v: View, key: string, frozen: bool)
    requires v.Valid() && key in v.own
    ensures var (w, out) := Define(v, key, IntegrityDescriptor(v, key, frozen));
      && out == Defined && w == v.(own := v.own[key := Tightened(v.own[key], frozen)])
      && Restricted(w, key, frozen)
  {
  }

  lemma {:induction false} RestrictAll(v: View, keys: seq<string>, frozen: bool)
    requires v.Valid() && forall k :: k in keys ==> k in v.own
    ensures var w := RestrictKeys(v, keys, frozen);
      && w.own.Keys == v.own.Keys && w.names == v.names && w.extensible == v.extensible
      && (forall k :: k in v.own ==> w.own[k] == if k in keys then Tightened(v.own[k], frozen) else v.own[k])
      && (forall k :: k in keys || Restricted(v, k, frozen) ==> Restricted(w, k, frozen))
    decreases keys
  {
    if keys != [] {
      var d := IntegrityDescriptor(v, keys[0], frozen);
      RestrictOne(v, keys[0], frozen);
      DefineLater(v, keys[0], d);
      RestrictAll(Define(v, keys[0], d).0, keys[1..], frozen);
    }
  }

  /** Sealing or freezing always reaches the level it is asked for, and takes away no more:
      values and enumerability stay, every property stops being configurable, and exactly the
      data of a frozen object stops being writable. */
  lemma IntegrityReached(v: View, frozen: bool)
    requires v.Valid()
    ensures var w := SetIntegrity(v, frozen);
      && TestIntegrity(w, frozen) && !w.extensible && w.names == v.names
      && w.own.Keys == v.own.Keys && OwnKeys(w) == OwnKeys(v)
      && forall k :: k in v.own ==>
           && w.own[k].value == v.own[k].value && w.own[k].attrs.enumerable == v.own[k].attrs.enumerable
           && !w.own[k].attrs.configurable
           && (w.own[k].attrs.writable <==> v.own[k].attrs.writable && (!frozen || v.own[k].value.Accessor?))
  {
    LiveNamesSound(v.names, v.own);
    RestrictAll(v.(extensible := false), OwnKeys(v), frozen);
    var w := SetIntegrity(v, frozen);
    forall k | k in v.own ensures Restricted(w, k, frozen) {
      assert k in OwnKeys(v);
    }
    LiveNamesByKeys(v.names, v.own, w.own);
  }

  lemma LiveNamesByKeys(names: seq<string>, own: map<string, Slot>, own': map<string, Slot>)
    requires own.Keys == own'.Keys
    ensures LiveNames(names, own) == LiveNames(names, own')
  {
  }

  // ----- what stays, exactly -----------------------------------------------------------

  /** A property of a frozen object that something still overwrites: a former data property
      assigned to directly, or a number that compiled code stores to. */
  predicate Exposed(s: Slot, compiled: bool) {
    (s.value.Accessor? && s.attrs.writable) || (compiled && s.value.Number?)
  }

  ghost predicate Immutable(h: Heap, i: nat, compiled: bool)
    requires h.Linked() && i < |h.views|
  {
    forall ops :: Legal(ops, compiled) ==> Run(h, ops).0.views[i] == h.views[i]
  }

  ghost predicate StaysAt(h: Heap, i: nat, k: string, compiled: bool)
    requires h.Linked() && i < |h.views| && k in h.views[i].own
  {
    forall ops :: Legal(ops, compiled) ==>
      var w := Run(h, ops).0.views[i]; k in w.own && w.own[k] == h.views[i].own[k]
  }

  lemma RunOne(h: Heap, op: Op)
    requires h.Linked()
    ensures Run(h, [op]).0 == Step(h, op).0
  {
    assert [op][..0] == [] && Run(h, []) == (h, []);
  }

  /** An exposed property is one operation away from another value. */
  lemma ExposedChanges(h: Heap, i: nat, k: string, compiled: bool) returns (op: Op)
    requires h.Valid() && i < |h.views| && k in h.views[i].own && Exposed(h.views[i].own[k], compiled)
    ensures Legal([op], compiled)
    ensures var w := Run(h, [op]).0.views[i]; k in w.own && w.own[k] != h.views[i].own[k] && !w.own[k].value.Accessor?
  {
    var s := h.views[i].own[k];
    op := if s.value.Accessor? then SetDirectly(i, k, Undefined)
          else StoreNumber(i, k, if s.value.f == NaN then PosInf else NaN);
    RunOne(h, op);
  }

  /** A non-configurable property that is not writable, or is an accessor, survives every
      history if and only if it is not exposed. */
  lemma StaysExactly(h: Heap, i: nat, k: string, compiled: bool)
    requires h.Valid() && i < |h.views| && k in h.views[i].own
    requires var s := h.views[i].own[k]; !s.attrs.configurable && (s.value.Accessor? || !s.attrs.writable)
    ensures StaysAt(h, i, k, compiled) <==> !Exposed(h.views[i].own[k], compiled)
  {
    if Exposed(h.views[i].own[k], compiled) {
      var op := ExposedChanges(h, i, k, compiled);
    } else {
      forall ops | Legal(ops, compiled)
        ensures var w := Run(h, ops).0.views[i]; k in w.own && w.own[k] == h.views[i].own[k]
      {
        RunLater(h, ops, i, compiled);
        assert SlotLater(h.views[i].own[k], Run(h, ops).0.views[i].own[k], compiled);
      }
    }
  }

  /** A frozen object is the same after every history if and only if none of its properties
      is exposed: no accessor with its writable flag on and, if there is compiled code, no
      number. */
  lemma FrozenNeverChangesExactly(h: Heap, i: nat, compiled: bool)
    requires h.Valid() && i < |h.views| && TestIntegrity(h.views[i], true)
    ensures Immutable(h, i, compiled) <==> forall k :: k in h.views[i].own ==> !Exposed(h.views[i].own[k], compiled)
  {
    var v := h.views[i];
    if forall k :: k in v.own ==> !Exposed(v.own[k], compiled) {
      forall ops | Legal(ops, compiled) ensures Run(h, ops).0.views[i] == v {
        RunLater(h, ops, i, compiled);
        var w := Run(h, ops).0.views[i];
        forall k | k in v.own ensures k in w.own && w.own[k] == v.own[k] {
          assert SlotLater(v.own[k], w.own[k], compiled);
        }
        assert w.own == v.own;
      }
    } else {
      var k :| k in v.own && Exposed(v.own[k], compiled);
      var op := ExposedChanges(h, i, k, compiled);
    }
  }

  /** A sealed object keeps its keys, their order and enumerability, and data stays data. */
  lemma SealedKeepsShape(h: Heap, ops: seq<Op>, i: nat)
    requires h.Valid() && i < |h.views| && TestIntegrity(h.views[i], false) && Legal(ops, true)
    ensures var v, w := h.views[i], Run(h, ops).0.views[i];
      && TestIntegrity(w, false) && OwnKeys(w) == OwnKeys(v) && w.own.Keys == v.own.Keys
      && forall k :: k in w.own ==>
           && w.own[k].attrs.enumerable == v.own[k].attrs.enumerable
           && (w.own[k].value.Accessor? ==> w.own[k] == v.own[k])
  {
    RunLater(h, ops, i, true);
    var v, w := h.views[i], Run(h, ops).0.views[i];
    forall k | k in v.own ensures k in w.own && SlotLater(v.own[k], w.own[k], true) {}
    assert v.own.Keys == w.own.Keys;
    LiveNamesByKeys(v.names, v.own, w.own);
  }

  ghost predicate KeepsKinds(h: Heap, i: nat)
    requires h.Linked() && i < |h.views|
  {
    forall ops, k :: Legal(ops, true) && k in h.views[i].own ==> SameKind(h.views[i], Run(h, ops).0.views[i], k)
  }

  predicate SameKind(v: View, w: View, k: string)
    requires k in v.own
  {
    k in w.own && w.own[k].value.Accessor? == v.own[k].value.Accessor?
  }

  /** Every property of a sealed object keeps its kind in every history if and only if no
      accessor among them has its writable flag on. */
  lemma SealedKeepsKindsExactly(h: Heap, i: nat)
    requires h.Valid() && i < |h.views| && TestIntegrity(h.views[i], false)
    ensures KeepsKinds(h, i) <==> forall k :: k in h.views[i].own ==> !Exposed(h.views[i].own[k], false)
  {
    var v := h.views[i];
    if forall k :: k in v.own ==> !Exposed(v.own[k], false) {
      forall ops, k | Legal(ops, true) && k in v.own ensures SameKind(v, Run(h, ops).0.views[i], k) {
        RunLater(h, ops, i, true);
        assert SlotLater(v.own[k], Run(h, ops).0.views[i].own[k], true);
      }
    } else {
      var k :| k in v.own && Exposed(v.own[k], false);
      var op := ExposedChanges(h, i, k, false);
      assert Legal([op], true) && !SameKind(v, Run(h, [op]).0.views[i], k);
    }
  }

  /** The link of a non-extensible object never changes (ECMA-262, section 6.1.7.3). */
  lemma {:induction false} LinkStays(h: Heap, ops: seq<Op>, i: nat)
    requires h.Valid() && i < |h.views| && !h.views[i].extensible && Legal(ops, true)
    ensures Run(h, ops).0.parents[i] == h.parents[i] && !Run(h, ops).0.views[i].extensible
    decreases |ops|
  {
    if ops != [] {
      var n := |ops| - 1;
      LinkStays(h, ops[..n], i);
      RunLater(h, ops[..n], i, true);
      assert ops[n] in ops;
      StepLater(Run(h, ops[..n]).0, ops[n], i);
    }
  }

  // ----- how a frozen accessor is overwritten -------------------------------------------

  lemma RunAppend(h: Heap, ops: seq<Op>, op: Op)
    requires h.Linked()
    ensures Run(h, ops + [op]).0 == Step(Run(h, ops).0, op).0
  {
    var all := ops + [op];
    assert all[..|all| - 1] == ops && all[|all| - 1] == op;
  }

  function AccessorFor(getter: Value): Descriptor {
    Descriptor(None, None, None, None, Some(getter), None)
  }

  /** Creating a data property and turning it into an accessor. */
  function MakeAccessor(getter: Value): seq<Op> {
    [Create(NoParent)] + [SetDirectly(0, "x", Null)] + [Redefine(0, "x", AccessorFor(getter))]
  }

  /** And freezing the object. */
  function FreezeAccessor(getter: Value): seq<Op> {
    MakeAccessor(getter) + [Restrict(0, true)]
  }

  function AccessorView(getter: Value): View {
    View(["x"], map["x" := Slot(Accessor(getter, Undefined), DEFAULT_ATTRS)], true)
  }

  /** A heap of one object without prototype. */
  function Alone(v: View): Heap {
    Heap([v], [NoParent], [0])
  }

  /** One more operation on an object alone. */
  lemma RunAlone(ops: seq<Op>, v: View, op: Op, w: View)
    requires Run(EMPTY_HEAP, ops).0 == Alone(v) && (op.Redefine? || op.SetDirectly? || op.Restrict?) && op.o == 0
    requires w == StepOwn(v, op).0
    ensures Run(EMPTY_HEAP, ops + [op]).0 == Alone(w)
  {
    RunAppend(EMPTY_HEAP, ops, op);
    assert [v][0 := w] == [w];
  }

  lemma DefinesAccessor(getter: Value)
    requires getter.Function?
    ensures Define(SetOwn(EMPTY_VIEW, "x", Null), "x", AccessorFor(getter)).0 == AccessorView(getter)
  {
    assert SetOwn(EMPTY_VIEW, "x", Null) == View(["x"], map["x" := Slot(Null, DEFAULT_ATTRS)], true);
  }

  lemma AccessorRuns(getter: Value, u: View, v: View)
    requires u == SetOwn(EMPTY_VIEW, "x", Null) && v == Define(u, "x", AccessorFor(getter)).0
    ensures Run(EMPTY_HEAP, MakeAccessor(getter)).0 == Alone(v)
  {
    RunOne(EMPTY_HEAP, Create(NoParent));
    RunAlone([Create(NoParent)], EMPTY_VIEW, SetDirectly(0, "x", Null), u);
    RunAlone([Create(NoParent)] + [SetDirectly(0, "x", Null)], u, Redefine(0, "x", AccessorFor(getter)), v);
  }

  lemma FreezeAccessorRuns(getter: Value, w: View)
    requires getter.Function? && w == SetIntegrity(AccessorView(getter), true)
    ensures Run(EMPTY_HEAP, FreezeAccessor(getter)).0 == Alone(w)
  {
    DefinesAccessor(getter);
    AccessorRuns(getter, SetOwn(EMPTY_VIEW, "x", Null), AccessorView(getter));
    RunAlone(MakeAccessor(getter), AccessorView(getter), Restrict(0, true), w);
  }

  /** A data property is turned into an accessor, which keeps its writable flag; freezing
      leaves the flag alone; a direct assignment then replaces the accessor. */
  lemma FrozenAccessorIsAssigned(getter: Value, x: Value)
    requires getter.Function? && !x.Accessor?
    ensures var h := Run(EMPTY_HEAP, FreezeAccessor(getter)).0;
      && |h.views| == 1 && TestIntegrity(h.views[0], true) && "x" in h.views[0].own
      && h.views[0].own["x"].value == Accessor(getter, Undefined)
      && SetOwn(h.views[0], "x", x).own["x"].value == x && !Immutable(h, 0, false)
  {
    FreezeAccessorRuns(getter, SetIntegrity(AccessorView(getter), true));
    var h, v := Run(EMPTY_HEAP, FreezeAccessor(getter)).0, AccessorView(getter);
    assert v.Valid();
    IntegrityReached(v, true);
    var s := h.views[0].own["x"];
    assert s.attrs.writable && Exposed(s, false);
    FrozenNeverChangesExactly(h, 0, false);
  }
}
