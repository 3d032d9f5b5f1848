/** Every operation of the interpreter's histories against ECMA-262: what one step must leave
    of the whole heap and return, over properties as the standard has them, and exactly when
    it does. */
module EcmaSteps {
  import opened Values
  import opened Ordinary
  import opened Ecma
  import opened Inheritance
  import opened Heaps
  import opened Histories

  // ----- what it asks of the heap -----------------------------------------------------------------

  /** Only the properties and the extensibility of one object change; the layout keeps its
      names and gains at most one, of a property that is there. */
  ghost predicate Becomes(h: Heap, h': Heap, o: nat, properties: map<string, Property>, extensible: bool)
    requires o < |h.views| == |h'.views|
  {
    && h'.parents == h.parents && (forall i :: 0 <= i < |h.views| && i != o ==> h'.views[i] == h.views[i])
    && Properties(h'.views[o]) == properties && h'.views[o].extensible == extensible
    && h.views[o].names <= h'.views[o].names
    && (h'.views[o].names == h.views[o].names ||
        (|h'.views[o].names| == |h.views[o].names| + 1 && h'.views[o].names[|h.views[o].names|] in h'.views[o].own))
  }

  ghost predicate Stays(h: Heap, h': Heap) {
    h'.views == h.views && h'.parents == h.parents
  }

  /** No plain object on the chain has the key, and the chain goes on to a foreign object. */
  ghost predicate Outside(h: Heap, o: nat, key: string, id: nat)
    requires h.Linked() && o < |h.views|
  {
    && (forall p: nat :: p < |h.views| && Reaches(h, o, p) ==> key !in h.views[p].own)
    && exists p: nat :: p < |h.views| && Reaches(h, o, p) && h.parents[p] == Foreign(id)
  }

  /** A read; `f` is what its user does with a value. */
  ghost predicate Reads(h: Heap, o: nat, key: string, h': Heap, res: Result, f: Value -> Result)
    requires h.Linked() && o < |h.views|
  {
    && Stays(h, h')
    && if exists id :: Outside(h, o, key, id) then exists id :: Outside(h, o, key, id) && res == Elsewhere(id)
       else match OrdinaryGet(Chain(h, o), key)
         case Is(v) => res == f(v)
         case Asks(getter) => res == GetterRuns(getter)
  }

  /** OrdinarySet on the plain part of the chain. */
  ghost predicate Sets(h: Heap, o: nat, key: string, value: Value, h': Heap, res: Result)
    requires h.Linked() && o < |h.views| == |h'.views|
  {
    match OrdinarySet(h.views[o], Chain(h, o), key, value)
    case Holds(properties) =>
      Becomes(h, h', o, properties, h.views[o].extensible) && res == Completed(Defined)
    case Calls(setter) => Stays(h, h') && res == SetterRuns(setter)
  }

  /** A step as the standard has it. A foreign prototype is asked by reads and assignments of
      the program; for the assignments of builtins it counts as not having the key. Compiled
      code assigns where it finds a number. */
  ghost predicate StepsAsSpecified(h: Heap, op: Op, h': Heap, res: Result)
    requires h.Linked()
  {
    if op.Create? then
      if op.proto.At? && op.proto.o >= |h.views| then Stays(h, h') && res == NoObject
      else
        && res == Completed(Defined) && h'.parents == h.parents + [op.proto]
        && |h'.views| == |h.views| + 1 && h'.views[..|h.views|] == h.views
        && Properties(h'.views[|h.views|]) == map[] && h'.views[|h.views|].extensible
    else if op.o >= |h.views| || (op.Relink? && op.proto.At? && op.proto.o >= |h.views|) then
      Stays(h, h') && res == NoObject
    else |h'.views| == |h.views| && ChangesAsSpecified(h, op, h', res)
  }

  ghost predicate ChangesAsSpecified(h: Heap, op: Op, h': Heap, res: Result)
    requires h.Linked() && !op.Create? && op.o < |h.views| == |h'.views|
    requires op.Relink? && op.proto.At? ==> op.proto.o < |h.views|
  {
    var v := h.views[op.o];
    match op
    case Relink(o, p) =>
      var ok := h.parents[o] == p || (v.extensible && !(p.At? && Reaches(h, p.o, o)));
      res == LinkTaken(ok) && h'.views == h.views && h'.parents == if ok then h.parents[o := p] else h.parents
    case Read(o, key) => Reads(h, o, key, h', res, x => Got(x))
    case Invoke(o, key, _) => Reads(h, o, key, h', res, x => Callee(x))
    case Record(_, _, _, _) => Stays(h, h') && res == Completed(Defined)
    case Assign(o, key, value) =>
      if exists id :: Outside(h, o, key, id) then
        Stays(h, h') && exists id :: Outside(h, o, key, id) && res == Elsewhere(id)
      else Sets(h, o, key, value, h', res)
    case SetDirectly(o, key, value) => Sets(h, o, key, value, h', res)
    case StoreNumber(o, key, number) =>
      if key in v.own && v.own[key].value.Number? then Sets(h, o, key, Number(number), h', res)
      else Stays(h, h') && res == Completed(Defined)
    case Remove(o, key) =>
      var ok := key !in Properties(v) || Properties(v)[key].configurable;
      res == Removed(ok) && Becomes(h, h', o, if ok then Properties(v) - {key} else Properties(v), v.extensible)
    case Redefine(o, key, d) =>
      && res.Completed? && h'.parents == h.parents
      && (forall i :: 0 <= i < |h.views| && i != o ==> h'.views[i] == h.views[i])
      && if Malformed(d) then res.out == TypeError && h'.views[o] == v
         else DefinesAsSpecified(v, key, d, h'.views[o], res.out)
    case PreventExtensions(o) => res == Completed(Defined) && Becomes(h, h', o, Properties(v), false)
    case Restrict(o, frozen) =>
      && res == Completed(Defined)
      && Becomes(h, h', o, map k | k in Properties(v) :: AtIntegrity(Properties(v)[k], frozen), false)
  }

  /** Where the engine does something else: it shadows a read-only property, assigns past an
      accessor, overwrites a read-only number, or errs in a redefinition. */
  ghost predicate Departs(h: Heap, op: Op)
    requires h.Linked()
  {
    if op.Create? || op.o >= |h.views| then false
    else
      var v := h.views[op.o];
      match op
      case Assign(o, key, _) => (forall id :: !Outside(h, o, key, id)) && ShadowsReadOnly(Chain(h, o), key)
      case SetDirectly(o, key, _) => !SetsDirectly(Chain(h, o), key)
      case StoreNumber(_, key, number) =>
        key in v.own && v.own[key].value.Number? && !v.own[key].attrs.writable && v.own[key].value.f != number
      case Redefine(_, key, d) =>
        !Malformed(d) && (WritableOnlyOnAccessor(v, key, d) || EqualValueRefused(v, key, d))
      case _ => false
  }

  // ----- the parts --------------------------------------------------------------------------------

  /** The chain of plain objects ends in what some object of it is linked to. */
  lemma {:induction false} EndIsLink(h: Heap, o: nat, id: nat)
    requires h.Linked() && o < |h.views|
    ensures End(h, o) == Foreign(id) <==>
            exists p: nat :: p < |h.views| && Reaches(h, o, p) && h.parents[p] == Foreign(id)
    decreases h.ranks[o]
  {
    if h.parents[o].At? {
      var q := h.parents[o].o;
      EndIsLink(h, q, id);
      if p: nat :| p < |h.views| && Reaches(h, q, p) && h.parents[p] == Foreign(id) { assert Reaches(h, o, p); }
      if p: nat :| p < |h.views| && Reaches(h, o, p) && h.parents[p] == Foreign(id) { assert Reaches(h, q, p); }
    } else if End(h, o) == Foreign(id) {
      assert Reaches(h, o, o) && h.parents[o] == Foreign(id);
    }
  }

  /** When the plain objects do not decide. */
  lemma OutsideExactly(h: Heap, o: nat, key: string, id: nat)
    requires h.Linked() && o < |h.views|
    ensures Outside(h, o, key, id) <==> !Decided(h, o, key) && End(h, o) == Foreign(id)
  {
    EndIsLink(h, o, id);
    MissingIffNobodyHolds(h, o, key);
  }

  lemma DecidedExactly(h: Heap, o: nat, key: string)
    requires h.Linked() && o < |h.views|
    ensures Decided(h, o, key) <==> forall id :: !Outside(h, o, key, id)
  {
    forall id ensures Outside(h, o, key, id) <==> !Decided(h, o, key) && End(h, o) == Foreign(id) {
      OutsideExactly(h, o, key, id);
    }
    if !Decided(h, o, key) { assert Outside(h, o, key, End(h, o).id); }
  }

  /** The result of a read is the standard's. */
  lemma ReadIsEcma(h: Heap, o: nat, key: string)
    requires h.Linked() && o < |h.views|
    ensures Reads(h, o, key, h, ReadResult(h, o, key), x => Got(x))
    ensures Reads(h, o, key, h, CalleeOf(ReadResult(h, o, key)), x => Callee(x))
  {
    DecidedExactly(h, o, key);
    GetIsEcma(Chain(h, o), key);
    if !Decided(h, o, key) {
      OutsideExactly(h, o, key, End(h, o).id);
      assert Outside(h, o, key, End(h, o).id);
    }
  }

  /** Assigning on the view: the layout and extensibility. */
  lemma SetOwnLayout(v: View, key: string, value: Value)
    ensures var w := SetOwn(v, key, value);
      && w.extensible == v.extensible && v.names <= w.names
      && (w.names == v.names || (w.names == v.names + [key] && key in w.own))
  {
  }

  /** An effect of the engine on one object is the standard's if and only if the heap is. */
  lemma SetsExactly(h: Heap, o: nat, key: string, value: Value, v: View)
    requires h.Valid() && o < |h.views| && v in {h.views[o], SetOwn(h.views[o], key, value)}
    ensures Sets(h, o, key, value, SetView(h, o, v), Completed(Defined)) <==>
            SameEffect(Leaves(v), OrdinarySet(h.views[o], Chain(h, o), key, value))
  {
    SetOwnLayout(h.views[o], key, value);
  }

  lemma AssignExactly(h: Heap, o: nat, key: string, value: Value)
    requires h.Valid() && o < |h.views| && !value.Accessor?
    ensures var op := Assign(o, key, value);
      StepsAsSpecified(h, op, Step(h, op).0, Step(h, op).1) <==> !Departs(h, op)
  {
    DecidedExactly(h, o, key);
    var op := Assign(o, key, value);
    if Decided(h, o, key) {
      SetIsEcmaExactly(Chain(h, o), key, value);
      match SetProperty(Chain(h, o), key, value)
      case Leaves(v) => SetsExactly(h, o, key, value, v);
      case Runs(setter) => assert SetView(h, o, h.views[o]) == h;
    } else {
      OutsideExactly(h, o, key, End(h, o).id);
      assert Outside(h, o, key, End(h, o).id);
      assert SetView(h, o, h.views[o]) == h;
    }
  }

  lemma SetDirectlyExactly(h: Heap, o: nat, key: string, value: Value)
    requires h.Valid() && o < |h.views| && !value.Accessor?
    ensures var op := SetDirectly(o, key, value);
      StepsAsSpecified(h, op, Step(h, op).0, Step(h, op).1) <==> !Departs(h, op)
  {
    DirectSetIsEcmaExactly(Chain(h, o), key, value);
    SetsExactly(h, o, key, value, SetOwn(h.views[o], key, value));
  }

  lemma StoreNumberExactly(h: Heap, o: nat, key: string, number: Float)
    requires h.Valid() && o < |h.views|
    ensures var op := StoreNumber(o, key, number);
      StepsAsSpecified(h, op, Step(h, op).0, Step(h, op).1) <==> !Departs(h, op)
  {
    var v, op := h.views[o], StoreNumber(o, key, number);
    var w := StoreOwn(v, key, number);
    if key in v.own && v.own[key].value.Number? {
      var set_ := SetOwn(v, key, Number(number));
      OrdinarySetAtHolder(v, Chain(h, o), key, Number(number));
      AssignIsEcma(v, key, Number(number));
      if v.own[key].attrs.writable {
        assert w == set_;
        SetsExactly(h, o, key, Number(number), w);
      } else {
        assert Properties(w)[key] == PropertyOf(Slot(Number(number), v.own[key].attrs));
        if v.own[key].value.f == number {
          assert v.own[key := v.own[key]] == v.own && w == v;
          SetsExactly(h, o, key, Number(number), v);
        } else {
          assert Properties(w)[key] != Properties(v)[key];
        }
      }
    } else {
      assert SetView(h, o, v) == h;
    }
  }

  lemma RedefineExactly(h: Heap, o: nat, key: string, d: Descriptor)
    requires h.Valid() && o < |h.views| && NoSentinel(d)
    ensures var op := Redefine(o, key, d);
      StepsAsSpecified(h, op, Step(h, op).0, Step(h, op).1) <==> !Departs(h, op)
  {
    if !Malformed(d) { DefineIsEcmaExactly(h.views[o], key, d); }
  }

  lemma RemoveIsEcma(h: Heap, o: nat, key: string)
    requires h.Valid() && o < |h.views|
    ensures var op := Remove(o, key); StepsAsSpecified(h, op, Step(h, op).0, Step(h, op).1)
  {
    DeleteIsEcma(h.views[o], key);
  }

  /** SetIntegrityLevel and TestIntegrityLevel, over properties. */
  lemma IntegrityIsEcma(v: View, frozen: bool)
    requires v.Valid()
    ensures Properties(SetIntegrity(v, frozen)) == map k | k in Properties(v) :: AtIntegrity(Properties(v)[k], frozen)
    ensures !SetIntegrity(v, frozen).extensible && SetIntegrity(v, frozen).names == v.names
    ensures TestIntegrity(v, frozen) <==> IsAtIntegrity(v, frozen)
  {
    IntegrityReached(v, frozen);
    var w := SetIntegrity(v, frozen);
    forall k | k in v.own ensures PropertyOf(w.own[k]) == AtIntegrity(PropertyOf(v.own[k]), frozen) {}
  }

  lemma RestrictIsEcma(h: Heap, o: nat, frozen: bool)
    requires h.Valid() && o < |h.views|
    ensures var op := Restrict(o, frozen); StepsAsSpecified(h, op, Step(h, op).0, Step(h, op).1)
  {
    IntegrityIsEcma(h.views[o], frozen);
  }

  // ----- the whole ----------------------------------------------------------------------------------

  /** A step of the interpreter is the standard's, down to every other object and the result, if
      and only if it is none of the four kinds that depart. */
  lemma StepIsEcmaExactly(h: Heap, op: Op)
    requires h.Valid() && Language(op)
    ensures StepsAsSpecified(h, op, Step(h, op).0, Step(h, op).1) <==> !Departs(h, op)
  {
    if op.Create? || op.o >= |h.views| || op.Relink? {
      LinksAreEcma(h, op);
    } else {
      match op
      case Assign(o, key, value) => AssignExactly(h, o, key, value);
      case SetDirectly(o, key, value) => SetDirectlyExactly(h, o, key, value);
      case StoreNumber(o, key, number) => StoreNumberExactly(h, o, key, number);
      case Redefine(o, key, d) => RedefineExactly(h, o, key, d);
      case Remove(o, key) => RemoveIsEcma(h, o, key);
      case Restrict(o, frozen) => RestrictIsEcma(h, o, frozen);
      case _ => PropertiesStay(h, op);
    }
  }

  /** Operations that leave the properties alone. */
  lemma PropertiesStay(h: Heap, op: Op)
    requires h.Valid() && (op.Read? || op.Invoke? || op.Record? || op.PreventExtensions?) && op.o < |h.views|
    ensures StepsAsSpecified(h, op, Step(h, op).0, Step(h, op).1)
  {
    assert SetView(h, op.o, h.views[op.o]) == h;
    if op.PreventExtensions? {
      assert Properties(h.views[op.o].(extensible := false)) == Properties(h.views[op.o]);
    } else if !op.Record? {
      ReadIsEcma(h, op.o, op.key);
    }
  }

  /** Creation and relinking; OrdinarySetPrototypeOf of section 10.1.2.1. */
  lemma LinksAreEcma(h: Heap, op: Op)
    requires h.Valid() && (op.Create? || op.o >= |h.views| || op.Relink?)
    ensures StepsAsSpecified(h, op, Step(h, op).0, Step(h, op).1)
  {
    if op.Create? && InHeap(h, op.proto) {
      var h' := AddObject(h, op.proto);
      assert h'.views[..|h.views|] == h.views && Properties(EMPTY_VIEW) == map[];
    } else if op.Relink? && op.o < |h.views| && h.parents[op.o] == op.proto {
      assert h.parents[op.o := op.proto] == h.parents;
    }
  }

  // ----- whole runs -----------------------------------------------------------------------------------

  /** The states a history goes through: each step follows from the one before. */
  ghost predicate GoesThrough(h: Heap, ops: seq<Op>, states: seq<Heap>, results: seq<Result>) {
    && |states| == |ops| + 1 && |results| == |ops| && states[0] == h
    && forall i :: 0 <= i < |ops| ==> StepOk(states[i], ops[i], states[i + 1], results[i])
  }

  ghost predicate StepOk(s: Heap, op: Op, t: Heap, res: Result) {
    s.Valid() && t.Linked() && (StepsAsSpecified(s, op, t, res) <==> !Departs(s, op))
  }

  /** A history is a sequence of steps, each the standard's unless it departs. */
  lemma {:induction false} RunGoesThrough(h: Heap, ops: seq<Op>) returns (states: seq<Heap>)
    requires h.Valid() && forall op :: op in ops ==> Language(op)
    ensures GoesThrough(h, ops, states, Run(h, ops).1) && states[|ops|] == Run(h, ops).0 && Run(h, ops).0.Valid()
    decreases |ops|
  {
    if ops == [] {
      states := [h];
    } else {
      var n := |ops| - 1;
      var before := RunGoesThrough(h, ops[..n]);
      var s := Run(h, ops[..n]).0;
      assert ops[n] in ops;
      StepIsEcmaExactly(s, ops[n]);
      StepKeepsValid(s, ops[n]);
      states := before + [Run(h, ops).0];
      OneStepOn(h, ops, before, Run(h, ops[..n]).1, Run(h, ops).0, Step(s, ops[n]).1);
    }
  }

  lemma OneStepOn(h: Heap, ops: seq<Op>, before: seq<Heap>, results: seq<Result>, t: Heap, res: Result)
    requires ops != [] && GoesThrough(h, ops[..|ops| - 1], before, results)
    requires StepOk(before[|ops| - 1], ops[|ops| - 1], t, res)
    ensures GoesThrough(h, ops, before + [t], results + [res])
  {
    var n := |ops| - 1;
    var states, all := before + [t], results + [res];
    forall i | 0 <= i < |ops| ensures StepOk(states[i], ops[i], states[i + 1], all[i]) {
      if i < n { assert StepOk(before[i], ops[..n][i], before[i + 1], results[i]); }
    }
  }

  lemma StepKeepsValid(h: Heap, op: Op)
    requires h.Valid() && Language(op)
    ensures Step(h, op).0.Valid()
  {
    if |h.views| > 0 {
      StepLater(h, op, 0);
    } else {
      assert forall i :: 0 <= i < |Step(h, op).0.views| ==> Step(h, op).0.views[i] == EMPTY_VIEW;
    }
  }

  // ----- reading back ------------------------------------------------------------------------------------

  /** The assignment reaches the object: the plain objects decide, the nearest property is not
      an accessor, and the own one is writable or can be created. */
  ghost predicate TakesValue(h: Heap, o: nat, key: string)
    requires h.Linked() && o < |h.views|
  {
    && (forall id :: !Outside(h, o, key, id))
    && (forall p :: HeldFirst(Chain(h, o), key, p) ==> p.Data?)
    && match CurrentProperty(h.views[o], key)
       case Some(p) => p.Data? && p.writable
       case None => h.views[o].extensible
  }

  /** The property that a walk up the chain meets first. */
  ghost predicate HeldFirst(chain: seq<View>, key: string, p: Property) {
    exists i :: 0 <= i < |chain| && key in chain[i].own && PropertyOf(chain[i].own[key]) == p
                && forall j :: 0 <= j < i ==> key !in chain[j].own
  }

  lemma {:induction false} FirstHolderIsFirst(chain: seq<View>, key: string, p: Property)
    ensures var holder := FirstHolder(chain, key);
      HeldFirst(chain, key, p) <==> holder.Some? && PropertyOf(holder.value) == p
  {
    if chain != [] {
      FirstHolderIsFirst(chain[1..], key, p);
      if key !in chain[0].own {
        if i :| 0 <= i < |chain[1..]| && key in chain[1..][i].own && PropertyOf(chain[1..][i].own[key]) == p
                && forall j :: 0 <= j < i ==> key !in chain[1..][j].own {
          assert chain[i + 1] == chain[1..][i];
          assert forall j :: 0 <= j < i + 1 ==> j == 0 || chain[j] == chain[1..][j - 1];
        }
        if i :| 0 <= i < |chain| && key in chain[i].own && PropertyOf(chain[i].own[key]) == p
                && forall j :: 0 <= j < i ==> key !in chain[j].own {
          assert chain[i] == chain[1..][i - 1];
          assert forall j :: 0 <= j < i - 1 ==> chain[1..][j] == chain[j + 1];
        }
      }
    }
  }

  lemma NearestIsData(chain: seq<View>, key: string)
    ensures (forall p :: HeldFirst(chain, key, p) ==> p.Data?) <==>
            !(FirstHolder(chain, key).Some? && FirstHolder(chain, key).value.value.Accessor?)
  {
    var holder := FirstHolder(chain, key);
    if holder.Some? { FirstHolderIsFirst(chain, key, PropertyOf(holder.value)); }
    forall p | HeldFirst(chain, key, p) ensures holder.Some? && PropertyOf(holder.value) == p {
      FirstHolderIsFirst(chain, key, p);
    }
  }

  /** A value assigned is read back if the assignment reaches the object; where it does not,
      the heap stays as it is. */
  lemma AssignedReadsBack(h: Heap, o: nat, key: string, value: Value)
    requires h.Valid() && o < |h.views| && !value.Accessor?
    ensures var h' := Step(h, Assign(o, key, value)).0;
      if TakesValue(h, o, key) then Step(h', Read(o, key)).1 == Got(value) else h' == h
  {
    DecidedExactly(h, o, key);
    NearestIsData(Chain(h, o), key);
    var h' := Step(h, Assign(o, key, value)).0;
    assert SetView(h, o, h.views[o]) == h;
    if TakesValue(h, o, key) {
      var w := SetOwn(h.views[o], key, value);
      assert h' == SetView(h, o, w) && key in w.own && w.own[key].value == value;
      assert Chain(h', o)[0] == w;
    }
  }
}
