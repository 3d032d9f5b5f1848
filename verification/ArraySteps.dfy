/** Every operation of the histories of arrays against ECMA-262: what one step must leave of
    length, elements, writability and extensibility, and exactly when it does. */
module ArraySteps {
  import opened Wrappers
  import opened Values
  import opened Ordinary
  import opened Ecma
  import opened ArrayModel
  import opened ArrayHistories
  import opened ArrayEcma

  /** What every operation keeps: no entry repeats the default, and stored pairs are made of
      functions. */
  ghost predicate InOrder(v: ArrayView) {
    Tidy(v) && forall j :: 0 <= j < |v.items| && v.items[j].Some? ==> SlotOk(v.items[j].value)
  }

  // ----- the standard ---------------------------------------------------------------------------

  /** Assigning a variable, incremented in between, to one index after the other. */
  function PutCounted(a: EcmaArray, start: nat, from: Float, count: nat): EcmaArray {
    if count == 0 then a
    else PutElement(PutCounted(a, start, from, count - 1), start + count - 1, Number(Counted(from, count - 1)))
  }

  function PutAll(a: EcmaArray, xs: seq<Value>): EcmaArray
    decreases |xs|
  {
    if xs == [] then a
    else
      var before := PutAll(a, xs[..|xs| - 1]);
      PutElement(before, before.length, xs[|xs| - 1])
  }

  /** What a step must leave. Push throws before it writes if it cannot write everything;
      compiled code writes a range only if it can write everything. */
  ghost predicate StepsAsSpecified(v: ArrayView, op: ArrayOp, w: ArrayView) {
    var a, b := Reading(v), Reading(w);
    match op
    case AssignIndex(i, x) => SetElement(v, i, x, []) == Holds(b)
    case AssignLength(n) => b == AssignedLength(v, n).0
    case RemoveIndex(i) =>
      b == if i in a.elements && !a.elements[i].configurable then a else a.(elements := a.elements - {i})
    case RedefineIndex(i, d) =>
      if Malformed(d) then w == v
      else
        (match Redefined(v, i, d)
         case None => w == v
         case Some(p) => b == a.(length := if i < a.length then a.length else i + 1, elements := a.elements[i := p]))
    case RedefineLength(d, n) =>
      if Malformed(d) then w == v else b == ArraySetLength(v, d, if d.value.None? then None else n).0
    case Push(xs) =>
      b == if a.extensible && a.lengthWritable && a.length + |xs| < 0x1_0000_0000 then PutAll(a, xs) else a
    case BulkWrite(start, from, count) =>
      b == if start + count < 0x1_0000_0000 && (forall i :: start <= i < start + count ==> Takes(a, i))
           then PutCounted(a, start, from, count) else a
    case PreventExtensions => b == a.(extensible := false)
    case Restrict(frozen) =>
      b == EcmaArray(a.length, map i | i in a.elements :: AtIntegrity(a.elements[i], frozen),
                     a.lengthWritable && !frozen, false)
  }

  // ----- where the engine departs -----------------------------------------------------------------

  const VALUE_ONLY := Descriptor(Some(Undefined), None, None, None, None, None)

  /** An entry is left over at a missing index of the range. */
  ghost predicate EntryLeft(v: ArrayView, start: nat, count: nat) {
    exists i :: start <= i < start + count && Absent(v, i) && i in v.attrs
  }

  ghost predicate Departs(v: ArrayView, op: ArrayOp) {
    match op
    case AssignIndex(i, x) => !Agrees(v, i, x, [], false)
    case AssignLength(n) => StopsMidway(v, VALUE_ONLY, n)
    case RedefineIndex(i, d) =>
      !Malformed(d) && (WritableOnlyOnAccessor(AsObject(v, i), "i", d) || EqualValueRefused(AsObject(v, i), "i", d))
    case RedefineLength(d, n) => !Malformed(d) && StopsMidway(v, d, n)
    case Push(xs) => CanAppend(v, |xs|) && EntryLeft(v, |v.items|, |xs|)
    case BulkWrite(start, from, count) =>
      count > 0 && CanWriteRange(v, start, count) && (from == NegZero || EntryLeft(v, start, count))
    case _ => false
  }

  // ----- deletion and integrity levels ----------------------------------------------------------------

  /** Deleting is section 10.1.10.1, and it takes the entry with it: an element added later
      starts anew. */
  lemma DeleteIsEcma(v: ArrayView, i: nat)
    ensures var (w, ok) := DeleteAt(v, i); var a := Reading(v);
      && (ok <==> !(i in a.elements && !a.elements[i].configurable))
      && Reading(w) == (if ok then a.(elements := a.elements - {i}) else a)
      && (ok && i in a.elements ==> AttrAt(w, i) == PropAttrs(true, true, true))
      && (forall j :: 0 <= j && j != i ==> AttrAt(w, j) == AttrAt(v, j))
  {
    var (w, ok) := DeleteAt(v, i);
    if ok {
      assert forall j: nat :: j < |v.items| && j != i ==> w.items[j] == v.items[j];
      assert ElementsOf(w) == ElementsOf(v) - {i};
    }
  }

  lemma RestrictIsEcma(v: ArrayView, frozen: bool)
    ensures StepsAsSpecified(v, Restrict(frozen), ArrayHistories.SetIntegrity(v, frozen))
  {
    IntegrityReached(v, frozen);
    var w := ArrayHistories.SetIntegrity(v, frozen);
    forall i: nat | i < |v.items| && v.items[i].Some?
      ensures PropertyOf(Slot(w.items[i].value, AttrAt(w, i))) ==
              AtIntegrity(PropertyOf(Slot(v.items[i].value, AttrAt(v, i))), frozen)
    {
    }
    assert ElementsOf(w) == map i | i in ElementsOf(v) :: AtIntegrity(ElementsOf(v)[i], frozen);
  }

  // ----- bulk writes and appends ------------------------------------------------------------------------

  /** The guard of the engine asks what the standard would ask index by index. */
  lemma GuardIsEcma(v: ArrayView, start: nat, count: nat)
    requires count > 0
    ensures CanWriteRange(v, start, count) <==>
      start + count < 0x1_0000_0000 && forall i :: start <= i < start + count ==> Takes(Reading(v), i)
  {
    var a := Reading(v);
    if start + count < 0x1_0000_0000 && forall i :: start <= i < start + count ==> Takes(a, i) {
      assert Takes(a, start + count - 1);
      forall i | start <= i < start + count && i < |v.items|
        ensures if v.items[i].Some? then !v.items[i].value.Accessor? && AttrAt(v, i).writable else v.extensible
      {
        assert Takes(a, i);
      }
    }
    if CanWriteRange(v, start, count) {
      forall i | start <= i < start + count ensures Takes(a, i) {}
    }
  }

  /** What a sequence of assignments, all of which take effect, leaves at an index. */
  function CountedElement(a: EcmaArray, start: nat, from: Float, count: nat, i: nat): Option<Property> {
    if start <= i < start + count then
      var x := Number(Counted(from, i - start));
      if i in a.elements then Some(Data(x, true, a.elements[i].enumerable, a.elements[i].configurable))
      else Some(Data(x, true, true, true))
    else if i in a.elements then Some(a.elements[i])
    else None
  }

  function ElementIn(a: EcmaArray, i: nat): Option<Property> {
    if i in a.elements then Some(a.elements[i]) else None
  }

  lemma {:induction false} PutCountedMeaning(a: EcmaArray, start: nat, from: Float, count: nat)
    requires (forall i :: i in a.elements ==> i < a.length) && forall i :: start <= i < start + count ==> Takes(a, i)
    ensures var b := PutCounted(a, start, from, count);
      && b.length == (if count == 0 || start + count <= a.length then a.length else start + count)
      && b.lengthWritable == a.lengthWritable && b.extensible == a.extensible
      && forall i :: 0 <= i ==> ElementIn(b, i) == CountedElement(a, start, from, count, i)
  {
    if count > 0 {
      PutCountedMeaning(a, start, from, count - 1);
      var before, last := PutCounted(a, start, from, count - 1), start + count - 1;
      assert Takes(a, last) && ElementIn(before, last) == ElementIn(a, last);
      var b := PutCounted(a, start, from, count);
      forall i | 0 <= i ensures ElementIn(b, i) == CountedElement(a, start, from, count, i) {
        assert ElementIn(before, i) == CountedElement(a, start, from, count - 1, i);
      }
    }
  }

  /** What the bulk write leaves at an index. */
  lemma BulkElement(v: ArrayView, start: nat, from: Float, count: nat, i: nat)
    requires CanWriteRange(v, start, count)
    ensures var e := ElementsOf(WriteRange(v, start, from, count));
      if start <= i < start + count then
        i in e && e[i] ==
          PropertyOf(Slot(Number(FloatPlus(from, i - start)), AttrAt(v, i)))
      else (i in e <==> i in ElementsOf(v)) && (i in e ==> e[i] == ElementsOf(v)[i])
  {
    BulkWrites(v, start, from, count);
  }

  /** Where neither entries nor a negative zero are in the way, element for element. */
  lemma BulkElementIsEcma(v: ArrayView, start: nat, from: Float, count: nat, i: nat)
    requires InOrder(v) && count > 0 && CanWriteRange(v, start, count)
    requires from != NegZero && !EntryLeft(v, start, count)
    ensures var e := ElementsOf(WriteRange(v, start, from, count));
      var b := PutCounted(Reading(v), start, from, count).elements;
      (i in e <==> i in b) && (i in e ==> e[i] == b[i])
  {
    GuardIsEcma(v, start, count);
    PutCountedMeaning(Reading(v), start, from, count);
    var all := PutCounted(Reading(v), start, from, count);
    assert ElementIn(all, i) == CountedElement(Reading(v), start, from, count, i);
    BulkElement(v, start, from, count, i);
    if start <= i < start + count { InRangeIsEcma(v, start, from, count, i); }
  }

  lemma InRangeIsEcma(v: ArrayView, start: nat, from: Float, count: nat, i: nat)
    requires CanWriteRange(v, start, count) && from != NegZero && !EntryLeft(v, start, count)
    requires start <= i < start + count
    ensures CountedElement(Reading(v), start, from, count, i) ==
      Some(PropertyOf(Slot(Number(FloatPlus(from, i - start)), AttrAt(v, i))))
  {
    PlusIsCountingExactly(from, i - start);
  }

  lemma BulkIsEcmaExactly(v: ArrayView, start: nat, from: Float, count: nat)
    requires InOrder(v) && count > 0 && CanWriteRange(v, start, count)
    ensures Reading(WriteRange(v, start, from, count)) == PutCounted(Reading(v), start, from, count) <==>
            !(from == NegZero || EntryLeft(v, start, count))
  {
    var w, b := WriteRange(v, start, from, count), PutCounted(Reading(v), start, from, count);
    if from == NegZero || EntryLeft(v, start, count) {
      BulkDiffers(v, start, from, count);
    } else {
      GuardIsEcma(v, start, count);
      PutCountedMeaning(Reading(v), start, from, count);
      BulkWrites(v, start, from, count);
      forall i: nat ensures (i in ElementsOf(w) <==> i in b.elements)
                            && (i in ElementsOf(w) ==> ElementsOf(w)[i] == b.elements[i]) {
        BulkElementIsEcma(v, start, from, count, i);
      }
      assert ElementsOf(w) == b.elements;
    }
  }

  lemma BulkDiffers(v: ArrayView, start: nat, from: Float, count: nat)
    requires InOrder(v) && count > 0 && CanWriteRange(v, start, count)
    requires from == NegZero || EntryLeft(v, start, count)
    ensures ElementsOf(WriteRange(v, start, from, count)) != PutCounted(Reading(v), start, from, count).elements
  {
    GuardIsEcma(v, start, count);
    PutCountedMeaning(Reading(v), start, from, count);
    var e, b := ElementsOf(WriteRange(v, start, from, count)), PutCounted(Reading(v), start, from, count).elements;
    var all := PutCounted(Reading(v), start, from, count);
    if from == NegZero {
      BulkElement(v, start, from, count, start);
      assert ElementIn(all, start) == CountedElement(Reading(v), start, from, count, start);
      assert Counted(from, 0) == NegZero && FloatPlus(from, 0) == Finite(0.0);
      assert e[start] != b[start];
    } else {
      var i: nat :| start <= i < start + count && Absent(v, i) && i in v.attrs;
      BulkElement(v, start, from, count, i);
      assert ElementIn(all, i) == CountedElement(Reading(v), start, from, count, i);
      assert AttrAt(v, i) != DEFAULT_ATTRS;
      assert e[i] != b[i];
    }
  }

  lemma {:induction false} PutAllMeaning(a: EcmaArray, xs: seq<Value>)
    requires a.extensible && a.lengthWritable && forall i :: i in a.elements ==> i < a.length
    ensures var b := PutAll(a, xs);
      && b.length == a.length + |xs| && b.lengthWritable && b.extensible
      && (forall i :: i in b.elements <==> i in a.elements || a.length <= i < b.length)
      && forall i :: i in b.elements ==>
           b.elements[i] == if i in a.elements then a.elements[i] else Data(xs[i - a.length], true, true, true)
    decreases |xs|
  {
    if xs != [] { PutAllMeaning(a, xs[..|xs| - 1]); }
  }

  lemma PushElement(v: ArrayView, xs: seq<Value>, i: nat)
    requires forall x :: x in xs ==> !x.Accessor?
    ensures var e := ElementsOf(AppendAll(v, xs));
      if |v.items| <= i < |v.items| + |xs| then
        i in e && e[i] == PropertyOf(Slot(xs[i - |v.items|], AttrAt(v, i)))
      else (i in e <==> i in ElementsOf(v)) && (i in e ==> e[i] == ElementsOf(v)[i])
  {
    AppendAllItems(v, xs);
    if |v.items| <= i < |v.items| + |xs| { assert xs[i - |v.items|] in xs; }
  }

  lemma PushIsEcmaExactly(v: ArrayView, xs: seq<Value>)
    requires InOrder(v) && CanAppend(v, |xs|) && forall x :: x in xs ==> !x.Accessor?
    ensures Reading(AppendAll(v, xs)) == PutAll(Reading(v), xs) <==> !EntryLeft(v, |v.items|, |xs|)
  {
    var e, b := ElementsOf(AppendAll(v, xs)), PutAll(Reading(v), xs).elements;
    AppendAllItems(v, xs);
    PutAllMeaning(Reading(v), xs);
    if i: nat :| |v.items| <= i < |v.items| + |xs| && Absent(v, i) && i in v.attrs {
      PushElement(v, xs, i);
      assert AttrAt(v, i) != DEFAULT_ATTRS;
      assert e[i] != b[i];
    } else {
      forall i: nat ensures (i in e <==> i in b) && (i in e ==> e[i] == b[i]) { PushElementIsEcma(v, xs, i); }
      assert e == b;
    }
  }

  lemma PushElementIsEcma(v: ArrayView, xs: seq<Value>, i: nat)
    requires CanAppend(v, |xs|) && (forall x :: x in xs ==> !x.Accessor?) && !EntryLeft(v, |v.items|, |xs|)
    ensures var e, b := ElementsOf(AppendAll(v, xs)), PutAll(Reading(v), xs).elements;
      (i in e <==> i in b) && (i in e ==> e[i] == b[i])
  {
    PutAllMeaning(Reading(v), xs);
    PushElement(v, xs, i);
    if |v.items| <= i < |v.items| + |xs| { assert Absent(v, i) && i !in v.attrs; }
  }

  // ----- the whole ----------------------------------------------------------------------------------

  lemma RedefineIndexExactly(v: ArrayView, i: nat, d: Descriptor)
    requires InOrder(v) && NoSentinel(d)
    ensures StepsAsSpecified(v, RedefineIndex(i, d), DefineAt(v, i, d).0) <==> !Departs(v, RedefineIndex(i, d))
  {
    if !Malformed(d) {
      DefineAtIsEcmaExactly(v, i, d);
      RefusedIsUnchanged(v, i, d);
    }
  }

  /** A refusal leaves the array, and a property redefined is there. */
  lemma RefusedIsUnchanged(v: ArrayView, i: nat, d: Descriptor)
    requires InOrder(v) && WellFormed(d) && NoSentinel(d)
    ensures StepsAsSpecified(v, RedefineIndex(i, d), DefineAt(v, i, d).0) ==> RedefinesAsSpecified(v, i, d)
  {
    var (w, out) := DefineAt(v, i, d);
    var o := AsObject(v, i);
    RefusalIsEcma(o, "i", d);
    assert Current(o, "i") == CurrentAt(v, i) && out == Define(o, "i", d).1;
    assert CurrentProperty(o, "i") == if Absent(v, i) then None else Some(PropertyOf(CurrentAt(v, i).value));
    if out == Rejected && Redefined(v, i, d).Some? {
      assert EqualValueRefused(o, "i", d);
      var e, p := ElementsOf(v), Redefined(v, i, d).value;
      assert p.Data? && p.value == d.value.value && e[i].value != p.value;
      assert e[i := p][i] == p;
    }
  }

  lemma RedefineLengthExactly(v: ArrayView, d: Descriptor, n: Option<nat>)
    ensures StepsAsSpecified(v, RedefineLength(d, n), DefineLength(v, d, n).0) <==> !Departs(v, RedefineLength(d, n))
  {
    if !Malformed(d) { DefineLengthIsEcmaExactly(v, d, if d.value.None? then None else n); }
  }

  lemma PushExactly(v: ArrayView, xs: seq<Value>)
    requires InOrder(v) && Language(Push(xs))
    ensures StepsAsSpecified(v, Push(xs), Step(v, Push(xs))) <==> !Departs(v, Push(xs))
  {
    if CanAppend(v, |xs|) { PushIsEcmaExactly(v, xs); }
  }

  lemma BulkWriteStepExactly(v: ArrayView, start: nat, from: Float, count: nat)
    requires InOrder(v)
    ensures var op := BulkWrite(start, from, count); StepsAsSpecified(v, op, Step(v, op)) <==> !Departs(v, op)
  {
    if count > 0 {
      GuardIsEcma(v, start, count);
      if CanWriteRange(v, start, count) { BulkIsEcmaExactly(v, start, from, count); }
    }
  }

  /** A step on an array is the standard's if and only if it is none of those that depart. */
  lemma StepIsEcmaExactly(v: ArrayView, op: ArrayOp)
    requires InOrder(v) && Language(op)
    ensures StepsAsSpecified(v, op, Step(v, op)) <==> !Departs(v, op)
  {
    match op
    case AssignIndex(i, x) => AssignElementIsEcmaExactly(v, i, x, [], false);
    case AssignLength(n) => AssignLengthIsEcmaExactly(v, n);
    case RemoveIndex(i) => DeleteIsEcma(v, i);
    case RedefineIndex(i, d) => RedefineIndexExactly(v, i, d);
    case RedefineLength(d, n) => RedefineLengthExactly(v, d, n);
    case Push(xs) => PushExactly(v, xs);
    case BulkWrite(start, from, count) => BulkWriteStepExactly(v, start, from, count);
    case PreventExtensions => assert ElementsOf(v.(extensible := false)) == ElementsOf(v);
    case Restrict(frozen) => RestrictIsEcma(v, frozen);
  }

  // ----- whole runs -----------------------------------------------------------------------------------

  lemma StepKeepsOrder(v: ArrayView, op: ArrayOp)
    requires InOrder(v) && Language(op)
    ensures InOrder(Step(v, op))
  {
    match op
    case Restrict(frozen) => RestrictKeepsOrder(v.(extensible := false), |v.items|, frozen);
    case Push(xs) => AppendAllItems(v, xs);
    case BulkWrite(start, from, count) => BulkWrites(v, start, from, count);
    case RedefineIndex(i, d) => RedefineKeepsOrder(v, i, d);
    case _ =>
  }

  lemma RedefineKeepsOrder(v: ArrayView, i: nat, d: Descriptor)
    requires InOrder(v) && NoSentinel(d)
    ensures InOrder(DefineAt(v, i, d).0)
  {
    var w := DefineAt(v, i, d).0;
    if DefineAt(v, i, d).1 == Defined {
      assert SlotOk(MergedValue(CurrentAt(v, i), d));
    }
  }

  lemma {:induction false} RestrictKeepsOrder(v: ArrayView, k: nat, frozen: bool)
    requires InOrder(v) && k <= |v.items|
    ensures InOrder(RestrictBelow(v, k, frozen))
  {
    if k > 0 {
      RestrictKeepsOrder(v, k - 1, frozen);
      var u := RestrictBelow(v, k - 1, frozen);
      RedefineKeepsOrder(u, k - 1, IntegrityAt(u, k - 1, frozen));
    }
  }

  /** The states a history goes through. */
  ghost predicate GoesThrough(v: ArrayView, ops: seq<ArrayOp>, states: seq<ArrayView>) {
    && |states| == |ops| + 1 && states[0] == v
    && forall i :: 0 <= i < |ops| ==> StepOk(states[i], ops[i], states[i + 1])
  }

  ghost predicate StepOk(s: ArrayView, op: ArrayOp, t: ArrayView) {
    InOrder(s) && (StepsAsSpecified(s, op, t) <==> !Departs(s, op))
  }

  /** A history is a sequence of steps, each the standard's unless it departs. */
  lemma {:induction false} RunGoesThrough(v: ArrayView, ops: seq<ArrayOp>) returns (states: seq<ArrayView>)
    requires InOrder(v) && forall op :: op in ops ==> Language(op)
    ensures GoesThrough(v, ops, states) && states[|ops|] == Run(v, ops) && InOrder(Run(v, ops))
    decreases |ops|
  {
    if ops == [] {
      states := [v];
    } else {
      var n := |ops| - 1;
      var before := RunGoesThrough(v, ops[..n]);
      assert ops[n] in ops;
      StepIsEcmaExactly(before[n], ops[n]);
      StepKeepsOrder(before[n], ops[n]);
      states := before + [Run(v, ops)];
      OneStepOn(v, ops, before, Run(v, ops));
    }
  }

  lemma OneStepOn(v: ArrayView, ops: seq<ArrayOp>, before: seq<ArrayView>, t: ArrayView)
    requires ops != [] && GoesThrough(v, ops[..|ops| - 1], before)
    requires StepOk(before[|ops| - 1], ops[|ops| - 1], t)
    ensures GoesThrough(v, ops, before + [t])
  {
    var n := |ops| - 1;
    var states := before + [t];
    forall i | 0 <= i < |ops| ensures StepOk(states[i], ops[i], states[i + 1]) {
      if i < n { assert StepOk(before[i], ops[..n][i], before[i + 1]); }
    }
  }
}
