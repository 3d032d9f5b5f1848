/** The two invariants of section 6.1.7.3 of ECMA-262 that arrays can break: what decides
    whether a non-extensible array gains an index, and whether an accessor element stays. */
module ArrayInvariants {
  import opened Wrappers
  import opened Values
  import opened Ordinary
  import opened ArrayModel
  import opened ArrayHistories

  ghost predicate AllLanguage(ops: seq<ArrayOp>) {
    forall op :: op in ops ==> Language(op)
  }

  // ----- new indices on a non-extensible array ------------------------------------------------

  /** How long a non-extensible array can get. */
  function Reach(v: ArrayView): nat {
    if v.lengthWritable && |v.items| < MAX_LENGTH then MAX_LENGTH else |v.items|
  }

  /** A missing index that assignment can fill, once the length covers it. */
  predicate Fillable(v: ArrayView, i: nat) {
    Absent(v, i) && i < Reach(v) && AttrAt(v, i).writable
  }

  ghost predicate GainsNothing(v: ArrayView) {
    forall ops, i: nat :: AllLanguage(ops) && Absent(v, i) ==> Absent(Run(v, ops), i)
  }

  /** `w` is a later state of the non-extensible array `v`, with nothing gained. */
  ghost predicate StillClosed(v: ArrayView, w: ArrayView) {
    && !w.extensible && (w.lengthWritable ==> v.lengthWritable) && |w.items| <= Reach(v)
    && forall i: nat :: Absent(v, i) ==> UntouchedAt(v, w, i)
  }

  predicate UntouchedAt(v: ArrayView, w: ArrayView, i: nat) {
    Absent(w, i) && AttrAt(w, i) == AttrAt(v, i)
  }

  lemma ClosedStep(v: ArrayView, w: ArrayView, op: ArrayOp)
    requires (forall i: nat :: !Fillable(v, i)) && StillClosed(v, w) && Language(op)
    ensures StillClosed(v, Step(w, op))
  {
    var u := Step(w, op);
    assert !u.extensible && (u.lengthWritable ==> v.lengthWritable) && |u.items| <= Reach(v) by {
      ClosedLength(v, w, op);
    }
    forall i: nat | Absent(v, i) ensures UntouchedAt(v, u, i) {
      assert UntouchedAt(v, w, i) && !Fillable(v, i);
      ClosedAt(v, w, op, i);
    }
  }

  lemma ClosedLength(v: ArrayView, w: ArrayView, op: ArrayOp)
    requires StillClosed(v, w) && Language(op)
    ensures var u := Step(w, op); !u.extensible && (u.lengthWritable ==> v.lengthWritable) && |u.items| <= Reach(v)
  {
    if op.Restrict? { IntegrityReached(w, op.frozen); }
    if op.Push? { AppendAllItems(w, op.xs); }
  }

  lemma ClosedAt(v: ArrayView, w: ArrayView, op: ArrayOp, i: nat)
    requires StillClosed(v, w) && Language(op) && Absent(v, i) && UntouchedAt(v, w, i) && !Fillable(v, i)
    ensures UntouchedAt(v, Step(w, op), i)
  {
    match op
    case Restrict(frozen) => IntegrityReached(w, frozen);
    case Push(xs) => AppendAllItems(w, xs);
    case BulkWrite(start, from, count) => BulkClosed(w, start, from, count, i);
    case _ =>
  }

  lemma BulkClosed(w: ArrayView, start: nat, from: Float, count: nat, i: nat)
    requires !w.extensible && Absent(w, i)
    ensures UntouchedAt(w, Step(w, BulkWrite(start, from, count)), i)
  {
  }

  lemma {:induction false} ClosedRun(v: ArrayView, ops: seq<ArrayOp>)
    requires !v.extensible && (forall i: nat :: !Fillable(v, i)) && AllLanguage(ops)
    ensures StillClosed(v, Run(v, ops))
    decreases |ops|
  {
    if ops != [] {
      var n := |ops| - 1;
      ClosedRun(v, ops[..n]);
      assert ops[n] in ops;
      ClosedStep(v, Run(v, ops[..n]), ops[n]);
    }
  }

  /** A non-extensible array gains no index in any history if and only if every missing
      index it can reach carries a read-only entry. */
  lemma GainsNothingExactly(v: ArrayView)
    requires !v.extensible
    ensures GainsNothing(v) <==> forall i: nat :: !Fillable(v, i)
  {
    if forall i: nat :: !Fillable(v, i) {
      forall ops, i: nat | AllLanguage(ops) && Absent(v, i) ensures Absent(Run(v, ops), i) {
        ClosedRun(v, ops);
        assert UntouchedAt(v, Run(v, ops), i);
      }
    } else {
      var i: nat :| Fillable(v, i);
      var ops := GainingRun(v, i);
      assert AllLanguage(ops) && Absent(v, i);
    }
  }

  /** Making the array long enough, if it is not, and assigning. */
  lemma GainingRun(v: ArrayView, i: nat) returns (ops: seq<ArrayOp>)
    requires !v.extensible && Fillable(v, i)
    ensures AllLanguage(ops) && !Absent(Run(v, ops), i)
  {
    var fill := AssignIndex(i, Undefined);
    if i < |v.items| {
      ops := [fill];
      assert ops[..0] == [] && Run(v, []) == v;
    } else {
      var grow := AssignLength(Some(i + 1));
      ops := [grow, fill];
      assert ops[..1] == [grow] && [grow][..0] == [] && Run(v, []) == v;
      assert Run(v, [grow]) == v.(items := Grown(v.items, i + 1));
      assert Run(v, ops) == SetAt(Run(v, [grow]), i, Undefined);
    }
  }

  // ----- accessor elements ---------------------------------------------------------------------

  ghost predicate Stays(v: ArrayView, i: nat)
    requires i < |v.items|
  {
    forall ops :: AllLanguage(ops) ==> SameAt(v, Run(v, ops), i)
  }

  /** A non-configurable accessor element survives every history if and only if its hidden
      writable flag is off. */
  lemma AccessorStaysExactly(v: ArrayView, i: nat)
    requires FixedAccessor(v, i)
    ensures Stays(v, i) <==> !AttrAt(v, i).writable
  {
    if !AttrAt(v, i).writable {
      forall ops | AllLanguage(ops) ensures SameAt(v, Run(v, ops), i) {
        RunLater(v, ops);
        assert ElementLater(v, Run(v, ops), i);
      }
    } else {
      var ops := [AssignIndex(i, Undefined)];
      assert ops[..0] == [] && Run(v, []) == v && AllLanguage(ops);
      assert !SameAt(v, Run(v, ops), i);
    }
  }

  // ----- how such arrays come about --------------------------------------------------------------

  /** Freezing keeps the flag of a data element that was turned into an accessor: the frozen
      element is then overwritten by assignment. */
  lemma FrozenAccessorIsOverwritten(x: Value, getter: Value)
    requires !x.Accessor? && getter.Function?
    ensures var d := Descriptor(None, None, None, None, Some(getter), None);
      var v := Run(ArrayView([Some(x)], true, map[], true), [RedefineIndex(0, d), Restrict(true)]);
      ArrayHistories.TestIntegrity(v, true) && FixedAccessor(v, 0) && AttrAt(v, 0).writable && !Stays(v, 0)
  {
    var v0 := ArrayView([Some(x)], true, map[], true);
    var d := Descriptor(None, None, None, None, Some(getter), None);
    var ops := [RedefineIndex(0, d), Restrict(true)];
    assert ops[..1] == [RedefineIndex(0, d)] && [RedefineIndex(0, d)][..0] == [] && Run(v0, []) == v0;
    var v1 := DefineAt(v0, 0, d).0;
    assert Run(v0, ops[..1]) == v1 && v1.items == [Some(Accessor(getter, Undefined))];
    var v := Run(v0, ops);
    assert v == ArrayHistories.SetIntegrity(v1, true);
    IntegrityReached(v1, true);
    assert AttrAt(v, 0).writable;
    assert RestrictedAt(v, 0, true);
    AccessorStaysExactly(v, 0);
  }

  /** A read-only element, cut off and covered again, leaves a read-only hole; a bulk write
      over it then differs from single writes, and assigning anew revives the entry. */
  lemma CutLeavesReadOnlyHole(x: Value)
    requires !x.Accessor?
    ensures var v := Run(ArrayView([Some(x)], true, map[], true), CUT_AND_COVER);
      && v.items == [None] && ReadOnlyHole(v, 0) && 0 in v.attrs && v.extensible && CanWriteRange(v, 0, 1)
      && WriteRange(v, 0, Finite(0.0), 1) != WriteOneByOne(v, 0, Finite(0.0), 1)
  {
    var v0 := ArrayView([Some(x)], true, map[], true);
    var ops := CUT_AND_COVER;
    assert ops[..2] == [ops[0], ops[1]] && ops[..2][..1] == [ops[0]] && [ops[0]][..0] == [] && Run(v0, []) == v0;
    assert Run(v0, ops[..2][..1]) == DefineAt(v0, 0, READ_ONLY).0;
    var v1 := DefineAt(v0, 0, READ_ONLY).0;
    assert v1.items == [Some(x)] && AttrAt(v1, 0) == PropAttrs(false, true, true);
    var v2 := SetLength(v1, Some(0)).0;
    assert Run(v0, ops[..2]) == v2 && v2.items == [];
    var v := SetLength(v2, Some(1)).0;
    assert Run(v0, ops) == v && v.items == [None];
    BulkWriteExact(v, 0, Finite(0.0), 1);
    assert ReadOnlyHole(v, 0);
  }

  const READ_ONLY := Descriptor(None, Some(false), None, None, None, None)
  const CUT_AND_COVER := [RedefineIndex(0, READ_ONLY), AssignLength(Some(0)), AssignLength(Some(1))]

  /** Deleting and sealing leaves a hole that assignment still fills. */
  lemma SealLeavesFillableHole(x: Value)
    requires !x.Accessor?
    ensures var v := Run(ArrayView([Some(x)], true, map[], true), [RemoveIndex(0), Restrict(false)]);
      ArrayHistories.TestIntegrity(v, false) && Fillable(v, 0) && !GainsNothing(v)
  {
    var v0 := ArrayView([Some(x)], true, map[], true);
    var ops := [RemoveIndex(0), Restrict(false)];
    assert ops[..1] == [RemoveIndex(0)] && [RemoveIndex(0)][..0] == [] && Run(v0, []) == v0;
    var v1 := DeleteAt(v0, 0).0;
    assert Run(v0, ops[..1]) == v1 && v1.items == [None];
    IntegrityReached(v1, false);
    var v := ArrayHistories.SetIntegrity(v1, false);
    assert Run(v0, ops) == v;
    assert Fillable(v, 0);
    GainsNothingExactly(v);
  }
}
