/** Redefinition and integrity levels of arrays, and what any history of operations keeps. */
module ArrayHistories {
  import opened Wrappers
  import opened Values
  import opened Ordinary
  import opened ArrayModel
  import Histories

  // ----- [[DefineOwnProperty]] of arrays ---------------------------------------------

  function CurrentAt(v: ArrayView, i: nat): Option<Slot> {
    if i < |v.items| && v.items[i].Some? then Some(Slot(v.items[i].value, AttrAt(v, i))) else None
  }

  /** Default attributes are recorded by having no entry. */
  function SetEntry(attrs: map<nat, PropAttrs>, i: nat, a: PropAttrs): map<nat, PropAttrs> {
    if a == DEFAULT_ATTRS then attrs - {i} else attrs[i := a]
  }

  function DefineAt(v: ArrayView, i: nat, d: Descriptor): (ArrayView, Outcome) {
    var cur := CurrentAt(v, i);
    if !WellFormed(d) then (v, TypeError)
    else if cur.None? && (!v.extensible || (i >= |v.items| && !v.lengthWritable)) then (v, Rejected)
    else if cur.Some? && !cur.value.attrs.configurable && !Redefinable(cur.value, d) then (v, Rejected)
    else
      (v.(items := Grown(v.items, i + 1)[i := Some(MergedValue(cur, d))],
          attrs := SetEntry(v.attrs, i, MergedAttrs(cur, d))), Defined)
  }

  /** `n` is the descriptor's value as a length, if it has a value and that is one. */
  function DefineLength(v: ArrayView, d: Descriptor, n: Option<nat>): (ArrayView, Outcome) {
    if IsAccessorDescriptor(d) || d.enumerable == Some(true) || d.configurable == Some(true) then (v, Rejected)
    else if !v.lengthWritable && d.writable == Some(true) then (v, Rejected)
    else if d.value.Some? && (n.None? || n.value > MAX_LENGTH) then (v, RangeError)
    else if d.value.Some? && !v.lengthWritable && n.value != |v.items| then (v, Rejected)
    else if d.value.Some? && exists i :: n.value <= i < |v.items| && Fixed(v, i) then (v, Rejected)
    else
      var items := if d.value.None? then v.items
                   else if n.value < |v.items| then v.items[..n.value] else Grown(v.items, n.value);
      (v.(items := items, lengthWritable := Or(d.writable, v.lengthWritable)), Defined)
  }

  // ----- integrity levels ------------------------------------------------------------

  function IntegrityAt(v: ArrayView, i: nat, frozen: bool): Descriptor {
    var data := i < |v.items| && v.items[i].Some? && !v.items[i].value.Accessor?;
    Descriptor(None, if frozen && data then Some(false) else None, None, Some(false), None, None)
  }

  /** Redefining the present indices below k, in order. */
  function RestrictBelow(v: ArrayView, k: nat, frozen: bool): ArrayView {
    if k == 0 then v
    else
      var u := RestrictBelow(v, k - 1, frozen);
      if k - 1 < |u.items| && u.items[k - 1].Some? then DefineAt(u, k - 1, IntegrityAt(u, k - 1, frozen)).0 else u
  }

  const LENGTH_SEAL := Descriptor(None, None, None, Some(false), None, None)
  const LENGTH_FREEZE := Descriptor(None, Some(false), None, Some(false), None, None)

  function SetIntegrity(v: ArrayView, frozen: bool): ArrayView {
    var u := RestrictBelow(v.(extensible := false), |v.items|, frozen);
    DefineLength(u, if frozen then LENGTH_FREEZE else LENGTH_SEAL, None).0
  }

  predicate RestrictedAt(v: ArrayView, i: nat, frozen: bool) {
    i < |v.items| && v.items[i].Some? ==>
      && !AttrAt(v, i).configurable
      && (frozen && !v.items[i].value.Accessor? ==> !AttrAt(v, i).writable)
  }

  predicate TestIntegrity(v: ArrayView, frozen: bool) {
    && !v.extensible && (frozen ==> !v.lengthWritable)
    && forall i :: 0 <= i < |v.items| ==> RestrictedAt(v, i, frozen)
  }

  /** What a level leaves of an index: an element is not configurable, and if data is frozen
      not writable; the entry of a hole stays. */
  function TightenedAt(v: ArrayView, i: nat, frozen: bool): PropAttrs {
    var a := AttrAt(v, i);
    if Absent(v, i) then a
    else PropAttrs(a.writable && !(frozen && !v.items[i].value.Accessor?), a.enumerable, false)
  }

  lemma {:induction false} RestrictBelowMeaning(v: ArrayView, k: nat, frozen: bool)
    requires k <= |v.items|
    ensures var w := RestrictBelow(v, k, frozen);
      && w == v.(attrs := w.attrs)
      && forall i :: 0 <= i ==> AttrAt(w, i) == if i < k then TightenedAt(v, i, frozen) else AttrAt(v, i)
  {
    if k > 0 {
      RestrictBelowMeaning(v, k - 1, frozen);
      var u := RestrictBelow(v, k - 1, frozen);
      if u.items[k - 1].Some? { RestrictAt(u, k - 1, frozen); }
    }
  }

  lemma RestrictAt(u: ArrayView, i: nat, frozen: bool)
    requires i < |u.items| && u.items[i].Some?
    ensures var (w, out) := DefineAt(u, i, IntegrityAt(u, i, frozen));
      && out == Defined && w == u.(attrs := w.attrs) && AttrAt(w, i) == TightenedAt(u, i, frozen)
      && forall j :: 0 <= j && j != i ==> AttrAt(w, j) == AttrAt(u, j)
  {
    var d := IntegrityAt(u, i, frozen);
    assert MergedValue(CurrentAt(u, i), d) == u.items[i].value;
    assert u.items[i := u.items[i]] == u.items;
  }

  /** Sealing or freezing an array is never refused, reaches its level, and takes away no more:
      elements stay as they are but for their attributes, holes altogether, and only freezing
      makes the length read-only. */
  lemma IntegrityReached(v: ArrayView, frozen: bool)
    ensures var w := SetIntegrity(v, frozen);
      && TestIntegrity(w, frozen) && w.items == v.items && !w.extensible
      && w.lengthWritable == (v.lengthWritable && !frozen)
      && forall i :: 0 <= i ==>
           if i < |v.items| && v.items[i].Some? then
             && AttrAt(w, i).enumerable == AttrAt(v, i).enumerable && !AttrAt(w, i).configurable
             && (AttrAt(w, i).writable <==> AttrAt(v, i).writable && (!frozen || v.items[i].value.Accessor?))
           else AttrAt(w, i) == AttrAt(v, i)
  {
    var u := v.(extensible := false);
    RestrictBelowMeaning(u, |v.items|, frozen);
    var r, w := RestrictBelow(u, |v.items|, frozen), SetIntegrity(v, frozen);
    assert w.attrs == r.attrs && w.items == v.items;
    forall i | 0 <= i < |w.items| ensures RestrictedAt(w, i, frozen) {
      assert AttrAt(r, i) == TightenedAt(u, i, frozen);
    }
    forall i: nat ensures AttrAt(w, i) == if i < |v.items| then TightenedAt(v, i, frozen) else AttrAt(v, i) {
      assert AttrAt(r, i) == if i < |v.items| then TightenedAt(u, i, frozen) else AttrAt(u, i);
    }
  }

  // ----- histories -------------------------------------------------------------------

  /** Bulk paths run behind their guards, as every caller in the interpreter has it. */
  datatype ArrayOp =
    | AssignIndex(i: nat, x: Value)
    | AssignLength(n: Option<nat>)
    | RemoveIndex(i: nat)
    | RedefineIndex(i: nat, d: Descriptor)
    | RedefineLength(d: Descriptor, n: Option<nat>)
    | Push(xs: seq<Value>)
    | BulkWrite(start: nat, from: Float, count: nat)
    | PreventExtensions
    | Restrict(frozen: bool)

  predicate Language(op: ArrayOp) {
    match op
    case AssignIndex(_, x) => !x.Accessor?
    case RedefineIndex(_, d) => NoSentinel(d)
    case Push(xs) => forall x :: x in xs ==> !x.Accessor?
    case _ => true
  }

  function Step(v: ArrayView, op: ArrayOp): ArrayView {
    match op
    case AssignIndex(i, x) => SetAt(v, i, x)
    case AssignLength(n) => SetLength(v, n).0
    case RemoveIndex(i) => DeleteAt(v, i).0
    case RedefineIndex(i, d) => DefineAt(v, i, d).0
    case RedefineLength(d, n) => DefineLength(v, d, n).0
    case Push(xs) => if CanAppend(v, |xs|) then AppendAll(v, xs) else v
    case BulkWrite(start, from, count) =>
      if CanWriteRange(v, start, count) then WriteRange(v, start, from, count) else v
    case PreventExtensions => v.(extensible := false)
    case Restrict(frozen) => SetIntegrity(v, frozen)
  }

  function Run(v: ArrayView, ops: seq<ArrayOp>): ArrayView
    decreases |ops|
  {
    if ops == [] then v else Step(Run(v, ops[..|ops| - 1]), ops[|ops| - 1])
  }

  /** Entries only exist for attributes that differ from the default. */
  ghost predicate Tidy(v: ArrayView) {
    forall i :: i in v.attrs ==> v.attrs[i] != DEFAULT_ATTRS
  }

  /** A non-configurable element stays where it is and keeps its enumerability, never becomes
      an accessor, and is never changed as one. If not writable it stays as it is. An accessor
      element has a writable flag, too, which only assignment sees. */
  ghost predicate ElementsLater(v: ArrayView, w: ArrayView) {
    forall i :: 0 <= i < |v.items| && Fixed(v, i) ==> ElementLater(v, w, i)
  }

  predicate ElementLater(v: ArrayView, w: ArrayView, i: nat)
    requires Fixed(v, i)
  {
    && Fixed(w, i) && AttrAt(w, i).enumerable == AttrAt(v, i).enumerable
    && (w.items[i].value.Accessor? || !AttrAt(v, i).writable ==> SameAt(v, w, i))
  }

  predicate SameAt(v: ArrayView, w: ArrayView, i: nat)
    requires i < |v.items|
  {
    i < |w.items| && w.items[i] == v.items[i] && AttrAt(w, i) == AttrAt(v, i)
  }

  predicate FixedAccessor(v: ArrayView, i: nat) {
    Fixed(v, i) && v.items[i].value.Accessor?
  }

  lemma AccessorRedefined(v: ArrayView, i: nat, d: Descriptor)
    requires FixedAccessor(v, i)
    ensures SameAt(v, DefineAt(v, i, d).0, i)
  {
    if DefineAt(v, i, d).1 == Defined {
      var s := CurrentAt(v, i).value;
      if d.getter.Some? { Histories.SameStored(d.getter.value, s.value.getter); }
      if d.setter.Some? { Histories.SameStored(d.setter.value, s.value.setter); }
      assert MergedValue(CurrentAt(v, i), d) == s.value && MergedAttrs(CurrentAt(v, i), d) == s.attrs;
    }
  }

  lemma RedefineLater(v: ArrayView, i: nat, d: Descriptor)
    requires NoSentinel(d)
    ensures ElementsLater(v, DefineAt(v, i, d).0)
  {
    var w := DefineAt(v, i, d).0;
    if DefineAt(v, i, d).1 == Defined && Fixed(v, i) {
      assert CurrentAt(v, i) == Some(Slot(v.items[i].value, AttrAt(v, i)));
      assert AttrAt(w, i) == MergedAttrs(CurrentAt(v, i), d);
      if FixedAccessor(v, i) {
        AccessorRedefined(v, i, d);
      } else if d.value.Some? {
        Histories.SameStored(d.value.value, v.items[i].value);
      }
      assert ElementLater(v, w, i);
    }
  }

  lemma StepLater(v: ArrayView, op: ArrayOp)
    requires Language(op)
    ensures ElementsLater(v, Step(v, op))
  {
    match op
    case RedefineIndex(i, d) => RedefineLater(v, i, d);
    case Push(xs) =>
      AppendAllItems(v, xs);
      FixedKeptLater(v, Step(v, op));
    case Restrict(frozen) => RestrictLater(v, frozen);
    case BulkWrite(start, from, count) =>
      if CanWriteRange(v, start, count) { BulkLater(v, start, from, count); }
    case RedefineLength(d, n) => FixedKeptLater(v, Step(v, op));
    case AssignLength(n) => FixedKeptLater(v, Step(v, op));
    case PreventExtensions => FixedKeptLater(v, Step(v, op));
    case AssignIndex(i, x) => AssignLater(v, i, x);
    case RemoveIndex(i) => FixedKeptLater(v, Step(v, op));
  }

  lemma AssignLater(v: ArrayView, i: nat, x: Value)
    requires !x.Accessor?
    ensures ElementsLater(v, SetAt(v, i, x))
  {
    var w := SetAt(v, i, x);
    forall j | 0 <= j < |v.items| && Fixed(v, j) ensures ElementLater(v, w, j) {}
  }

  lemma RestrictLater(v: ArrayView, frozen: bool)
    ensures ElementsLater(v, SetIntegrity(v, frozen))
  {
    IntegrityReached(v, frozen);
  }

  lemma FixedKeptLater(v: ArrayView, w: ArrayView)
    requires forall i :: 0 <= i < |v.items| && Fixed(v, i) ==>
               i < |w.items| && w.items[i] == v.items[i] && AttrAt(w, i) == AttrAt(v, i)
    ensures ElementsLater(v, w)
  {
  }

  lemma BulkLater(v: ArrayView, start: nat, from: Float, count: nat)
    requires CanWriteRange(v, start, count)
    ensures ElementsLater(v, WriteRange(v, start, from, count))
  {
    var w := WriteRange(v, start, from, count);
    forall i | 0 <= i < |v.items| && Fixed(v, i)
      ensures ElementLater(v, w, i)
    {
      assert w.items[i] == if start <= i < start + count then Some(NumberAt(from, i - start)) else v.items[i];
      if start <= i < start + count { assert AttrAt(v, i).writable; }
    }
  }

  lemma {:induction false} RunLater(v: ArrayView, ops: seq<ArrayOp>)
    requires forall op :: op in ops ==> Language(op)
    ensures ElementsLater(v, Run(v, ops))
    decreases |ops|
  {
    if ops != [] {
      var n := |ops| - 1;
      RunLater(v, ops[..n]);
      assert ops[n] in ops;
      var u := Run(v, ops[..n]);
      StepLater(u, ops[n]);
      forall i | 0 <= i < |v.items| && Fixed(v, i)
        ensures ElementLater(v, Run(v, ops), i)
      {
        assert ElementLater(v, u, i);
        assert ElementLater(u, Step(u, ops[n]), i);
      }
    }
  }

  /** A hole or an accessor that no assignment can replace. */
  predicate Guarded(v: ArrayView, i: nat) {
    i < |v.items| && (v.items[i].None? || v.items[i].value.Accessor?) ==> !AttrAt(v, i).writable
  }

  /** Redefinition of a restricted element is refused or changes nothing. */
  lemma RedefineFrozen(v: ArrayView, i: nat, d: Descriptor)
    requires TestIntegrity(v, true) && Tidy(v) && NoSentinel(d)
    ensures DefineAt(v, i, d).0 == v
  {
    var cur := CurrentAt(v, i);
    if DefineAt(v, i, d).1 == Defined {
      assert cur.Some?;
      var s := cur.value;
      assert RestrictedAt(v, i, true);
      if d.value.Some? && !s.value.Accessor? { Histories.SameStored(d.value.value, s.value); }
      if s.value.Accessor? {
        if d.getter.Some? { Histories.SameStored(d.getter.value, s.value.getter); }
        if d.setter.Some? { Histories.SameStored(d.setter.value, s.value.setter); }
      }
      assert MergedValue(cur, d) == s.value && MergedAttrs(cur, d) == s.attrs;
      assert v.items[i := v.items[i]] == v.items;
      assert i in v.attrs && v.attrs[i := v.attrs[i]] == v.attrs;
    }
  }

  lemma FrozenStep(v: ArrayView, op: ArrayOp)
    requires TestIntegrity(v, true) && Tidy(v) && Language(op)
    requires forall i :: 0 <= i < |v.items| ==> Guarded(v, i)
    ensures Step(v, op) == v
  {
    match op
    case AssignIndex(i, x) =>
      if i < |v.items| { assert Guarded(v, i) && RestrictedAt(v, i, true); }
    case RemoveIndex(i) =>
      if i < |v.items| { assert RestrictedAt(v, i, true); }
    case RedefineIndex(i, d) => RedefineFrozen(v, i, d);
    case RedefineLength(d, n) => FrozenLength(v, d, n);
    case Push(xs) =>
    case BulkWrite(start, from, count) =>
      if count > 0 && start < |v.items| { assert RestrictedAt(v, start, true); }
    case Restrict(frozen) => RestrictFrozen(v, |v.items|, frozen);
    case PreventExtensions =>
    case AssignLength(_) =>
  }

  lemma FrozenLength(v: ArrayView, d: Descriptor, n: Option<nat>)
    requires TestIntegrity(v, true)
    ensures DefineLength(v, d, n).0 == v
  {
  }

  lemma {:induction false} RestrictFrozen(v: ArrayView, k: nat, frozen: bool)
    requires TestIntegrity(v, true) && Tidy(v) && k <= |v.items|
    ensures RestrictBelow(v, k, frozen) == v
  {
    if k > 0 {
      RestrictFrozen(v, k - 1, frozen);
      RedefineFrozen(v, k - 1, IntegrityAt(v, k - 1, frozen));
    }
  }

  ghost predicate Immutable(v: ArrayView) {
    forall ops: seq<ArrayOp> :: (forall op :: op in ops ==> Language(op)) ==> Run(v, ops) == v
  }

  lemma {:induction false} FrozenRun(v: ArrayView, ops: seq<ArrayOp>)
    requires TestIntegrity(v, true) && Tidy(v)
    requires (forall i :: 0 <= i < |v.items| ==> Guarded(v, i)) && forall op :: op in ops ==> Language(op)
    ensures Run(v, ops) == v
    decreases |ops|
  {
    if ops != [] {
      var n := |ops| - 1;
      FrozenRun(v, ops[..n]);
      assert ops[n] in ops;
      FrozenStep(v, ops[n]);
    }
  }

  /** A frozen array never changes, whatever is done to it, exactly when each of its holes
      and accessors carries a read-only entry. Data-only arrays without holes qualify. */
  lemma FrozenArrayExact(v: ArrayView)
    requires TestIntegrity(v, true) && Tidy(v)
    ensures Immutable(v) <==> forall i :: 0 <= i < |v.items| ==> Guarded(v, i)
  {
    if forall i :: 0 <= i < |v.items| ==> Guarded(v, i) {
      forall ops: seq<ArrayOp> | forall op :: op in ops ==> Language(op) ensures Run(v, ops) == v {
        FrozenRun(v, ops);
      }
    } else {
      var i: nat :| 0 <= i < |v.items| && !Guarded(v, i);
      var ops := [AssignIndex(i, Undefined)];
      assert ops[..0] == [] && Run(v, []) == v;
      assert Run(v, ops) == SetAt(v, i, Undefined);
      assert SetAt(v, i, Undefined).items[i] != v.items[i];
      assert forall op :: op in ops ==> Language(op);
    }
  }
}
