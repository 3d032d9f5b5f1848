/** The collector's marking loop: what it marks, and exactly when it ends. */
module GcMarker {

  /** What the worklist holds. Functions, buffers and dates count as the plain object that
      stores their properties; an array has its elements and such an object, both under
      its number; a missing value is skipped before it is pushed. */
  datatype Ref = Nil | Primitive | ObjRef(o: nat) | ArrRef(o: nat) | AccRef(acc: nat)

  datatype Cell = Cell(proto: Ref, names: seq<string>, slots: seq<Ref>, deleted: set<string>)
  datatype Halves = Halves(getter: Ref, setter: Ref)
  datatype Heap = Heap(objs: map<nat, Cell>, elems: map<nat, seq<Ref>>, accs: map<nat, Halves>)

  // ----- what holds what ---------------------------------------------------------------

  /** The array has the element, or the accessor the half. */
  ghost predicate Encloses(h: Heap, r: Ref, s: Ref) {
    match r
    case ArrRef(a) => a in h.elems && s in h.elems[a]
    case AccRef(c) => c in h.accs && (s == h.accs[c].getter || s == h.accs[c].setter)
    case _ => false
  }

  /** The object, or the object of the array, has it as its prototype or in the slot of a name
      that is not deleted. */
  ghost predicate Stores(h: Heap, r: Ref, s: Ref) {
    && (r.ObjRef? || r.ArrRef?) && r.o in h.objs
    && var c := h.objs[r.o];
       s == c.proto || exists i :: 0 <= i < |c.names| && i < |c.slots| && c.names[i] !in c.deleted && c.slots[i] == s
  }

  ghost predicate Holds(h: Heap, r: Ref, s: Ref) {
    s != Nil && (Encloses(h, r, s) || Stores(h, r, s))
  }

  predicate Known(h: Heap, r: Ref) {
    match r
    case ObjRef(o) => o in h.objs
    case ArrRef(o) => o in h.objs && o in h.elems
    case AccRef(c) => c in h.accs
    case _ => true
  }

  /** Every reference stored in the heap points into the heap. */
  ghost predicate Closed(h: Heap) {
    forall r, s :: Known(h, r) && Holds(h, r, s) ==> Known(h, s)
  }

  // ----- reachability ------------------------------------------------------------------

  ghost predicate IsPath(h: Heap, p: seq<Ref>) {
    && p != []
    && forall i, j :: 0 <= i < j < |p| && j == i + 1 ==> Holds(h, p[i], p[j])
  }

  ghost predicate Reachable(h: Heap, roots: seq<Ref>, r: Ref) {
    exists p :: IsPath(h, p) && p[0] in roots && p[|p| - 1] == r
  }

  lemma ReachableStep(h: Heap, roots: seq<Ref>, r: Ref, s: Ref)
    requires Reachable(h, roots, r) && Holds(h, r, s)
    ensures Reachable(h, roots, s)
  {
    var p :| IsPath(h, p) && p[0] in roots && p[|p| - 1] == r;
    var q := p + [s];
    assert IsPath(h, q) && q[0] == p[0] && q[|q| - 1] == s;
  }

  lemma RootReachable(h: Heap, roots: seq<Ref>, r: Ref)
    requires r in roots
    ensures Reachable(h, roots, r)
  {
    assert IsPath(h, [r]) && [r][0] in roots;
  }

  /** A set holding the roots and closed under successors holds everything reachable. */
  lemma ClosedSetHoldsReachable(h: Heap, roots: seq<Ref>, s: set<Ref>, r: Ref)
    requires forall x :: x in roots ==> x in s
    requires forall x, y :: x in s && Holds(h, x, y) ==> y in s
    requires Reachable(h, roots, r)
    ensures r in s
  {
    var p :| IsPath(h, p) && p[0] in roots && p[|p| - 1] == r;
    for i := 0 to |p| - 1
      invariant p[i] in s
    {
      assert Holds(h, p[i], p[i + 1]);
    }
  }

  // ----- what the loop pushes -------------------------------------------------------------

  function NonNil(rs: seq<Ref>): (r: seq<Ref>)
    ensures forall x :: x in r <==> x in rs && !x.Nil?
  {
    if rs == [] then []
    else
      assert forall x :: x in rs <==> x == rs[0] || x in rs[1..];
      (if rs[0].Nil? then [] else [rs[0]]) + NonNil(rs[1..])
  }

  /** The slots of live names, from the i-th on. */
  function LiveSlots(c: Cell, i: nat): (r: seq<Ref>)
    requires i <= |c.names|
    decreases |c.names| - i
  {
    if i == |c.names| then []
    else (if c.names[i] !in c.deleted && i < |c.slots| && !c.slots[i].Nil? then [c.slots[i]] else [])
         + LiveSlots(c, i + 1)
  }

  /** What marking an object pushes. */
  function FromObject(h: Heap, o: nat): seq<Ref>
    requires o in h.objs
  {
    NonNil([h.objs[o].proto]) + LiveSlots(h.objs[o], 0)
  }

  /** What a reference pushes every time it is popped, marked or not. */
  function Nested(h: Heap, r: Ref): seq<Ref> {
    match r
    case ArrRef(a) => if a in h.elems then NonNil(h.elems[a]) else []
    case AccRef(c) => if c in h.accs then NonNil([h.accs[c].getter, h.accs[c].setter]) else []
    case _ => []
  }

  predicate HasObject(r: Ref) {
    r.ObjRef? || r.ArrRef?
  }

  function Successors(h: Heap, r: Ref): seq<Ref> {
    Nested(h, r) + if HasObject(r) && r.o in h.objs then FromObject(h, r.o) else []
  }

  lemma {:induction false} LiveSlotsMeaning(c: Cell, i: nat, s: Ref)
    requires i <= |c.names|
    ensures s in LiveSlots(c, i) <==>
      (s != Nil && exists j :: i <= j < |c.names| && j < |c.slots| && c.names[j] !in c.deleted && c.slots[j] == s)
    decreases |c.names| - i
  {
    if i < |c.names| {
      LiveSlotsMeaning(c, i + 1, s);
      if s in LiveSlots(c, i + 1) {
        var j :| i + 1 <= j < |c.names| && j < |c.slots| && c.names[j] !in c.deleted && c.slots[j] == s;
      }
    }
  }

  /** The loop pushes exactly what is enclosed, and what is held. */
  lemma PushesWhatIsHeld(h: Heap, r: Ref, s: Ref)
    ensures s in Nested(h, r) <==> s != Nil && Encloses(h, r, s)
    ensures s in Successors(h, r) <==> Holds(h, r, s)
  {
    if HasObject(r) && r.o in h.objs {
      LiveSlotsMeaning(h.objs[r.o], 0, s);
    }
  }

  // ----- the loop as a step function -----------------------------------------------------

  /** `popped` is history: everything taken off the worklist so far. */
  datatype State = State(marked: set<nat>, work: seq<Ref>, popped: set<Ref>)

  function Start(roots: seq<Ref>): State {
    State({}, roots, {})
  }

  /** One iteration: elements and halves are pushed again however often they come up. */
  function Step(h: Heap, s: State): State {
    if s.work == [] then s
    else
      var r := s.work[|s.work| - 1];
      var rest := s.work[..|s.work| - 1] + Nested(h, r);
      if HasObject(r) && r.o in h.objs && r.o !in s.marked then
        State(s.marked + {r.o}, rest + FromObject(h, r.o), s.popped + {r})
      else State(s.marked, rest, s.popped + {r})
  }

  function Steps(h: Heap, s: State, n: nat): State {
    if n == 0 then s else Step(h, Steps(h, s, n - 1))
  }

  ghost predicate Sound(h: Heap, roots: seq<Ref>, s: State) {
    && (forall r :: r in s.work || r in s.popped ==> Reachable(h, roots, r) && Known(h, r))
    && (forall o :: o in s.marked ==> o in h.objs && exists r :: r in s.popped && HasObject(r) && r.o == o)
  }

  ghost predicate Complete(h: Heap, roots: seq<Ref>, s: State) {
    && (forall r :: r in roots ==> r in s.popped || r in s.work)
    && (forall r, x :: r in s.popped && x in Nested(h, r) ==> x in s.popped || x in s.work)
    && (forall r :: r in s.popped && HasObject(r) ==> r.o in s.marked)
    && (forall o, x :: o in s.marked && o in h.objs && x in FromObject(h, o) ==> x in s.popped || x in s.work)
  }

  lemma SoundStep(h: Heap, roots: seq<Ref>, s: State)
    requires Closed(h) && Sound(h, roots, s) && s.work != []
    ensures Sound(h, roots, Step(h, s))
  {
    var r := s.work[|s.work| - 1];
    assert r in s.work;
    var t := Step(h, s);
    forall x | x in t.work || x in t.popped ensures Reachable(h, roots, x) && Known(h, x) {
      if x !in s.work && x !in s.popped {
        assert x in Successors(h, r);
        PushesWhatIsHeld(h, r, x);
        ReachableStep(h, roots, r, x);
      }
    }
    forall o | o in t.marked ensures o in h.objs && exists q :: q in t.popped && HasObject(q) && q.o == o {
      if o in s.marked {
        var q :| q in s.popped && HasObject(q) && q.o == o;
        assert q in t.popped;
      } else {
        assert r in t.popped;
      }
    }
  }

  lemma CompleteStep(h: Heap, roots: seq<Ref>, s: State)
    requires Complete(h, roots, s) && s.work != [] && forall r :: r in s.work ==> Known(h, r)
    ensures Complete(h, roots, Step(h, s))
  {
    var n := |s.work| - 1;
    var r := s.work[n];
    assert r in s.work && Known(h, r);
    var t := Step(h, s);
    assert s.work == s.work[..n] + [r];
    assert forall x :: x in s.work ==> x in t.work || x in t.popped;
  }

  /** When the worklist is empty, exactly the reachable objects are marked. */
  lemma HaltedMarksReachable(h: Heap, roots: seq<Ref>, s: State)
    requires Sound(h, roots, s) && Complete(h, roots, s) && s.work == []
    ensures forall r :: Reachable(h, roots, r) <==> r in s.popped
    ensures forall o :: o in s.marked <==> Reachable(h, roots, ObjRef(o)) || Reachable(h, roots, ArrRef(o))
  {
    forall x, y | x in s.popped && Holds(h, x, y) ensures y in s.popped { PushesWhatIsHeld(h, x, y); }
    forall r | Reachable(h, roots, r) ensures r in s.popped {
      ClosedSetHoldsReachable(h, roots, s.popped, r);
    }
  }

  // ----- when the loop ends --------------------------------------------------------------

  /** Each member nests a member: such references are pushed again for ever. */
  ghost predicate IsTrap(h: Heap, c: set<Ref>) {
    c != {} && forall r {:trigger NestsOneIn(h, r, c)} :: r in c ==> NestsOneIn(h, r, c)
  }

  ghost predicate NestsOneIn(h: Heap, r: Ref, c: set<Ref>) {
    exists x :: x in c && x != Nil && Encloses(h, r, x)
  }

  ghost predicate AllReachable(h: Heap, roots: seq<Ref>, c: set<Ref>) {
    forall r :: r in c ==> Reachable(h, roots, r)
  }

  ghost predicate Trapped(h: Heap, roots: seq<Ref>) {
    exists c :: IsTrap(h, c) && AllReachable(h, roots, c)
  }

  ghost predicate Halts(h: Heap, roots: seq<Ref>) {
    exists n: nat :: Steps(h, Start(roots), n).work == []
  }

  lemma {:induction false} StepsKeepInvariants(h: Heap, roots: seq<Ref>, n: nat)
    requires Closed(h) && forall r :: r in roots ==> Known(h, r)
    ensures Sound(h, roots, Steps(h, Start(roots), n)) && Complete(h, roots, Steps(h, Start(roots), n))
  {
    if n == 0 {
      forall r | r in roots ensures Reachable(h, roots, r) { RootReachable(h, roots, r); }
    } else {
      StepsKeepInvariants(h, roots, n - 1);
      var s := Steps(h, Start(roots), n - 1);
      if s.work != [] {
        SoundStep(h, roots, s);
        CompleteStep(h, roots, s);
      }
    }
  }

  ghost predicate OnWork(c: set<Ref>, s: State) {
    exists r :: r in c && r in s.work
  }

  ghost predicate TrapKept(c: set<Ref>, s: State) {
    c * s.popped != {} ==> OnWork(c, s)
  }

  lemma TrapStep(h: Heap, c: set<Ref>, s: State)
    requires IsTrap(h, c) && TrapKept(c, s)
    ensures TrapKept(c, Step(h, s))
  {
    var t := Step(h, s);
    if s.work != [] {
      var k := |s.work| - 1;
      var r := s.work[k];
      assert s.work == s.work[..k] + [r];
      if r in c {
        assert NestsOneIn(h, r, c);
        var x :| x in c && x != Nil && Encloses(h, r, x);
        PushesWhatIsHeld(h, r, x);
        assert x in t.work;
      } else if c * t.popped != {} {
        assert c * t.popped == c * s.popped;
        var w :| w in c && w in s.work;
        assert w in t.work;
      }
    }
  }

  /** Once a member of a trap has been popped, one is on the worklist for good. */
  lemma {:induction false} TrapStays(h: Heap, roots: seq<Ref>, c: set<Ref>, n: nat)
    requires IsTrap(h, c)
    ensures TrapKept(c, Steps(h, Start(roots), n))
  {
    if n > 0 {
      TrapStays(h, roots, c, n - 1);
      TrapStep(h, c, Steps(h, Start(roots), n - 1));
    }
  }

  /** A reachable trap keeps the loop running. */
  lemma TrappedNeverHalts(h: Heap, roots: seq<Ref>)
    requires Closed(h) && (forall r :: r in roots ==> Known(h, r)) && Trapped(h, roots)
    ensures !Halts(h, roots)
  {
    var c :| IsTrap(h, c) && AllReachable(h, roots, c);
    var r :| r in c;
    forall n: nat ensures Steps(h, Start(roots), n).work != [] {
      var s := Steps(h, Start(roots), n);
      StepsKeepInvariants(h, roots, n);
      TrapStays(h, roots, c, n);
      if s.work == [] {
        HaltedMarksReachable(h, roots, s);
      }
    }
  }

  // Without a trap the nesting references have ranks that fall along nesting.

  /** Falling ranks for every reference of s, all of whose nested references are leaves or
      in s as well. */
  ghost predicate Ranks(h: Heap, rank: map<Ref, nat>) {
    forall r, x :: r in rank && x in Nested(h, r) ==>
      (Nested(h, x) != [] ==> x in rank) && (x in rank ==> rank[x] < rank[r])
  }

  /** Peels off, one at a time, references that nest nothing left in the set. */
  lemma {:induction false} RankOrTrap(h: Heap, s: set<Ref>) returns (rank: map<Ref, nat>, core: set<Ref>)
    ensures core <= s && (core != {} ==> IsTrap(h, core)) && rank.Keys == s - core
    ensures core == {} ==> forall r, x :: r in s && x in Nested(h, r) && x in s ==> rank[x] < rank[r]
    decreases |s|
  {
    forall r, x ensures x in Nested(h, r) <==> x != Nil && Encloses(h, r, x) { PushesWhatIsHeld(h, r, x); }
    if exists r :: r in s && !NestsOneIn(h, r, s) {
      var r :| r in s && !NestsOneIn(h, r, s);
      var rank', core' := RankOrTrap(h, s - {r});
      core := core';
      rank := map q | q in s - core :: if q == r then 0 else rank'[q] + 1;
      if core == {} {
        forall q, x | q in s && x in Nested(h, q) && x in s ensures rank[x] < rank[q] {
          assert q != r;
          assert x != r ==> rank'[x] < rank'[q];
        }
      }
    } else {
      rank, core := map[], s;
    }
  }

  /** Known references that nest something and are reachable. */
  ghost function Nesting(h: Heap, roots: seq<Ref>): set<Ref> {
    var arrays := set a | a in h.elems :: ArrRef(a);
    var accessors := set c | c in h.accs :: AccRef(c);
    var all := arrays + accessors;
    set r | r in all && Reachable(h, roots, r) && Known(h, r)
  }

  /** With no trap the reachable nesting references can be ranked. */
  lemma UntrappedRanked(h: Heap, roots: seq<Ref>) returns (rank: map<Ref, nat>)
    requires Closed(h) && !Trapped(h, roots)
    ensures Ranks(h, rank) && forall r :: Reachable(h, roots, r) && Known(h, r) && Nested(h, r) != [] ==> r in rank
  {
    var core;
    rank, core := RankOrTrap(h, Nesting(h, roots));
    assert AllReachable(h, roots, core);
    assert core == {};
    forall r, x | r in rank && x in Nested(h, r) && Nested(h, x) != [] ensures x in rank {
      PushesWhatIsHeld(h, r, x);
      ReachableStep(h, roots, r, x);
      assert Known(h, x) && x in Nesting(h, roots);
    }
  }

  /** The unfolded size of a reference: itself and, again and again, all it nests. */
  ghost function Weight(h: Heap, rank: map<Ref, nat>, r: Ref): nat
    requires Ranks(h, rank)
    decreases if r in rank then rank[r] + 1 else 0, 1, 0
  {
    if r in rank then 1 + TotalBelow(h, rank, Nested(h, r), rank[r]) else 1
  }

  ghost function TotalBelow(h: Heap, rank: map<Ref, nat>, rs: seq<Ref>, bound: nat): nat
    requires Ranks(h, rank)
    requires forall x :: x in rs && x in rank ==> rank[x] < bound
    decreases bound + 1, 0, |rs|
  {
    if rs == [] then 0 else Weight(h, rank, rs[0]) + TotalBelow(h, rank, rs[1..], bound)
  }

  ghost function Total(h: Heap, rank: map<Ref, nat>, rs: seq<Ref>): nat
    requires Ranks(h, rank)
    decreases |rs|
  {
    if rs == [] then 0 else Weight(h, rank, rs[0]) + Total(h, rank, rs[1..])
  }

  lemma TotalAppend(h: Heap, rank: map<Ref, nat>, a: seq<Ref>, b: seq<Ref>)
    requires Ranks(h, rank)
    ensures Total(h, rank, a + b) == Total(h, rank, a) + Total(h, rank, b)
    decreases |a|
  {
    if a == [] {
      assert a + b == b;
    } else {
      assert (a + b)[1..] == a[1..] + b;
      TotalAppend(h, rank, a[1..], b);
    }
  }

  lemma TotalBelowIsTotal(h: Heap, rank: map<Ref, nat>, rs: seq<Ref>, bound: nat)
    requires Ranks(h, rank) && forall x :: x in rs && x in rank ==> rank[x] < bound
    ensures TotalBelow(h, rank, rs, bound) == Total(h, rank, rs)
    decreases |rs|
  {
    if rs != [] { TotalBelowIsTotal(h, rank, rs[1..], bound); }
  }

  /** A reference weighs one more than all it nests. */
  lemma WeightUnfolds(h: Heap, rank: map<Ref, nat>, r: Ref)
    requires Ranks(h, rank) && (Nested(h, r) != [] ==> r in rank)
    ensures Total(h, rank, Nested(h, r)) < Weight(h, rank, r)
  {
    if r in rank { TotalBelowIsTotal(h, rank, Nested(h, r), rank[r]); }
  }

  ghost function Unmarked(h: Heap, s: State): set<nat> {
    h.objs.Keys - s.marked
  }

  /** Each iteration marks an object or lightens the worklist. */
  lemma StepDecreases(h: Heap, rank: map<Ref, nat>, s: State)
    requires Ranks(h, rank) && s.work != []
    requires var r := s.work[|s.work| - 1]; Nested(h, r) != [] ==> r in rank
    ensures var t := Step(h, s);
      || Unmarked(h, t) < Unmarked(h, s)
      || (t.marked == s.marked && Total(h, rank, t.work) < Total(h, rank, s.work))
  {
    var k := |s.work| - 1;
    var r := s.work[k];
    var t := Step(h, s);
    if t.marked == s.marked {
      assert s.work == s.work[..k] + [r];
      TotalAppend(h, rank, s.work[..k], [r]);
      TotalAppend(h, rank, s.work[..k], Nested(h, r));
      WeightUnfolds(h, rank, r);
      assert Total(h, rank, [r]) == Weight(h, rank, r);
    } else {
      assert r.o in Unmarked(h, s) && r.o !in Unmarked(h, t);
    }
  }

  lemma {:induction false} RankedHalts(h: Heap, roots: seq<Ref>, rank: map<Ref, nat>, n: nat)
    requires Closed(h) && (forall r :: r in roots ==> Known(h, r)) && Ranks(h, rank)
    requires forall r :: Reachable(h, roots, r) && Known(h, r) && Nested(h, r) != [] ==> r in rank
    ensures Halts(h, roots)
    decreases Unmarked(h, Steps(h, Start(roots), n)), Total(h, rank, Steps(h, Start(roots), n).work)
  {
    var s := Steps(h, Start(roots), n);
    if s.work != [] {
      StepsKeepInvariants(h, roots, n);
      assert s.work[|s.work| - 1] in s.work;
      StepDecreases(h, rank, s);
      assert Steps(h, Start(roots), n + 1) == Step(h, s);
      RankedHalts(h, roots, rank, n + 1);
    }
  }

  /** The collector's loop ends exactly when no reachable arrays and accessors hold each
      other for ever; an array that is an element of itself is enough to keep it going. */
  lemma HaltsExactly(h: Heap, roots: seq<Ref>)
    requires Closed(h) && forall r :: r in roots ==> Known(h, r)
    ensures Halts(h, roots) <==> !Trapped(h, roots)
  {
    if Trapped(h, roots) {
      TrappedNeverHalts(h, roots);
    } else {
      var rank := UntrappedRanked(h, roots);
      RankedHalts(h, roots, rank, 0);
    }
  }

  /** An array that holds itself is a trap. */
  lemma SelfHoldingArrayTraps(h: Heap, a: nat)
    requires a in h.elems && ArrRef(a) in h.elems[a]
    ensures Trapped(h, [ArrRef(a)])
  {
    var c := {ArrRef(a)};
    assert NestsOneIn(h, ArrRef(a), c);
    RootReachable(h, [ArrRef(a)], ArrRef(a));
    assert IsTrap(h, c) && AllReachable(h, [ArrRef(a)], c);
  }

  /** The smallest program that does it: one array, pushed onto itself. */
  lemma SelfHoldingArrayNeverEnds()
    ensures var h := Heap(map[0 := Cell(Nil, [], [], {})], map[0 := [ArrRef(0)]], map[]);
      Closed(h) && Known(h, ArrRef(0)) && !Halts(h, [ArrRef(0)])
  {
    var h := Heap(map[0 := Cell(Nil, [], [], {})], map[0 := [ArrRef(0)]], map[]);
    SelfHoldingArrayTraps(h, 0);
    TrappedNeverHalts(h, [ArrRef(0)]);
  }

  // ----- the loop itself -------------------------------------------------------------------

  lemma NonNilFrom(w: seq<Ref>, rs: seq<Ref>, i: nat)
    requires i < |rs|
    ensures w + NonNil(rs[i..]) == w + (if rs[i].Nil? then [] else [rs[i]]) + NonNil(rs[i + 1..])
  {
    assert rs[i..][1..] == rs[i + 1..];
  }

  method PushNonNil(worklist: seq<Ref>, rs: seq<Ref>) returns (w: seq<Ref>)
    ensures w == worklist + NonNil(rs)
  {
    w := worklist;
    for i := 0 to |rs|
      invariant w + NonNil(rs[i..]) == worklist + NonNil(rs)
    {
      NonNilFrom(w, rs, i);
      if !rs[i].Nil? {
        w := w + [rs[i]];
      } else {
        assert w + [] == w;
      }
    }
  }

  method PushObject(c: Cell, worklist: seq<Ref>) returns (w: seq<Ref>)
    ensures w == worklist + (NonNil([c.proto]) + LiveSlots(c, 0))
  {
    w := PushNonNil(worklist, [c.proto]);
    assert w + LiveSlots(c, 0) == worklist + (NonNil([c.proto]) + LiveSlots(c, 0));
    for i := 0 to |c.names|
      invariant w + LiveSlots(c, i) == worklist + (NonNil([c.proto]) + LiveSlots(c, 0))
    {
      if c.names[i] !in c.deleted && i < |c.slots| && !c.slots[i].Nil? {
        w := w + [c.slots[i]];
      }
    }
  }

  /** The body of the loop: pop, push what the reference nests, and the first time also
      what its object holds. */
  method MarkLast(h: Heap, marked: set<nat>, worklist: seq<Ref>, ghost popped: set<Ref>)
    returns (marked': set<nat>, worklist': seq<Ref>)
    requires worklist != [] && Known(h, worklist[|worklist| - 1])
    ensures State(marked', worklist', popped + {worklist[|worklist| - 1]}) == Step(h, State(marked, worklist, popped))
  {
    var idx := |worklist| - 1;
    var v := worklist[idx];
    marked', worklist' := marked, worklist[..idx];
    match v {
      case ArrRef(a) =>
        worklist' := PushNonNil(worklist', h.elems[a]);
      case AccRef(c) =>
        worklist' := PushNonNil(worklist', [h.accs[c].getter, h.accs[c].setter]);
        return;
      case ObjRef(_) =>
        assert worklist' == worklist' + Nested(h, v);
      case _ =>
        assert worklist' == worklist' + Nested(h, v);
        return;
    }
    if v.o in marked {
      return;
    }
    marked' := marked + {v.o};
    worklist' := PushObject(h.objs[v.o], worklist');
  }

  method MarkFromRoots(h: Heap, roots: seq<Ref>) returns (marked: set<nat>)
    requires Closed(h) && (forall r :: r in roots ==> Known(h, r)) && !Trapped(h, roots)
    ensures forall o :: o in marked <==> Reachable(h, roots, ObjRef(o)) || Reachable(h, roots, ArrRef(o))
  {
    marked := {};
    var worklist := roots;
    ghost var n, popped := 0, {};
    ghost var rank := UntrappedRanked(h, roots);
    while |worklist| > 0
      invariant State(marked, worklist, popped) == Steps(h, Start(roots), n)
      decreases h.objs.Keys - marked, Total(h, rank, worklist)
    {
      ghost var s := State(marked, worklist, popped);
      StepsKeepInvariants(h, roots, n);
      ghost var v := worklist[|worklist| - 1];
      assert v in s.work;
      StepDecreases(h, rank, s);
      marked, worklist := MarkLast(h, marked, worklist, popped);
      n, popped := n + 1, popped + {v};
    }
    StepsKeepInvariants(h, roots, n);
    HaltedMarksReachable(h, roots, Steps(h, Start(roots), n));
  }
}
