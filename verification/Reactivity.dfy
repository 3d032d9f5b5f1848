/** Refs and lazily recomputed values with dirty flags: however writes and reads are mixed,
    a read gives what recomputing from scratch would give. */
module Reactivity {
  import opened Wrappers

  datatype Source = RefVal(r: nat) | Computed(c: nat)

  /** What a getter does next, given the values it has read so far. */
  datatype Action<V> = Read(src: Source) | Return(v: V)

  /** The getters of `comps` computed values over `refs` refs. A getter is any deterministic
      program that reads sources one at a time; `steps` bounds what it still has to read.
      `same` is the test a write applies: any relation, such as the `===` of the language, which
      denies NaN to be itself and takes 0 for -0. */
  datatype Program<!V> = Program(refs: nat, comps: nat, next: (nat, seq<V>) -> Action<V>, steps: (nat, seq<V>) -> nat,
                                 same: (V, V) -> bool)

  /** Getters read refs and computed values created before them, and come to an end. */
  ghost predicate Acyclic<V(!new)>(p: Program<V>) {
    forall c: nat, read: seq<V> :: p.next(c, read).Read? ==>
      && (match p.next(c, read).src case RefVal(r) => r < p.refs case Computed(d) => d < c)
      && forall v: V :: p.steps(c, read + [v]) < p.steps(c, read)
  }

  // ----- from scratch ---------------------------------------------------------------------

  /** The value of a getter that has read `read` and continues over the given refs. */
  ghost function Eval<V(!new)>(p: Program<V>, refs: seq<V>, c: nat, read: seq<V>): V
    requires Acyclic(p) && |refs| == p.refs
    decreases c, p.steps(c, read) + 1
  {
    match p.next(c, read)
    case Return(v) => v
    case Read(src) => Eval(p, refs, c, read + [Value(p, refs, c, read)])
  }

  /** The value of the source about to be read. */
  ghost function Value<V(!new)>(p: Program<V>, refs: seq<V>, c: nat, read: seq<V>): V
    requires Acyclic(p) && |refs| == p.refs && p.next(c, read).Read?
    decreases c, 0
  {
    match p.next(c, read).src
    case RefVal(r) => refs[r]
    case Computed(d) => Eval(p, refs, d, [])
  }

  /** The sources the getter still reads. */
  ghost function Reads<V(!new)>(p: Program<V>, refs: seq<V>, c: nat, read: seq<V>): set<Source>
    requires Acyclic(p) && |refs| == p.refs
    decreases c, p.steps(c, read) + 1
  {
    match p.next(c, read)
    case Return(v) => {}
    case Read(src) => {src} + Reads(p, refs, c, read + [Value(p, refs, c, read)])
  }

  /** Getters that avoid ref r, directly and through the set, do not notice its change. */
  ghost predicate Insulated<V(!new)>(p: Program<V>, refs: seq<V>, r: nat, clean: set<nat>)
    requires Acyclic(p) && |refs| == p.refs
  {
    forall c, s :: c in clean && s in Reads(p, refs, c, []) ==> s != RefVal(r) && (s.Computed? ==> s.c in clean)
  }

  lemma {:induction false} Unaffected<V(!new)>(p: Program<V>, refs: seq<V>, r: nat, v: V, clean: set<nat>, c: nat,
                                               read: seq<V>)
    requires Acyclic(p) && |refs| == p.refs && r < p.refs && Insulated(p, refs, r, clean)
    requires forall s :: s in Reads(p, refs, c, read) ==> s != RefVal(r) && (s.Computed? ==> s.c in clean)
    ensures Eval(p, refs, c, read) == Eval(p, refs[r := v], c, read)
    ensures Reads(p, refs, c, read) == Reads(p, refs[r := v], c, read)
    decreases c, p.steps(c, read)
  {
    match p.next(c, read)
    case Return(_) =>
    case Read(src) =>
      assert src in Reads(p, refs, c, read);
      if src.Computed? { Unaffected(p, refs, r, v, clean, src.c, []); }
      var x := Value(p, refs, c, read);
      assert x == Value(p, refs[r := v], c, read);
      Unaffected(p, refs, r, v, clean, c, read + [x]);
  }

  // ----- the reactive objects ---------------------------------------------------------------

  class Reactive<V(!new)> {
    const p: Program<V>
    var refs: seq<V>
    var cached: seq<Option<V>>
    var dirty: seq<bool>
    var deps: map<Source, set<nat>>
    var effectStack: seq<nat>
    var activeEffect: Option<nat>

    ghost predicate Shaped()
      reads this
    {
      Sized() && StackOk()
    }

    ghost predicate Sized()
      reads `refs, `cached, `dirty, `deps
    {
      && Acyclic(p) && |refs| == p.refs && |cached| == p.comps && |dirty| == p.comps
      && (forall s, c :: s in deps && c in deps[s] ==> c < p.comps)
    }

    /** The active effect is the innermost one running. */
    ghost predicate StackOk()
      reads `effectStack, `activeEffect
    {
      && activeEffect == (if effectStack == [] then None else Some(effectStack[|effectStack| - 1]))
      && (forall c :: c in effectStack ==> c < p.comps)
    }

    ghost predicate Registered(c: nat, s: Source)
      requires |dirty| == p.comps
      reads `dirty, `deps
    {
      && s in deps && c in deps[s]
      && (s.Computed? ==> s.c < p.comps && !dirty[s.c])
    }

    /** A clean value is up to date, is registered with everything it reads, and reads
        only clean values. */
    ghost predicate CleanOk(c: nat)
      requires Sized() && c < p.comps
      reads `refs, `cached, `dirty, `deps
    {
      !dirty[c] ==>
        && cached[c] == Some(Eval(p, refs, c, []))
        && forall s :: s in Reads(p, refs, c, []) ==> Registered(c, s)
    }

    ghost predicate Valid()
      reads this
    {
      Shaped() && forall c :: 0 <= c < p.comps ==> CleanOk(c)
    }

    constructor (p: Program<V>, refs: seq<V>)
      requires Acyclic(p) && |refs| == p.refs
      ensures Valid() && this.p == p && this.refs == refs && effectStack == []
    {
      this.p, this.refs := p, refs;
      cached := seq(p.comps, _ => None);
      dirty := seq(p.comps, _ => true);
      deps := map[];
      effectStack := [];
      activeEffect := None;
    }

    /** More registrations and fewer dirty flags leave a clean value in order. */
    twostate lemma CleanKept(c: nat)
      requires old(Sized()) && Sized() && c < p.comps && !old(dirty[c]) && old(CleanOk(c))
      requires refs == old(refs) && cached[c] == old(cached[c])
      requires forall d :: 0 <= d < p.comps && !old(dirty[d]) ==> !dirty[d]
      requires forall s :: s in old(deps) ==> s in deps && old(deps)[s] <= deps[s]
      ensures CleanOk(c)
    {
      forall s | s in Reads(p, refs, c, []) ensures Registered(c, s) {
        assert old(Registered(c, s));
      }
    }

    /** Registers the running effect with a source. */
    method Track(s: Source)
      requires Valid()
      modifies this`deps
      ensures Valid() && deps == Tracked(old(deps), s, activeEffect)
    {
      if activeEffect.None? {
        return;
      }
      assert activeEffect.value in effectStack;
      deps := deps[s := (if s in deps then deps[s] else {}) + {activeEffect.value}];
      forall c | 0 <= c < p.comps && !dirty[c] ensures CleanOk(c) {
        assert old(CleanOk(c));
        CleanKept(c);
      }
    }

    static function Tracked(deps: map<Source, set<nat>>, s: Source, e: Option<nat>): map<Source, set<nat>> {
      if e.None? then deps else deps[s := (if s in deps then deps[s] else {}) + {e.value}]
    }

    // ----- invalidation ---------------------------------------------------------------------

    ghost function Clean(): set<nat>
      requires Sized()
      reads `refs, `cached, `dirty, `deps
    {
      set c | 0 <= c < p.comps && !dirty[c]
    }

    ghost predicate AllDirty(s: Source)
      requires Sized()
      reads `refs, `cached, `dirty, `deps
    {
      s in deps ==> forall c :: c in deps[s] ==> dirty[c]
    }

    /** Runs the schedulers registered with a source. Everything registered with it, and
        with anything this call makes dirty, ends up dirty. */
    method Trigger(s: Source)
      requires Shaped()
      modifies this`dirty
      ensures Shaped()
      ensures forall c :: 0 <= c < p.comps && old(dirty[c]) ==> dirty[c]
      ensures AllDirty(s)
      ensures forall c :: 0 <= c < p.comps && dirty[c] && !old(dirty[c]) ==> AllDirty(Computed(c))
      decreases Clean(), 3
    {
      if s !in deps {
        return;
      }
      var todo := deps[s];
      while todo != {}
        invariant Shaped() && todo <= deps[s]
        invariant forall c :: 0 <= c < p.comps && old(dirty[c]) ==> dirty[c]
        invariant forall c :: c in deps[s] - todo ==> dirty[c]
        invariant forall c :: 0 <= c < p.comps && dirty[c] && !old(dirty[c]) ==> AllDirty(Computed(c))
        decreases todo
      {
        var c :| c in todo;
        todo := todo - {c};
        assert Clean() <= old(Clean());
        Schedule(c);
      }
    }

    /** The scheduler of a computed value: pass the news on, once. */
    method Schedule(c: nat)
      requires Shaped() && c < p.comps
      modifies this`dirty
      ensures Shaped() && dirty[c]
      ensures forall d :: 0 <= d < p.comps && old(dirty[d]) ==> dirty[d]
      ensures forall d :: 0 <= d < p.comps && dirty[d] && !old(dirty[d]) ==> AllDirty(Computed(d))
      decreases Clean(), 2
    {
      if !dirty[c] {
        ghost var before := Clean();
        dirty := dirty[c := true];
        assert Clean() <= before && c in before && c !in Clean();
        Trigger(Computed(c));
      }
    }

    // ----- writing ----------------------------------------------------------------------------

    /** Assigning a ref: a value that passes for the present one is dropped, another one
        invalidates. */
    method WriteRef(r: nat, v: V)
      requires Valid() && r < p.refs
      modifies this`refs, this`dirty
      ensures Valid() && refs == if p.same(old(refs)[r], v) then old(refs) else old(refs)[r := v]
    {
      if !p.same(refs[r], v) {
        ghost var before := refs;
        refs := refs[r := v];
        Trigger(RefVal(r));
        ghost var clean := Clean();
        forall c, s | c in clean && s in Reads(p, before, c, [])
          ensures s != RefVal(r) && (s.Computed? ==> s.c in clean)
        {
          assert old(CleanOk(c)) && old(Registered(c, s));
          assert s.Computed? && dirty[s.c] ==> AllDirty(s);
        }
        forall c | c in clean ensures CleanOk(c) {
          Unaffected(p, before, r, v, clean, c, []);
          assert old(CleanOk(c));
          forall s | s in Reads(p, before, c, []) ensures Registered(c, s) { assert old(Registered(c, s)); }
        }
      }
    }

    // ----- reading ----------------------------------------------------------------------------

    /** Reading a ref registers the running effect. */
    method ReadRef(r: nat) returns (v: V)
      requires Valid() && r < p.refs
      modifies this`deps
      ensures Valid() && v == refs[r] && deps == Tracked(old(deps), RefVal(r), activeEffect)
    {
      Track(RefVal(r));
      return refs[r];
    }

    /** What a read may do to the rest: register, and clean values up to c. */
    twostate predicate OnlyRefreshed(c: int)
      reads `dirty, `deps
    {
      && |dirty| == |old(dirty)|
      && (forall d :: 0 <= d < |dirty| && dirty[d] ==> old(dirty[d]))
      && (forall d :: 0 <= d < |dirty| && c < d ==> dirty[d] == old(dirty[d]))
      && (forall s :: s in old(deps) ==> s in deps && old(deps)[s] <= deps[s])
    }

    /** Reading a computed value: recompute if dirty, then register with the reader. */
    method ReadComputed(c: nat) returns (v: V)
      requires Valid() && c < p.comps && forall d :: d in effectStack ==> c < d
      modifies this`cached, this`dirty, this`deps, this`effectStack, this`activeEffect
      ensures Valid() && OnlyRefreshed(c) && effectStack == old(effectStack) && activeEffect == old(activeEffect)
      ensures v == Eval(p, refs, c, []) && !dirty[c]
      ensures activeEffect.Some? ==> Registered(activeEffect.value, Computed(c))
      decreases c, 2
    {
      if dirty[c] {
        var value := RunEffect(c);
        label Ran:
        cached := cached[c := Some(value)];
        dirty := dirty[c := false];
        forall s | s in Reads(p, refs, c, []) ensures Registered(c, s) {
          assert old@Ran(Registered(c, s));
        }
        forall d | 0 <= d < p.comps && !dirty[d] && d != c ensures CleanOk(d) {
          assert old@Ran(CleanOk(d));
          CleanKept@Ran(d);
        }
        assert CleanOk(c);
      }
      assert CleanOk(c);
      Track(Computed(c));
      return cached[c].value;
    }

    /** The effect of a computed value: its getter, with itself as the active effect. */
    method RunEffect(c: nat) returns (v: V)
      requires Valid() && c < p.comps && dirty[c] && forall d :: d in effectStack ==> c < d
      modifies this`cached, this`dirty, this`deps, this`effectStack, this`activeEffect
      ensures Valid() && OnlyRefreshed(c - 1) && effectStack == old(effectStack) && activeEffect == old(activeEffect)
      ensures v == Eval(p, refs, c, []) && dirty[c]
      ensures forall s :: s in Reads(p, refs, c, []) ==> Registered(c, s)
      decreases c, 1
    {
      effectStack := effectStack + [c];
      activeEffect := Some(c);
      assert effectStack[..|effectStack| - 1] == old(effectStack);
      v := RunGetter(c);
      effectStack := effectStack[..|effectStack| - 1];
      activeEffect := if |effectStack| > 0 then Some(effectStack[|effectStack| - 1]) else None;
    }

    /** One run of a getter: each read goes through the source and registers it. */
    method RunGetter(c: nat) returns (v: V)
      requires Valid() && c < p.comps && dirty[c] && activeEffect == Some(c)
      requires forall d :: d in effectStack ==> c <= d
      modifies this`cached, this`dirty, this`deps, this`effectStack, this`activeEffect
      ensures Valid() && OnlyRefreshed(c - 1) && effectStack == old(effectStack) && activeEffect == old(activeEffect)
      ensures v == Eval(p, refs, c, [])
      ensures forall s :: s in Reads(p, refs, c, []) ==> Registered(c, s)
      decreases c, 0
    {
      var read: seq<V> := [];
      ghost var seen: set<Source> := {};
      while p.next(c, read).Read?
        invariant Valid() && OnlyRefreshed(c - 1)
        invariant effectStack == old(effectStack) && activeEffect == old(activeEffect)
        invariant Eval(p, refs, c, read) == Eval(p, refs, c, [])
        invariant Reads(p, refs, c, []) == seen + Reads(p, refs, c, read)
        invariant forall s :: s in seen ==> Registered(c, s)
        decreases p.steps(c, read)
      {
        var src := p.next(c, read).src;
        var x;
        match src {
          case RefVal(r) =>
            x := ReadRef(r);
          case Computed(d) =>
            x := ReadComputed(d);
        }
        seen := seen + {src};
        read := read + [x];
      }
      v := p.next(c, read).v;
    }

    // ----- histories --------------------------------------------------------------------------

    /** Runs a history of writes and reads from outside any effect. */
    method RunAll(ops: seq<Op<V>>) returns (results: seq<V>)
      requires Valid() && effectStack == [] && forall op :: op in ops ==> InRange(p, op)
      modifies this
      ensures Valid() && refs == After(p, old(refs), ops) && results == FromScratch(p, old(refs), ops)
    {
      results := [];
      assert ops[..0] == [];
      for i := 0 to |ops|
        invariant Valid() && effectStack == [] && refs == After(p, old(refs), ops[..i])
        invariant results == FromScratch(p, old(refs), ops[..i])
      {
        assert ops[..i + 1][..i] == ops[..i] && ops[i] in ops;
        match ops[i] {
          case WriteRefTo(r, v) =>
            WriteRef(r, v);
          case ReadRefAt(r) =>
            var v := ReadRef(r);
            results := results + [v];
          case ReadAt(c) =>
            var v := ReadComputed(c);
            results := results + [v];
        }
      }
      assert ops[..|ops|] == ops;
    }
  }

  datatype Op<V> = WriteRefTo(r: nat, v: V) | ReadRefAt(r: nat) | ReadAt(c: nat)

  predicate InRange<V>(p: Program<V>, op: Op<V>) {
    match op
    case WriteRefTo(r, _) => r < p.refs
    case ReadRefAt(r) => r < p.refs
    case ReadAt(c) => c < p.comps
  }

  /** The refs after a history: only writes matter. */
  function After<V>(p: Program<V>, refs: seq<V>, ops: seq<Op<V>>): (r: seq<V>)
    ensures |r| == |refs|
    decreases |ops|
  {
    if ops == [] then refs
    else
      var before := After(p, refs, ops[..|ops| - 1]);
      match ops[|ops| - 1]
      case WriteRefTo(r, v) => if r < |refs| && !p.same(before[r], v) then before[r := v] else before
      case _ => before
  }

  /** What the reads of a history give if everything is recomputed each time. */
  ghost function FromScratch<V(!new)>(p: Program<V>, refs: seq<V>, ops: seq<Op<V>>): seq<V>
    requires Acyclic(p) && |refs| == p.refs && forall op :: op in ops ==> InRange(p, op)
    decreases |ops|
  {
    if ops == [] then []
    else
      var n := |ops| - 1;
      assert ops[n] in ops && InRange(p, ops[n]);
      FromScratch(p, refs, ops[..n]) +
      match ops[n]
      case WriteRefTo(_, _) => []
      case ReadRefAt(r) => [After(p, refs, ops[..n])[r]]
      case ReadAt(c) => [Eval(p, After(p, refs, ops[..n]), c, [])]
  }

  // ----- what that means ------------------------------------------------------------------------

  /** Operation i gave ref r the value v, and no later write differed from it. */
  predicate TookLast<V(==)>(p: Program<V>, refs: seq<V>, ops: seq<Op<V>>, r: nat, i: nat, v: V)
    requires r < |refs|
  {
    && i < |ops| && ops[i] == WriteRefTo(r, v) && !p.same(After(p, refs, ops[..i])[r], v)
    && AllSame(p, ops[i + 1..], r, v)
  }

  /** Every write to the ref passes for this value. */
  predicate AllSame<V>(p: Program<V>, ops: seq<Op<V>>, r: nat, v: V) {
    forall j :: 0 <= j < |ops| && ops[j].WriteRefTo? && ops[j].r == r ==> p.same(v, ops[j].v)
  }

  /** A ref holds the value of the last write to it that differed from what was there, or what
      it held at first. */
  lemma {:induction false} AfterHoldsLastWrite<V>(p: Program<V>, refs: seq<V>, ops: seq<Op<V>>, r: nat)
    requires r < |refs|
    ensures var now := After(p, refs, ops)[r];
      (now == refs[r] && AllSame(p, ops, r, now)) || exists i: nat :: TookLast(p, refs, ops, r, i, now)
    decreases |ops|
  {
    if ops != [] {
      var n := |ops| - 1;
      var before, now := After(p, refs, ops[..n])[r], After(p, refs, ops)[r];
      AfterHoldsLastWrite(p, refs, ops[..n], r);
      if ops[n].WriteRefTo? && ops[n].r == r && !p.same(before, ops[n].v) {
        assert TookLast(p, refs, ops, r, n, now);
      } else if i: nat :| TookLast(p, refs, ops[..n], r, i, before) {
        assert ops[..n][..i] == ops[..i] && ops[..n][i + 1..] == ops[i + 1..n];
        assert ops[i + 1..] == ops[i + 1..n] + [ops[n]];
        assert TookLast(p, refs, ops, r, i, now);
      }
    }
  }

  /** A read right after a write gives the value written, unless it passed for the one there. */
  lemma ReadAfterWrite<V(!new)>(p: Program<V>, refs: seq<V>, ops: seq<Op<V>>, r: nat, v: V)
    requires Acyclic(p) && |refs| == p.refs && r < p.refs && forall op :: op in ops ==> InRange(p, op)
    ensures var now := After(p, refs, ops)[r];
      var more := ops + [WriteRefTo(r, v)] + [ReadRefAt(r)];
      (forall op :: op in more ==> InRange(p, op))
      && FromScratch(p, refs, more) == FromScratch(p, refs, ops) + [if p.same(now, v) then now else v]
  {
    var one := ops + [WriteRefTo(r, v)];
    var two := one + [ReadRefAt(r)];
    assert one[..|ops|] == ops && two[..|one|] == one;
    assert FromScratch(p, refs, one) == FromScratch(p, refs, ops) + [];
  }

  /** What the getter has read so far are the values of the sources it asked for. */
  ghost predicate IsTranscript<V(!new)>(p: Program<V>, refs: seq<V>, c: nat, read: seq<V>)
    requires Acyclic(p) && |refs| == p.refs
    decreases c, 0
  {
    forall i :: 0 <= i < |read| ==>
      && p.next(c, read[..i]).Read?
      && match p.next(c, read[..i]).src
         case RefVal(r) => read[i] == refs[r]
         case Computed(d) => IsValue(p, refs, d, read[i])
  }

  /** Asking for values until it is done, the getter returns v. */
  ghost predicate IsValue<V(!new)>(p: Program<V>, refs: seq<V>, c: nat, v: V)
    requires Acyclic(p) && |refs| == p.refs
    decreases c, 1
  {
    exists read :: p.next(c, read) == Return(v) && IsTranscript(p, refs, c, read)
  }

  /** The value of a getter is what some run of it returns, reading true values. */
  lemma {:induction false} EvalIsValue<V(!new)>(p: Program<V>, refs: seq<V>, c: nat, read: seq<V>)
    requires Acyclic(p) && |refs| == p.refs && IsTranscript(p, refs, c, read)
    ensures IsValue(p, refs, c, Eval(p, refs, c, read))
    decreases c, p.steps(c, read) + 1
  {
    match p.next(c, read)
    case Return(v) =>
    case Read(src) =>
      if src.Computed? { EvalIsValue(p, refs, src.c, []); }
      var more := read + [Value(p, refs, c, read)];
      forall i | 0 <= i < |more| ensures more[..i] == if i < |read| then read[..i] else read {}
      assert IsTranscript(p, refs, c, more);
      EvalIsValue(p, refs, c, more);
  }

  /** And there is only one. */
  lemma ValueIsEvalExactly<V(!new)>(p: Program<V>, refs: seq<V>, c: nat, v: V)
    requires Acyclic(p) && |refs| == p.refs
    ensures IsValue(p, refs, c, v) <==> v == Eval(p, refs, c, [])
    decreases c
  {
    EvalIsValue(p, refs, c, []);
    if IsValue(p, refs, c, v) {
      var read :| p.next(c, read) == Return(v) && IsTranscript(p, refs, c, read);
      TranscriptEvals(p, refs, c, read, |read|);
      assert read[..|read|] == read;
    }
  }

  lemma {:induction false} TranscriptEvals<V(!new)>(p: Program<V>, refs: seq<V>, c: nat, read: seq<V>, k: nat)
    requires Acyclic(p) && |refs| == p.refs && IsTranscript(p, refs, c, read) && k <= |read|
    ensures Eval(p, refs, c, read[..k]) == Eval(p, refs, c, [])
    decreases c, k
  {
    if k > 0 {
      TranscriptEvals(p, refs, c, read, k - 1);
      var src := p.next(c, read[..k - 1]).src;
      if src.Computed? { ValueIsEvalExactly(p, refs, src.c, read[k - 1]); }
      assert read[..k] == read[..k - 1] + [read[k - 1]];
    }
  }

  /** What reading a computed value adds to the results: its value over the refs as they are. */
  lemma ReadGivesValueExactly<V(!new)>(p: Program<V>, refs: seq<V>, ops: seq<Op<V>>, c: nat, v: V)
    requires Acyclic(p) && |refs| == p.refs && c < p.comps && forall op :: op in ops ==> InRange(p, op)
    ensures var more := ops + [ReadAt(c)];
      (forall op :: op in more ==> InRange(p, op))
      && (FromScratch(p, refs, more) == FromScratch(p, refs, ops) + [v] <==> IsValue(p, After(p, refs, ops), c, v))
  {
    var more, before := ops + [ReadAt(c)], FromScratch(p, refs, ops);
    assert more[..|ops|] == ops;
    ValueIsEvalExactly(p, After(p, refs, ops), c, v);
    assert (before + [v])[|before|] == v;
  }
}
