/** The interpreter's property operations on a heap of plain objects, run through the
    shared shape tree and the inline caches. Every history gives the results, and leaves
    the objects and links, that the cache-free history gives. */
module CachedEngine {
  import opened Wrappers
  import opened Values
  import opened Ordinary
  import opened Inheritance
  import opened Heaps
  import opened Histories
  import opened Shapes
  import opened Objects
  import opened ProtoChains
  import opened InlineCache
  import opened JitProperty

  /** A read of a property the object has itself. */
  lemma OwnDecides(h: Heap, o: nat, key: string)
    requires h.Linked() && o < |h.views| && key in h.views[o].own
    ensures FirstHolder(Chain(h, o), key) == Some(h.views[o].own[key]) && Decided(h, o, key)
  {
  }

  function ResultOf(v: Value): Result {
    match ReadingOf(v)
    case Is(x) => Got(x)
    case Asks(getter) => GetterRuns(getter)
  }

  /** The objects are those of the heap, but for the view of one. */
  ghost predicate StandApart(objs: seq<ObjectValue>, h: Heap, at: nat)
    requires |h.views| == |h.parents| == |objs|
    reads objs
  {
    && (forall i :: 0 <= i < |objs| && i != at ==> Stands(objs, h, i))
    && (at < |objs| ==> LinkIs(objs, objs[at].proto, h.parents[at]))
  }

  lemma OneChanged(objs: seq<ObjectValue>, h: Heap, at: nat, v: View)
    requires h.Linked() && |objs| == |h.views| && Distinct(objs) && StandApart(objs, h, at)
    requires at < |objs| && objs[at].Valid() && objs[at].Abs() == v
    ensures Represents(objs, SetView(h, at, v))
  {
    forall i | 0 <= i < |objs| ensures Stands(objs, SetView(h, at, v), i) {
      assert i != at ==> Stands(objs, h, i);
    }
  }

  class Engine {
    const tree: ShapeTree
    const cache: ICache
    var objs: seq<ObjectValue>

    ghost predicate Valid()
      reads this, tree, tree.all, cache, cache.entries, cache.calls, objs
    {
      && tree.Valid() && cache.Valid()
      && forall o :: o in objs ==> o.Valid() && o.shape in tree.all
    }

    /** The objects and links are those of the heap. */
    ghost predicate Denotes(h: Heap)
      reads this, tree, tree.all, cache, cache.entries, cache.calls, objs
    {
      Valid() && Represents(objs, h)
    }

    /** Objects are only ever added. */
    twostate predicate ObjectsGrown()
      reads this
    {
      |old(objs)| <= |objs| &&
      forall j :: 0 <= j < |objs| ==> if j < |old(objs)| then objs[j] == old(objs)[j] else fresh(objs[j])
    }

    constructor ()
      ensures Denotes(EMPTY_HEAP) && objs == []
      ensures fresh(tree) && fresh(tree.all) && fresh(cache) && fresh(cache.entries) && fresh(cache.calls)
    {
      tree := new ShapeTree();
      cache := new ICache();
      objs := [];
    }

    function LinkTo(p: Parent): Link
      requires p.At? ==> p.o < |objs|
      reads this
    {
      match p
      case NoParent => NoProto
      case At(o) => Plain(objs[o])
      case Foreign(id) => Exotic(id)
    }

    /** The read of the interpreter: cache, then accessors on the chain, then the chain. */
    method ReadProperty(o: ObjectValue, key: string, ghost h: Heap, ghost at: nat) returns (res: Result)
      requires Represents(objs, h) && at < |objs| && objs[at] == o && cache.Valid()
      modifies cache, cache.entries
      ensures cache.Valid() && res == ReadResult(h, at, key)
    {
      assert Stands(objs, h, at);
      if key in h.views[at].own { OwnDecides(h, at, key); }
      var v, hit := cache.GetCached(o, key);
      if hit {
        return ResultOf(v);
      }
      var accessor := FindAccessor(o, key, objs, h, at);
      if accessor.Found? {
        return ResultOf(accessor.v);
      }
      if accessor.LeavesPlain? {
        return Elsewhere(accessor.id);
      }
      var found := Get(o, key, objs, h, at);
      cache.CachePut(o, key);
      return if found.Found? then Got(found.v) else Got(Undefined);
    }

    method AssignProperty(o: ObjectValue, key: string, value: Value, ghost h: Heap, ghost at: nat) returns (res: Result)
      requires Represents(objs, h) && at < |objs| && objs[at] == o
      requires o.LivesIn(tree) && cache.Valid() && !value.Accessor?
      modifies o`shape, o`slots, o`deleted, tree, tree.all`next, cache, cache.entries
      ensures o.LivesIn(tree) && cache.Valid() && tree.Grown()
      ensures (o.Abs(), res) == AssignResult(h, at, key, value)
    {
      var hit := AssignCached(o, key, value, h, at);
      if hit {
        return Completed(Defined);
      }
      res := AssignUncached(o, key, value, h, at);
    }

    /** The first attempt of an assignment: a hit settles it, a miss changes nothing. */
    method AssignCached(o: ObjectValue, key: string, value: Value, ghost h: Heap, ghost at: nat) returns (hit: bool)
      requires Represents(objs, h) && at < |objs| && objs[at] == o
      requires o.LivesIn(tree) && cache.Valid() && !value.Accessor?
      modifies o`slots, o`deleted, cache
      ensures o.LivesIn(tree) && cache.Valid()
      ensures if hit then (o.Abs(), Completed(Defined)) == AssignResult(h, at, key, value) else Represents(objs, h)
    {
      assert Stands(objs, h, at);
      if key in h.views[at].own { OwnDecides(h, at, key); }
      hit := cache.SetCached(o, key, value);
      if !hit {
        forall i | 0 <= i < |objs| ensures Stands(objs, h, i) { assert old(Stands(objs, h, i)); }
      }
    }

    /** An accessor on the chain is left to its setter; otherwise the object decides. */
    method AssignUncached(o: ObjectValue, key: string, value: Value, ghost h: Heap, ghost at: nat) returns (res: Result)
      requires Represents(objs, h) && at < |objs| && objs[at] == o
      requires o.LivesIn(tree) && cache.Valid() && !value.Accessor?
      modifies o`shape, o`slots, o`deleted, tree, tree.all`next, cache.entries
      ensures o.LivesIn(tree) && cache.Valid() && tree.Grown()
      ensures (o.Abs(), res) == AssignResult(h, at, key, value)
    {
      assert Stands(objs, h, at);
      var accessor := FindAccessor(o, key, objs, h, at);
      if accessor.Found? {
        return if accessor.v.setter.Undefined? then Completed(Defined) else SetterRuns(accessor.v.setter);
      }
      if accessor.LeavesPlain? {
        return Elsewhere(accessor.id);
      }
      o.Set(tree, key, value);
      cache.SetPut(o, key);
      return Completed(Defined);
    }

    /** The method of a call; one that a getter gives is recorded when the getter is done. */
    method InvokeProperty(o: ObjectValue, key: string, pc: nat, ghost h: Heap, ghost at: nat) returns (res: Result)
      requires Represents(objs, h) && at < |objs| && objs[at] == o && cache.Valid()
      modifies cache, cache.entries, cache.calls
      ensures cache.Valid() && res == CalleeOf(ReadResult(h, at, key))
    {
      assert Stands(objs, h, at);
      if key in h.views[at].own { OwnDecides(h, at, key); }
      var fn, hit := cache.CallCached(pc, o, key);
      if hit {
        return Callee(fn);
      }
      res := ReadProperty(o, key, h, at);
      if res.Got? {
        cache.CallPut(pc, o, key, res.v);
        res := Callee(res.v);
      }
    }

    /** Compiled code: a probe, and the guarded store with what the probe gave. */
    method ProbeAndStore(o: ObjectValue, key: string, number: Float)
      requires o.LivesIn(tree)
      modifies o`slots
      ensures o.LivesIn(tree) && o.Abs() == StoreOwn(old(o.Abs()), key, number)
    {
      var probe := NumericOwnProperty(o, key);
      if probe.NumberAt? {
        var _ := GuardedSetNumericOwnPropertySlot(tree, o, key, probe.shapeId, probe.slot, number, o.shape);
      }
    }

    /** Stores that ask no cache and look for no accessor. */
    method Store(o: ObjectValue, op: Op) returns (res: Result)
      requires o.LivesIn(tree) && Language(op) && (op.SetDirectly? || op.StoreNumber?)
      modifies o`shape, o`slots, o`deleted, tree, tree.all`next
      ensures o.LivesIn(tree) && tree.Grown() && (o.Abs(), res) == StepOwn(old(o.Abs()), op)
    {
      match op {
        case SetDirectly(_, key, value) =>
          o.Set(tree, key, value);
        case StoreNumber(_, key, number) =>
          ProbeAndStore(o, key, number);
      }
      return Completed(Defined);
    }

    method Mutate(o: ObjectValue, op: Op) returns (res: Result)
      requires o.LivesIn(tree) && Language(op)
      requires op.Remove? || op.Redefine? || op.PreventExtensions? || op.Restrict?
      modifies o`shape, o`slots, o`deleted, o`attrs, o`nonExtensible, tree, tree.all`next
      ensures o.LivesIn(tree) && tree.Grown() && (o.Abs(), res) == StepOwn(old(o.Abs()), op)
    {
      if op.Remove? {
        var ok := o.Delete(op.key);
        res := Removed(ok);
      } else if op.Redefine? {
        var out := o.DefineOwnProperty(tree, op.key, op.d);
        res := Completed(out);
      } else {
        res := Tighten(o, op);
      }
    }

    method Tighten(o: ObjectValue, op: Op) returns (res: Result)
      requires o.LivesIn(tree) && (op.PreventExtensions? || op.Restrict?)
      modifies o`shape, o`slots, o`deleted, o`attrs, o`nonExtensible, tree, tree.all`next
      ensures o.LivesIn(tree) && tree.Grown() && (o.Abs(), res) == StepOwn(old(o.Abs()), op)
    {
      match op {
        case PreventExtensions(_) =>
          o.PreventExtensions();
          res := Completed(Defined);
        case Restrict(_, frozen) =>
          var out := o.SetIntegrityLevel(tree, frozen);
          res := Completed(out);
      }
    }

    method ExecuteOn(o: ObjectValue, op: Op, ghost h: Heap) returns (res: Result)
      requires !op.Create? && !op.Relink? && op.o < |objs| && objs[op.o] == o && Represents(objs, h)
      requires o.LivesIn(tree) && cache.Valid() && Language(op)
      modifies o`shape, o`slots, o`deleted, o`attrs, o`nonExtensible, tree, tree.all`next
      modifies cache, cache.entries, cache.calls
      ensures o.LivesIn(tree) && cache.Valid() && tree.Grown()
      ensures (o.Abs(), res) == StepView(h, op)
    {
      assert Stands(objs, h, op.o);
      if op.Read? {
        res := ReadProperty(o, op.key, h, op.o);
      } else if op.Assign? {
        res := AssignProperty(o, op.key, op.value, h, op.o);
      } else if op.Invoke? {
        res := InvokeProperty(o, op.key, op.pc, h, op.o);
      } else if op.Record? {
        cache.CallPut(op.pc, o, op.key, op.f);
        res := Completed(Defined);
      } else if op.SetDirectly? || op.StoreNumber? {
        res := Store(o, op);
      } else {
        res := Mutate(o, op);
      }
    }

    method Create(proto: Parent, ghost h: Heap)
      requires Denotes(h) && InHeap(h, proto)
      modifies this`objs
      ensures Denotes(AddObject(h, proto)) && ObjectsGrown()
    {
      var o := NewObjectWithProto(tree, LinkTo(proto), objs, h, proto);
      objs := objs + [o];
    }

    method Relink(o: ObjectValue, proto: Parent, ghost h: Heap, ghost at: nat) returns (ok: bool)
      requires Denotes(h) && InHeap(h, proto) && at < |objs| && objs[at] == o
      modifies o`proto
      ensures Denotes(SetParent(h, at, proto).0) && ok == SetParent(h, at, proto).1
    {
      ok := TrySetProto(o, LinkTo(proto), objs, h, at, proto);
    }

    method Execute(op: Op, ghost h: Heap) returns (res: Result)
      requires Denotes(h) && Language(op)
      modifies this`objs, tree, tree.all`next, cache, cache.entries, cache.calls, objs
      ensures Denotes(Step(h, op).0) && res == Step(h, op).1
      ensures ObjectsGrown() && tree.Grown()
    {
      if op.Create? {
        if op.proto.At? && op.proto.o >= |objs| {
          return NoObject;
        }
        Create(op.proto, h);
        return Completed(Defined);
      }
      if op.o >= |objs| {
        return NoObject;
      }
      if op.Relink? {
        if op.proto.At? && op.proto.o >= |objs| {
          return NoObject;
        }
        var ok := Relink(objs[op.o], op.proto, h, op.o);
        return LinkTaken(ok);
      }
      res := ExecuteAt(objs[op.o], op, h);
    }

    /** The other objects stand as they stood. */
    method ExecuteApart(o: ObjectValue, op: Op, ghost h: Heap) returns (res: Result)
      requires !op.Create? && !op.Relink? && op.o < |objs| && objs[op.o] == o
      requires Valid() && Represents(objs, h) && Language(op)
      modifies o`shape, o`slots, o`deleted, o`attrs, o`nonExtensible, tree, tree.all`next
      modifies cache, cache.entries, cache.calls
      ensures Valid() && tree.Grown() && (o.Abs(), res) == StepView(h, op)
      ensures StandApart(objs, h, op.o)
    {
      res := ExecuteOn(o, op, h);
      forall i | 0 <= i < |objs| && i != op.o ensures Stands(objs, h, i) { assert old(Stands(objs, h, i)); }
      assert old(Stands(objs, h, op.o));
    }

    /** One object changes. */
    method ExecuteAt(o: ObjectValue, op: Op, ghost h: Heap) returns (res: Result)
      requires !op.Create? && !op.Relink? && op.o < |objs| && objs[op.o] == o
      requires Valid() && Represents(objs, h) && Language(op)
      modifies o`shape, o`slots, o`deleted, o`attrs, o`nonExtensible, tree, tree.all`next
      modifies cache, cache.entries, cache.calls
      ensures Valid() && tree.Grown() && res == StepView(h, op).1
      ensures Represents(objs, SetView(h, op.o, StepView(h, op).0))
    {
      res := ExecuteApart(o, op, h);
      OneChanged(objs, h, op.o, StepView(h, op).0);
    }

    /** Runs a whole history. */
    method RunAll(ops: seq<Op>, ghost h: Heap) returns (results: seq<Result>)
      requires Denotes(h) && forall op :: op in ops ==> Language(op)
      modifies this`objs, tree, tree.all`next, cache, cache.entries, cache.calls, objs
      ensures Denotes(Run(h, ops).0) && results == Run(h, ops).1
    {
      results := [];
      for i := 0 to |ops|
        invariant Denotes(Run(h, ops[..i]).0) && results == Run(h, ops[..i]).1
        invariant ObjectsGrown() && tree.Grown()
      {
        assert ops[..i + 1][..i] == ops[..i];
        var res := Execute(ops[i], Run(h, ops[..i]).0);
        results := results + [res];
      }
      assert ops[..|ops|] == ops;
    }
  }

  /** An interpreter started afresh. */
  method RunFromScratch(ops: seq<Op>) returns (engine: Engine, results: seq<Result>)
    requires forall op :: op in ops ==> Language(op)
    ensures fresh(engine) && engine.Denotes(Run(EMPTY_HEAP, ops).0) && results == Run(EMPTY_HEAP, ops).1
  {
    engine := new Engine();
    results := engine.RunAll(ops, EMPTY_HEAP);
  }
}
