/** Walks along the prototype links of the plain objects of one interpreter. */
module ProtoChains {
  import opened Wrappers
  import opened Values
  import opened Inheritance
  import opened Heaps
  import opened Shapes
  import opened Objects

  /** A link is the parent the heap has for the object. */
  ghost predicate LinkIs(objs: seq<ObjectValue>, link: Link, p: Parent) {
    match link
    case NoProto => p.NoParent?
    case Exotic(id) => p == Foreign(id)
    case Plain(o) => p.At? && p.o < |objs| && objs[p.o] == o
  }

  ghost predicate Stands(objs: seq<ObjectValue>, h: Heap, i: nat)
    requires i < |objs| && |h.views| == |h.parents| == |objs|
    reads objs[i]
  {
    objs[i].Valid() && objs[i].Abs() == h.views[i] && LinkIs(objs, objs[i].proto, h.parents[i])
  }

  /** The objects are those of the heap, in order. */
  ghost predicate Represents(objs: seq<ObjectValue>, h: Heap)
    reads objs
  {
    && h.Linked() && |objs| == |h.views| && Distinct(objs)
    && forall i :: 0 <= i < |objs| ==> Stands(objs, h, i)
  }

  datatype Lookup = Found(v: Value) | Missing | LeavesPlain(id: nat)

  /** What a walk up from object `o` finds. */
  ghost function ChainLookup(h: Heap, o: nat, key: string): Lookup
    requires h.Linked() && o < |h.views|
  {
    var holder := FirstHolder(Chain(h, o), key);
    if holder.Some? then Found(holder.value.value)
    else if End(h, o).Foreign? then LeavesPlain(End(h, o).id)
    else Missing
  }

  /** One step of a walk. */
  lemma LookupStep(objs: seq<ObjectValue>, h: Heap, o: nat, key: string)
    requires Represents(objs, h) && o < |objs| && Stands(objs, h, o)
    ensures var own := objs[o].GetSlot(key);
      ChainLookup(h, o, key) ==
      if own.Some? then Found(own.value)
      else match objs[o].proto
        case NoProto => Missing
        case Exotic(id) => LeavesPlain(id)
        case Plain(_) => ChainLookup(h, h.parents[o].o, key)
  {
    ChainOfParent(h, o);
    var c := Chain(h, o);
    assert c[0] == objs[o].Abs();
    assert FirstHolder(c, key) == if key in c[0].own then Some(c[0].own[key]) else FirstHolder(c[1..], key);
    assert End(h, o) == if h.parents[o].At? then End(h, h.parents[o].o) else h.parents[o];
  }

  /** Property read along the chain. */
  method Get(obj: ObjectValue, key: string, ghost objs: seq<ObjectValue>, ghost h: Heap, ghost o: nat)
    returns (r: Lookup)
    requires Represents(objs, h) && o < |objs| && objs[o] == obj
    ensures r == ChainLookup(h, o, key)
  {
    var cur := obj;
    ghost var at: nat := o;
    while true
      invariant at < |objs| && objs[at] == cur && ChainLookup(h, at, key) == ChainLookup(h, o, key)
      decreases h.ranks[at]
    {
      assert Stands(objs, h, at);
      LookupStep(objs, h, at, key);
      var own := cur.GetSlot(key);
      if own.Some? {
        return Found(own.value);
      }
      match cur.proto {
        case NoProto => return Missing;
        case Exotic(id) => return LeavesPlain(id);
        case Plain(p) =>
          cur := p;
          at := h.parents[at].o;
      }
    }
  }

  /** The accessor that shadows everything above it, if that is what is found first. */
  method FindAccessor(obj: ObjectValue, key: string, ghost objs: seq<ObjectValue>, ghost h: Heap, ghost o: nat)
    returns (r: Lookup)
    requires Represents(objs, h) && o < |objs| && objs[o] == obj
    ensures var found := ChainLookup(h, o, key);
      r == if found.Found? && !found.v.Accessor? then Missing else found
  {
    var cur := obj;
    ghost var at: nat := o;
    while true
      invariant at < |objs| && objs[at] == cur && ChainLookup(h, at, key) == ChainLookup(h, o, key)
      decreases h.ranks[at]
    {
      assert Stands(objs, h, at);
      LookupStep(objs, h, at, key);
      var own := cur.GetSlot(key);
      if own.Some? {
        return if own.value.Accessor? then Found(own.value) else Missing;
      }
      match cur.proto {
        case NoProto => return Missing;
        case Exotic(id) => return LeavesPlain(id);
        case Plain(p) =>
          cur := p;
          at := h.parents[at].o;
      }
    }
  }

  /** The JIT's method lookup succeeds exactly when a read finds the key on the plain part
      of the chain, and gives what the read gives. */
  method GuardedMethodLookup(obj: ObjectValue, key: string, ghost objs: seq<ObjectValue>, ghost h: Heap, ghost o: nat)
    returns (v: Value, ok: bool)
    requires Represents(objs, h) && o < |objs| && objs[o] == obj
    ensures ok <==> ChainLookup(h, o, key).Found?
    ensures ok ==> ChainLookup(h, o, key) == Found(v)
  {
    var cur := obj;
    ghost var at: nat := o;
    while true
      invariant at < |objs| && objs[at] == cur && ChainLookup(h, at, key) == ChainLookup(h, o, key)
      decreases h.ranks[at]
    {
      assert Stands(objs, h, at);
      LookupStep(objs, h, at, key);
      var own := cur.GetSlot(key);
      if own.Some? {
        return own.value, true;
      }
      if cur.proto.NoProto? {
        return Undefined, false;
      }
      if cur.proto.Exotic? {
        return Undefined, false;
      }
      cur := cur.proto.o;
      at := h.parents[at].o;
    }
  }

  // ----- links ---------------------------------------------------------------------------------

  method NewObjectWithProto(tree: ShapeTree, proto: Link, ghost objs: seq<ObjectValue>, ghost h: Heap, ghost p: Parent)
    returns (o: ObjectValue)
    requires tree.Valid() && Represents(objs, h) && LinkIs(objs, proto, p)
    ensures fresh(o) && o.LivesIn(tree) && Represents(objs + [o], AddObject(h, p))
  {
    o := new ObjectValue.Blank(tree, tree.root, proto);
    assert o !in objs;
    ghost var more, h' := objs + [o], AddObject(h, p);
    forall i | 0 <= i < |more| ensures Stands(more, h', i) {
      if i < |objs| { assert Stands(objs, h, i); }
    }
  }

  /** Whether `obj` is on the chain of plain objects that starts with the link. */
  method OnChain(proto: Link, obj: ObjectValue, ghost objs: seq<ObjectValue>, ghost h: Heap, ghost o: nat,
                 ghost p: Parent)
    returns (found: bool)
    requires Represents(objs, h) && o < |objs| && objs[o] == obj && LinkIs(objs, proto, p)
    ensures found <==> p.At? && Reaches(h, p.o, o)
  {
    var cur := proto;
    ghost var at := p;
    while cur.Plain?
      invariant LinkIs(objs, cur, at)
      invariant (p.At? && Reaches(h, p.o, o)) <==> (at.At? && Reaches(h, at.o, o))
      decreases if at.At? then h.ranks[at.o] + 1 else 0
    {
      assert Stands(objs, h, at.o);
      if cur.o == obj {
        return true;
      }
      at := h.parents[at.o];
      cur := cur.o.proto;
    }
    return false;
  }

  /** [[SetPrototypeOf]] on the heap. */
  method TrySetProto(obj: ObjectValue, proto: Link, ghost objs: seq<ObjectValue>, ghost h: Heap, ghost o: nat,
                     ghost p: Parent)
    returns (ok: bool)
    requires Represents(objs, h) && o < |objs| && objs[o] == obj && LinkIs(objs, proto, p)
    modifies obj`proto
    ensures Represents(objs, SetParent(h, o, p).0) && ok == SetParent(h, o, p).1
  {
    assert Stands(objs, h, o);
    if obj.proto == proto {
      return true;
    }
    if obj.nonExtensible {
      return false;
    }
    var cyclic := OnChain(proto, obj, objs, h, o, p);
    if cyclic {
      return false;
    }
    obj.proto := proto;
    ghost var h' := Relinked(h, o, p);
    forall i | 0 <= i < |objs| ensures Stands(objs, h', i) {
      assert old(Stands(objs, h, i));
    }
    return true;
  }
}
