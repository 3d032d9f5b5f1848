/** Plain objects with their prototype links, as a value. */
module Heaps {
  import opened Ordinary
  import opened Inheritance

  /** A foreign prototype is not a plain object; what lies behind it is not modelled. */
  datatype Parent = NoParent | At(o: nat) | Foreign(id: nat)

  /** `ranks` falls along every link: it witnesses that chains end, and nothing else
      depends on it. */
  datatype Heap = Heap(views: seq<View>, parents: seq<Parent>, ranks: seq<nat>) {
    ghost predicate Linked() {
      && |views| == |parents| == |ranks|
      && forall i :: 0 <= i < |parents| && parents[i].At? ==>
           parents[i].o < |views| && ranks[parents[i].o] < ranks[i]
    }

    ghost predicate Valid() {
      Linked() && forall i :: 0 <= i < |views| ==> views[i].Valid()
    }
  }

  const EMPTY_HEAP := Heap([], [], [])

  predicate InHeap(h: Heap, p: Parent) {
    p.At? ==> p.o < |h.views|
  }

  /** The object and its plain ancestors, nearest first. */
  ghost function Chain(h: Heap, o: nat): (c: seq<View>)
    requires h.Linked() && o < |h.views|
    ensures c != [] && c[0] == h.views[o]
    decreases h.ranks[o]
  {
    [h.views[o]] + if h.parents[o].At? then Chain(h, h.parents[o].o) else []
  }

  /** What the chain of plain objects ends in. */
  ghost function End(h: Heap, o: nat): (p: Parent)
    requires h.Linked() && o < |h.views|
    ensures !p.At?
    decreases h.ranks[o]
  {
    if h.parents[o].At? then End(h, h.parents[o].o) else h.parents[o]
  }

  ghost predicate Reaches(h: Heap, o: nat, target: nat)
    requires h.Linked() && o < |h.views|
    decreases h.ranks[o]
  {
    o == target || (h.parents[o].At? && Reaches(h, h.parents[o].o, target))
  }

  lemma ChainOfParent(h: Heap, o: nat)
    requires h.Linked() && o < |h.views|
    ensures Chain(h, o)[1..] == if h.parents[o].At? then Chain(h, h.parents[o].o) else []
  {
  }

  /** A lookup misses exactly when no object of the chain has the key. */
  lemma {:induction false} MissingIffNobodyHolds(h: Heap, o: nat, key: string)
    requires h.Linked() && o < |h.views|
    ensures FirstHolder(Chain(h, o), key).None? <==>
            forall p: nat :: p < |h.views| && Reaches(h, o, p) ==> key !in h.views[p].own
    decreases h.ranks[o]
  {
    ChainOfParent(h, o);
    if key in h.views[o].own {
      assert Reaches(h, o, o);
    } else if h.parents[o].At? {
      var q := h.parents[o].o;
      MissingIffNobodyHolds(h, q, key);
      if FirstHolder(Chain(h, q), key).Some? {
        var p: nat :| p < |h.views| && Reaches(h, q, p) && key in h.views[p].own;
        assert Reaches(h, o, p);
      }
    }
  }

  /** No object is its own proper ancestor. */
  lemma NoCycle(h: Heap, o: nat, p: nat)
    requires h.Linked() && o < |h.views| && p < |h.views| && Reaches(h, o, p) && o != p
    ensures !Reaches(h, p, o)
  {
    RankFalls(h, o, p);
    if Reaches(h, p, o) { RankFalls(h, p, o); }
  }

  lemma {:induction false} RankFalls(h: Heap, o: nat, p: nat)
    requires h.Linked() && o < |h.views| && p < |h.views| && Reaches(h, o, p)
    ensures o == p || h.ranks[p] < h.ranks[o]
    decreases h.ranks[o]
  {
    if o != p { RankFalls(h, h.parents[o].o, p); }
  }

  // ----- changing the heap -------------------------------------------------------------------

  ghost function AddObject(h: Heap, p: Parent): (r: Heap)
    requires h.Linked() && InHeap(h, p)
    ensures r.Linked()
  {
    Heap(h.views + [EMPTY_VIEW], h.parents + [p], h.ranks + [if p.At? then h.ranks[p.o] + 1 else 0])
  }

  function SetView(h: Heap, o: nat, v: View): Heap
    requires o < |h.views|
  {
    h.(views := h.views[o := v])
  }

  /** Everything that reaches `o` is lifted above the new parent. */
  ghost function Relinked(h: Heap, o: nat, p: Parent): (r: Heap)
    requires h.Linked() && o < |h.views| && InHeap(h, p) && (p.At? ==> !Reaches(h, p.o, o))
    ensures r.Linked() && r.views == h.views
  {
    var lift := if p.At? then h.ranks[p.o] + 1 else 0;
    var ranks := seq(|h.ranks|, i requires 0 <= i < |h.ranks| => h.ranks[i] + if Reaches(h, i, o) then lift else 0);
    h.(parents := h.parents[o := p], ranks := ranks)
  }

  /** [[SetPrototypeOf]] of section 10.1.2.1 of ECMA-262: refused on a non-extensible object
      and when the object is already on the new chain. */
  ghost function SetParent(h: Heap, o: nat, p: Parent): (r: (Heap, bool))
    requires h.Linked() && o < |h.views| && InHeap(h, p)
    ensures r.0.Linked() && r.0.views == h.views
  {
    if h.parents[o] == p then (h, true)
    else if !h.views[o].extensible then (h, false)
    else if p.At? && Reaches(h, p.o, o) then (h, false)
    else (Relinked(h, o, p), true)
  }
}
