/** The registry of weak references kept while monitoring is on: its sweep threshold, and
    the amortised cost of the automatic sweeps. */
module WeakRegistry {

  const GC_SWEEP_EVERY: nat := 4096

  class Registry {
    var objects: set<nat>
    var sweepAt: nat
    ghost var registered: nat   // registrations so far
    ghost var scanned: nat      // entries looked at by automatic sweeps so far
    ghost var recent: nat       // registrations since the threshold was last set
    ghost var base: nat         // entries there were when it was last set

    /** The table is below its threshold; all scanning so far is paid for, two units each,
        by the registrations before the threshold was last set. */
    ghost predicate Valid()
      reads this
    {
      && |objects| < sweepAt && GC_SWEEP_EVERY <= sweepAt && 2 * base <= sweepAt
      && |objects| <= base + recent && recent <= registered
      && scanned <= 2 * (registered - recent)
    }

    constructor ()
      ensures Valid() && objects == {} && registered == 0 && scanned == 0
    {
      objects, sweepAt := {}, GC_SWEEP_EVERY;
      registered, scanned, recent, base := 0, 0, 0, 0;
    }

    /** Removes the dead entries; which ones are dead is up to the runtime. */
    method RemoveDead(dead: set<nat>) returns (live: nat)
      modifies this`objects
      ensures objects == old(objects) - dead && live == |objects|
    {
      live := 0;
      var rest := objects;
      ghost var kept: set<nat> := {};
      while rest != {}
        invariant rest <= old(objects) && kept == (old(objects) - rest) - dead
        invariant objects == kept + rest && live == |kept|
        decreases rest
      {
        var w :| w in rest;
        rest := rest - {w};
        if w in dead {
          objects := objects - {w};
        } else {
          assert w !in kept && |kept + {w}| == |kept| + 1;
          kept := kept + {w};
          live := live + 1;
        }
      }
    }

    method ResetSweepAt()
      modifies this`sweepAt, this`recent, this`base
      ensures sweepAt == (if |objects| > 2048 then 2 * |objects| else 4096) && recent == 0 && base == |objects|
    {
      var next := 2 * |objects|;
      if next > GC_SWEEP_EVERY {
        sweepAt := next;
      } else {
        sweepAt := GC_SWEEP_EVERY;
      }
      recent, base := 0, |objects|;
    }

    /** Registers an object; the table is swept when it reaches the threshold. */
    method Register(w: nat, dead: set<nat>)
      requires Valid()
      modifies this
      ensures Valid() && registered == old(registered) + 1
      ensures objects == if |old(objects) + {w}| >= old(sweepAt) then old(objects) + {w} - dead else old(objects) + {w}
      ensures scanned == old(scanned) + if |old(objects) + {w}| >= old(sweepAt) then |old(objects) + {w}| else 0
    {
      assert |objects + {w}| <= |objects| + 1;
      objects := objects + {w};
      registered, recent := registered + 1, recent + 1;
      if |objects| >= sweepAt {
        scanned := scanned + |objects|;
        var _ := RemoveDead(dead);
        ResetSweepAt();
      }
    }

    /** An explicit collection also cuts the table and must reset the threshold. */
    method Collect(dead: set<nat>) returns (live: nat)
      requires Valid()
      modifies this
      ensures Valid() && objects == old(objects) - dead && live == |objects|
      ensures registered == old(registered) && scanned == old(scanned)
    {
      live := 0;
      if |objects| > 0 {
        live := RemoveDead(dead);
        ResetSweepAt();
      } else {
        assert objects == objects - dead;
      }
    }

    method RunAll(events: seq<Event>)
      requires Valid() && registered == 0 && scanned == 0
      modifies this
      ensures Valid() && scanned <= 2 * registered && registered == Registrations(events)
    {
      for i := 0 to |events|
        invariant Valid() && registered == Registrations(events[..i])
      {
        assert events[..i + 1][..i] == events[..i];
        match events[i] {
          case Created(w, dead) => Register(w, dead);
          case Collected(dead) => var _ := Collect(dead);
        }
      }
      assert events[..|events|] == events;
    }
  }

  datatype Event = Created(w: nat, dead: set<nat>) | Collected(dead: set<nat>)

  function Registrations(events: seq<Event>): nat
    decreases |events|
  {
    if events == [] then 0
    else Registrations(events[..|events| - 1]) + if events[|events| - 1].Created? then 1 else 0
  }
}
