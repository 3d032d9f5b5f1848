/** The shape tree: layouts shared between objects, grown one name at a time. */
module Shapes {
  import opened Wrappers

  /** Depth past which a layout no longer joins the tree. */
  const MAX_SHAPE_PROPS := 128

  class Shape {
    const id: nat
    const names: seq<string>
    const index: map<string, nat>
    ghost const parent: Shape?   // the shape this one was derived from
    var next: map<string, Shape>

    /** A layout that adds `name` to the layout of `from`. */
    constructor Derived(id: nat, from: Shape, name: string)
      ensures this.id == id && names == from.names + [name] && index == from.index[name := |from.names|]
      ensures next == map[] && parent == from
    {
      this.id := id;
      this.names := from.names + [name];
      this.index := from.index[name := |from.names|];
      this.parent := from;
      this.next := map[];
    }

    constructor Root()
      ensures id == 1 && names == [] && index == map[] && next == map[] && parent == null
    {
      id := 1;
      names := [];
      index := map[];
      parent := null;
      next := map[];
    }

    /** `index` is the inverse of `names`; both never change. */
    ghost predicate WellFormed() {
      && Distinct(names)
      && (forall i :: 0 <= i < |names| ==> names[i] in index && index[names[i]] == i)
      && (forall k :: k in index ==> index[k] < |names| && names[index[k]] == k)
    }
  }

  /** The process-wide tree with its id counter. `all` is every shape ever derived,
      including the ones too deep to be cached. */
  class ShapeTree {
    var counter: nat
    const root: Shape
    ghost var all: set<Shape>

    ghost predicate Valid()
      reads this, all
    {
      RootOk() && LayoutsOk(all, root) && IdsOk(all, root, counter) && ChildrenOk() && ParentsOk() && CanonicalOk(all)
    }

    ghost predicate RootOk()
      reads this
    {
      root in all && root.id == 1 && root.names == [] && root.parent == null
    }

    static ghost predicate LayoutsOk(all: set<Shape>, root: Shape) {
      forall s {:trigger s.WellFormed()} :: s in all ==> s.WellFormed() && (s != root ==> s.names != [])
    }

    /** The first shape derived gets id 1 as well, so ids tell apart only non-root shapes. */
    static ghost predicate IdsOk(all: set<Shape>, root: Shape, counter: nat) {
      && (forall s :: s in all && s != root ==> 1 <= s.id <= counter)
      && (forall s, t :: s in all && t in all && s != root && t != root && s.id == t.id ==> s == t)
    }

    ghost predicate ChildrenOk()
      reads this, all
    {
      forall s, name {:trigger s.next[name]} :: s in all && name in s.next ==>
        s.next[name] in all && s.next[name].names == s.names + [name]
    }

    ghost predicate ParentsOk()
      reads this, all
    {
      forall s {:trigger HangsBelowParent(s)} ::
        s in all && s != root && |s.names| <= MAX_SHAPE_PROPS ==> HangsBelowParent(s)
    }

    ghost predicate HangsBelowParent(s: Shape)
      reads this, all
    {
      && s.parent != null && s.parent in all && s.names != []
      && s.parent.names == s.names[..|s.names| - 1]
      && var last := s.names[|s.names| - 1];
         last in s.parent.next && s.parent.next[last] == s
    }

    /** Within the depth limit a layout has one shape. */
    static ghost predicate CanonicalOk(all: set<Shape>) {
      forall s, t :: s in all && t in all && s.names == t.names && |s.names| <= MAX_SHAPE_PROPS ==> s == t
    }

    /** Shapes are only ever added. */
    twostate predicate Grown()
      reads this
    {
      old(all) <= all && fresh(all - old(all))
    }

    constructor ()
      ensures Valid() && fresh(all) && all == {root} && counter == 0
    {
      root := new Shape.Root();
      counter := 0;
      new;
      all := {root};
    }

    /** Derives or finds the layout of `s` with `name` added. */
    method Transition(s: Shape, name: string) returns (ns: Shape)
      requires Valid() && s in all && name !in s.index
      modifies this, s`next
      ensures Valid() && ns in all && ns.names == s.names + [name] && ns.WellFormed()
      ensures ns.index == s.index[name := |s.names|]
      ensures old(all) <= all && all <= old(all) + {ns} && (ns in old(all) || fresh(ns))
      ensures |s.names| < MAX_SHAPE_PROPS ==> name in s.next && s.next[name] == ns
      ensures |s.names| < MAX_SHAPE_PROPS && name in old(s.next) ==> ns == old(s.next)[name] && counter == old(counter)
      ensures |s.names| >= MAX_SHAPE_PROPS ==> fresh(ns) && s.next == old(s.next)
      ensures ns !in old(all) ==> ns.id == counter == old(counter) + 1
    {
      if |s.names| >= MAX_SHAPE_PROPS {
        ns := DeriveDetached(s, name);
      } else if name in s.next {
        ns := s.next[name];
      } else {
        ns := DeriveCached(s, name);
      }
      assert s.WellFormed() && ns.WellFormed();
      IndexFollowsNames(s, ns, name);
    }

    /** A shape that could join the tree: the next id, and a layout no shape has yet. */
    method Derive(s: Shape, name: string) returns (ns: Shape)
      requires Valid() && s in all && name !in s.index
      requires |s.names| < MAX_SHAPE_PROPS ==> forall t :: t in all ==> t.names != s.names + [name]
      ensures fresh(ns) && ns.names == s.names + [name] && ns.parent == s && ns.next == map[] && ns.id == counter + 1
      ensures LayoutsOk(all + {ns}, root) && IdsOk(all + {ns}, root, counter + 1) && CanonicalOk(all + {ns})
    {
      ns := new Shape.Derived(counter + 1, s, name);
      DerivedWellFormed(s, ns, name);
      Joined(all, root, counter, ns);
    }

    /** Past the depth limit: a shape of its own that no shape leads to. */
    method DeriveDetached(s: Shape, name: string) returns (ns: Shape)
      requires Valid() && s in all && name !in s.index && |s.names| >= MAX_SHAPE_PROPS
      modifies this
      ensures Valid() && all == old(all) + {ns} && fresh(ns) && ns.names == s.names + [name]
      ensures ns.id == counter == old(counter) + 1
    {
      ns := Derive(s, name);
      counter := counter + 1;
      all := all + {ns};
      StillHanging(ns);
    }

    method DeriveCached(s: Shape, name: string) returns (ns: Shape)
      requires Valid() && s in all && name !in s.index && |s.names| < MAX_SHAPE_PROPS && name !in s.next
      modifies this, s`next
      ensures Valid() && all == old(all) + {ns} && fresh(ns) && ns.names == s.names + [name]
      ensures s.next == old(s.next)[name := ns] && ns.id == counter == old(counter) + 1
    {
      NoShapeYet(s, name);
      ns := Derive(s, name);
      counter := counter + 1;
      s.next := s.next[name := ns];
      all := all + {ns};
      forall t, n | t in all && n in t.next ensures t.next[n] in all && t.next[n].names == t.names + [n] {
        if t != s || n != name { assert n in old(t.next) && t.next[n] == old(t.next)[n]; }
      }
      StillHanging(ns);
      assert ns.names[..|s.names|] == s.names && HangsBelowParent(ns);
    }

    /** A well-formed shape with the next id joins, if no shape has its layout yet. */
    static lemma Joined(all: set<Shape>, root: Shape, counter: nat, ns: Shape)
      requires LayoutsOk(all, root) && IdsOk(all, root, counter) && CanonicalOk(all)
      requires ns !in all && ns.id == counter + 1 && ns.WellFormed() && ns.names != []
      requires |ns.names| <= MAX_SHAPE_PROPS ==> forall t :: t in all ==> t.names != ns.names
      ensures LayoutsOk(all + {ns}, root) && IdsOk(all + {ns}, root, counter + 1) && CanonicalOk(all + {ns})
    {
    }

    /** Links only get added, so the shapes that were there keep hanging where they hung. */
    twostate lemma StillHanging(new ns: Shape)
      requires old(Valid()) && all == old(all) + {ns}
      requires forall s, n :: s in old(all) && n in old(s.next) ==> n in s.next && s.next[n] == old(s.next[n])
      ensures forall s :: s in old(all) && s != root && |s.names| <= MAX_SHAPE_PROPS ==> HangsBelowParent(s)
    {
      forall s | s in old(all) && s != root && |s.names| <= MAX_SHAPE_PROPS ensures HangsBelowParent(s) {
        assert old(HangsBelowParent(s));
      }
    }

    /** A name missing from `next` means no shape has the longer layout. */
    lemma NoShapeYet(s: Shape, name: string)
      requires Valid() && s in all && |s.names| < MAX_SHAPE_PROPS && name !in s.next
      ensures forall t :: t in all ==> t.names != s.names + [name]
    {
      var longer := s.names + [name];
      assert longer[..|longer| - 1] == s.names;
      forall t | t in all && |t.names| == |longer| ensures t.names != longer {
        assert HangsBelowParent(t);
        if t.parent != s {
          assert t.parent.names != s.names;
        }
      }
    }
  }

  lemma DerivedWellFormed(s: Shape, ns: Shape, name: string)
    requires s.WellFormed() && name !in s.index
    requires ns.names == s.names + [name] && ns.index == s.index[name := |s.names|]
    ensures ns.WellFormed()
  {
    forall i | 0 <= i < |s.names| ensures s.names[i] != name {
      assert s.names[i] in s.index;
    }
  }

  lemma IndexFollowsNames(s: Shape, ns: Shape, name: string)
    requires s.WellFormed() && ns.WellFormed() && ns.names == s.names + [name]
    ensures ns.index == s.index[name := |s.names|]
  {
    assert ns.names[|s.names|] == name;
    forall k ensures k in ns.index <==> k in s.index || k == name {
      if k in ns.index && k != name { assert s.names[ns.index[k]] == k; }
      if k in s.index { assert ns.names[s.index[k]] == k; }
    }
    forall k | k in s.index ensures ns.index[k] == s.index[name := |s.names|][k] {
      assert ns.names[s.index[k]] == k;
    }
  }
}
