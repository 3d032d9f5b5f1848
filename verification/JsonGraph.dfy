/** Object graphs to JSON and back: cycles are refused, shared objects are not. */
module JsonGraph {
  import opened Wrappers

  /** A value of the language; objects, arrays and functions are references. `Opaque`
      stands for symbols and big integers, which JSON has no room for. */
  datatype Value = Undefined | Null | Bool(b: bool) | Number(n: int) | Str(s: string) | Opaque | Ref(o: nat)

  /** An array with its elements (a hole reads as undefined), or the enumerable own keys of
      any other object with what reading them gives. */
  datatype Node = Array(elems: seq<Value>) | Keyed(entries: seq<(string, Value)>)

  type Heap = map<nat, Node>

  datatype Json =
    | JNull | JBool(b: bool) | JNumber(n: int) | JStr(s: string) | JArr(js: seq<Json>) | JObj(m: map<string, Json>)

  ghost predicate DistinctKeys(es: seq<(string, Value)>) {
    forall i, j :: 0 <= i < j < |es| ==> es[i].0 != es[j].0
  }

  function ValuesOf(es: seq<(string, Value)>): seq<Value> {
    seq(|es|, i requires 0 <= i < |es| => es[i].1)
  }

  function Children(n: Node): seq<Value> {
    match n case Array(elems) => elems case Keyed(entries) => ValuesOf(entries)
  }

  ghost predicate Known(h: Heap, v: Value) {
    v.Ref? ==> v.o in h
  }

  ghost predicate Closed(h: Heap) {
    && (forall o, v :: o in h && v in Children(h[o]) ==> Known(h, v))
    && (forall o :: o in h && h[o].Keyed? ==> DistinctKeys(h[o].entries))
  }

  // ----- what a value means as a tree --------------------------------------------------------

  /** `j` is the JSON reading of `v`; undefined and what JSON cannot say read as null. */
  ghost predicate Denotes(h: Heap, v: Value, j: Json)
    decreases j
  {
    match j
    case JNull => v.Undefined? || v.Null? || v.Opaque?
    case JBool(b) => v == Bool(b)
    case JNumber(n) => v == Number(n)
    case JStr(s) => v == Str(s)
    case JArr(js) =>
      && v.Ref? && v.o in h && h[v.o].Array? && |js| == |h[v.o].elems|
      && forall i :: 0 <= i < |js| ==> Denotes(h, h[v.o].elems[i], js[i])
    case JObj(m) =>
      && v.Ref? && v.o in h && h[v.o].Keyed? && DistinctKeys(h[v.o].entries)
      && (forall k :: k in m <==> exists i :: 0 <= i < |h[v.o].entries| && h[v.o].entries[i].0 == k)
      && forall i :: 0 <= i < |h[v.o].entries| ==>
           h[v.o].entries[i].0 in m && Denotes(h, h[v.o].entries[i].1, m[h[v.o].entries[i].0])
  }

  /** A value has at most one reading. */
  lemma {:induction false} DenotesUnique(h: Heap, v: Value, j: Json, k: Json)
    requires Denotes(h, v, j) && Denotes(h, v, k)
    ensures j == k
    decreases j
  {
    if j.JArr? {
      forall i | 0 <= i < |j.js| ensures j.js[i] == k.js[i] {
        DenotesUnique(h, h[v.o].elems[i], j.js[i], k.js[i]);
      }
    } else if j.JObj? {
      assert j.m.Keys == k.m.Keys;
      forall x | x in j.m ensures j.m[x] == k.m[x] {
        var i :| 0 <= i < |h[v.o].entries| && h[v.o].entries[i].0 == x;
        DenotesUnique(h, h[v.o].entries[i].1, j.m[x], k.m[x]);
      }
    }
  }

  // ----- the conversion as a function ----------------------------------------------------------

  /** `path` holds the objects being converted; meeting one again is the error, None. */
  function ToJson(h: Heap, v: Value, path: set<nat>): Option<Json>
    requires Closed(h) && Known(h, v)
    decreases h.Keys - path, 2, 0
  {
    match v
    case Undefined => Some(JNull)
    case Null => Some(JNull)
    case Str(s) => Some(JStr(s))
    case Bool(b) => Some(JBool(b))
    case Number(n) => Some(JNumber(n))
    case Opaque => Some(JNull)
    case Ref(o) =>
      if o in path then None
      else
        var js := ToJsonAll(h, Children(h[o]), path + {o});
        if js.None? then None
        else if h[o].Array? then Some(JArr(js.value))
        else Some(JObj(MapOf(h[o].entries, js.value)))
  }

  function ToJsonAll(h: Heap, vs: seq<Value>, path: set<nat>): (r: Option<seq<Json>>)
    requires Closed(h) && forall v :: v in vs ==> Known(h, v)
    ensures r.Some? ==> |r.value| == |vs|
    decreases h.Keys - path, 3, |vs|
  {
    if vs == [] then Some([])
    else
      var init := ToJsonAll(h, vs[..|vs| - 1], path);
      if init.None? then None
      else
        var last := ToJson(h, vs[|vs| - 1], path);
        if last.None? then None else Some(init.value + [last.value])
  }

  function MapOf(es: seq<(string, Value)>, js: seq<Json>): map<string, Json>
    requires |js| == |es|
  {
    if es == [] then map[]
    else MapOf(es[..|es| - 1], js[..|es| - 1])[es[|es| - 1].0 := js[|es| - 1]]
  }

  lemma {:induction false} MapOfMeaning(es: seq<(string, Value)>, js: seq<Json>)
    requires |js| == |es| && DistinctKeys(es)
    ensures forall k :: k in MapOf(es, js) <==> exists i :: 0 <= i < |es| && es[i].0 == k
    ensures forall i :: 0 <= i < |es| ==> es[i].0 in MapOf(es, js) && MapOf(es, js)[es[i].0] == js[i]
  {
    if es != [] {
      var n := |es| - 1;
      MapOfMeaning(es[..n], js[..n]);
      var m := MapOf(es, js);
      forall k ensures k in m <==> exists i :: 0 <= i < |es| && es[i].0 == k {
        if k in MapOf(es[..n], js[..n]) {
          var i :| 0 <= i < n && es[..n][i].0 == k;
          assert es[i].0 == k;
        }
        if i :| 0 <= i < |es| && es[i].0 == k && i < n {
          assert es[..n][i].0 == k;
        }
        assert es[n].0 in m;
      }
      forall i | 0 <= i < |es| ensures es[i].0 in m && m[es[i].0] == js[i] {
        if i < n { assert es[..n][i] == es[i] && es[i].0 != es[n].0; }
      }
    }
  }

  /** A conversion that succeeds yields the reading of the value. */
  lemma {:induction false} ConvertsToReading(h: Heap, v: Value, path: set<nat>)
    requires Closed(h) && Known(h, v) && ToJson(h, v, path).Some?
    ensures Denotes(h, v, ToJson(h, v, path).value)
    decreases h.Keys - path, 2, 0
  {
    if v.Ref? {
      var n := h[v.o];
      var js := ToJsonAll(h, Children(n), path + {v.o}).value;
      AllConvert(h, Children(n), path + {v.o});
      if n.Keyed? {
        MapOfMeaning(n.entries, js);
        forall i | 0 <= i < |n.entries| ensures Denotes(h, n.entries[i].1, js[i]) {
          assert Children(n)[i] == n.entries[i].1;
        }
      }
    }
  }

  lemma {:induction false} AllConvert(h: Heap, vs: seq<Value>, path: set<nat>)
    requires Closed(h) && (forall v :: v in vs ==> Known(h, v)) && ToJsonAll(h, vs, path).Some?
    ensures forall i :: 0 <= i < |vs| ==> Denotes(h, vs[i], ToJsonAll(h, vs, path).value[i])
    decreases h.Keys - path, 3, |vs|
  {
    if vs != [] {
      AllConvert(h, vs[..|vs| - 1], path);
      ConvertsToReading(h, vs[|vs| - 1], path);
    }
  }

  // ----- exactly the cyclic graphs are refused ---------------------------------------------------

  ghost predicate Holds(h: Heap, o: nat, p: nat) {
    o in h && Ref(p) in Children(h[o])
  }

  /** Objects each of which holds the next. */
  ghost predicate IsChain(h: Heap, c: seq<nat>) {
    c != [] && forall i, j :: 0 <= i < j < |c| && j == i + 1 ==> Holds(h, c[i], c[j])
  }

  ghost predicate Reaches(h: Heap, o: nat, p: nat) {
    exists c :: IsChain(h, c) && c[0] == o && c[|c| - 1] == p
  }

  /** In one or more steps. */
  ghost predicate ReachesItself(h: Heap, o: nat) {
    exists c :: IsChain(h, c) && |c| >= 2 && c[0] == o && c[|c| - 1] == o
  }

  ghost predicate Cyclic(h: Heap, v: Value) {
    v.Ref? && exists p :: Reaches(h, v.o, p) && ReachesItself(h, p)
  }

  /** A chain whose end is on the path or occurs earlier in the chain. */
  ghost predicate ComesBack(h: Heap, c: seq<nat>, path: set<nat>) {
    IsChain(h, c) && (c[|c| - 1] in path || c[|c| - 1] in c[..|c| - 1])
  }

  /** A refused conversion has run along a chain that comes back. */
  lemma {:induction false} RefusedComesBack(h: Heap, v: Value, path: set<nat>) returns (c: seq<nat>)
    requires Closed(h) && Known(h, v) && ToJson(h, v, path).None?
    ensures v.Ref? && ComesBack(h, c, path) && c[0] == v.o
    decreases h.Keys - path, 2, 0
  {
    if v.o in path {
      c := [v.o];
    } else {
      var k, d := RefusedChild(h, Children(h[v.o]), path + {v.o});
      c := [v.o] + d;
      assert Children(h[v.o])[k] == Ref(d[0]);
      assert c[..|c| - 1] == [v.o] + d[..|d| - 1];
      forall i | 0 <= i < |c| - 1 ensures Holds(h, c[i], c[i + 1]) {
        if i > 0 { assert Holds(h, d[i - 1], d[i]); }
      }
    }
  }

  lemma {:induction false} RefusedChild(h: Heap, vs: seq<Value>, path: set<nat>) returns (k: nat, c: seq<nat>)
    requires Closed(h) && (forall v :: v in vs ==> Known(h, v)) && ToJsonAll(h, vs, path).None?
    ensures k < |vs| && vs[k].Ref? && ComesBack(h, c, path) && c[0] == vs[k].o
    decreases h.Keys - path, 3, |vs|
  {
    var n := |vs| - 1;
    if ToJsonAll(h, vs[..n], path).None? {
      k, c := RefusedChild(h, vs[..n], path);
    } else {
      k := n;
      c := RefusedComesBack(h, vs[n], path);
    }
  }

  /** A chain that comes back is refused. */
  lemma {:induction false} ComesBackRefused(h: Heap, c: seq<nat>, path: set<nat>)
    requires Closed(h) && ComesBack(h, c, path) && c[0] in h
    ensures ToJson(h, Ref(c[0]), path).None?
    decreases |c|
  {
    if c[0] !in path {
      assert |c| > 1;
      var d := c[1..];
      assert Holds(h, c[0], c[1]);
      assert d[|d| - 1] == c[|c| - 1];
      if c[|c| - 1] !in path + {c[0]} {
        assert c[..|c| - 1] == [c[0]] + d[..|d| - 1];
      }
      assert IsChain(h, d) by {
        forall i | 0 <= i < |d| - 1 ensures Holds(h, d[i], d[i + 1]) { assert Holds(h, c[i + 1], c[i + 2]); }
      }
      assert Known(h, Ref(c[1]));
      ComesBackRefused(h, d, path + {c[0]});
      var vs := Children(h[c[0]]);
      var k :| 0 <= k < |vs| && vs[k] == Ref(c[1]);
      ChildRefuses(h, vs, path + {c[0]}, k);
    }
  }

  lemma {:induction false} ChildRefuses(h: Heap, vs: seq<Value>, path: set<nat>, k: nat)
    requires Closed(h) && (forall v :: v in vs ==> Known(h, v)) && k < |vs| && ToJson(h, vs[k], path).None?
    ensures ToJsonAll(h, vs, path).None?
    decreases |vs|
  {
    if k < |vs| - 1 { ChildRefuses(h, vs[..|vs| - 1], path, k); }
  }

  /** The conversion fails exactly when some object reachable from the value reaches itself;
      objects that are merely shared are accepted. */
  lemma RefusedExactlyIfCyclic(h: Heap, v: Value)
    requires Closed(h) && Known(h, v)
    ensures ToJson(h, v, {}).None? <==> Cyclic(h, v)
  {
    if ToJson(h, v, {}).None? {
      var c := RefusedComesBack(h, v, {});
      BackIsCycle(h, v, c);
    } else if Cyclic(h, v) {
      var p :| Reaches(h, v.o, p) && ReachesItself(h, p);
      var c := CycleComesBack(h, v.o, p);
      ComesBackRefused(h, c, {});
    }
  }

  lemma BackIsCycle(h: Heap, v: Value, c: seq<nat>)
    requires v.Ref? && ComesBack(h, c, {}) && c[0] == v.o
    ensures Cyclic(h, v)
  {
    var n := |c| - 1;
    var i :| 0 <= i < n && c[..n][i] == c[n];
    ChainPart(h, c, 0, i);
    ChainPart(h, c, i, n);
    var a, b := c[0..i + 1], c[i..n + 1];
    assert IsChain(h, a) && a[0] == v.o && a[|a| - 1] == c[i];
    assert IsChain(h, b) && |b| >= 2 && b[0] == c[i] && b[|b| - 1] == c[i];
    assert Reaches(h, v.o, c[i]) && ReachesItself(h, c[i]);
  }

  lemma CycleComesBack(h: Heap, o: nat, p: nat) returns (c: seq<nat>)
    requires Reaches(h, o, p) && ReachesItself(h, p)
    ensures ComesBack(h, c, {}) && c[0] == o
  {
    var a :| IsChain(h, a) && a[0] == o && a[|a| - 1] == p;
    var b :| IsChain(h, b) && |b| >= 2 && b[0] == p && b[|b| - 1] == p;
    c := a + b[1..];
    forall i | 0 <= i < |c| - 1 ensures Holds(h, c[i], c[i + 1]) {
      if i < |a| - 1 { assert Holds(h, a[i], a[i + 1]); }
      else { assert Holds(h, b[i - (|a| - 1)], b[i - (|a| - 1) + 1]); }
    }
    assert c[..|c| - 1][|a| - 1] == p;
  }

  lemma ChainPart(h: Heap, c: seq<nat>, i: nat, j: nat)
    requires IsChain(h, c) && i <= j < |c|
    ensures IsChain(h, c[i..j + 1]) && c[i..j + 1][0] == c[i] && c[i..j + 1][j - i] == c[j]
  {
    var d := c[i..j + 1];
    forall k | 0 <= k < |d| - 1 ensures Holds(h, d[k], d[k + 1]) { assert Holds(h, c[i + k], c[i + k + 1]); }
  }

  // ----- the converter, which keeps the current path in a set it shares with its callers -----------

  class PathSet {
    var objs: set<nat>
    constructor ()
      ensures objs == {}
    {
      objs := {};
    }
  }

  method ValueToJson(h: Heap, v: Value, seen: PathSet) returns (r: Option<Json>)
    requires Closed(h) && Known(h, v)
    modifies seen
    ensures r == ToJson(h, v, old(seen.objs)) && (r.Some? ==> seen.objs == old(seen.objs))
    decreases h.Keys - seen.objs, 2, 0
  {
    match v {
      case Undefined => return Some(JNull);
      case Null => return Some(JNull);
      case Str(s) => return Some(JStr(s));
      case Bool(b) => return Some(JBool(b));
      case Number(n) => return Some(JNumber(n));
      case Opaque => return Some(JNull);
      case Ref(o) =>
        if o in seen.objs {
          return None;
        }
        ghost var path := seen.objs;
        seen.objs := seen.objs + {o};
        var vs := Children(h[o]);
        var out: seq<Json> := [];
        assert vs[..0] == [];
        for i := 0 to |vs|
          invariant seen.objs == path + {o} && |out| == i
          invariant ToJsonAll(h, vs[..i], path + {o}) == Some(out)
        {
          assert vs[..i + 1][..i] == vs[..i];
          var e := ValueToJson(h, vs[i], seen);
          if e.None? {
            ChildRefuses(h, vs, path + {o}, i);
            return None;
          }
          out := out + [e.value];
        }
        assert vs[..|vs|] == vs;
        seen.objs := seen.objs - {o};
        assert seen.objs == path;
        return Some(if h[o].Array? then JArr(out) else JObj(MapOf(h[o].entries, out)));
    }
  }

  // ----- and back ------------------------------------------------------------------------------

  ghost predicate Below(h: Heap, next: nat) {
    forall o :: o in h ==> o < next
  }

  /** Adding objects does not change what the old ones mean. */
  lemma {:induction false} DenotesInLarger(h: Heap, h': Heap, v: Value, j: Json)
    requires Denotes(h, v, j) && forall o :: o in h ==> o in h' && h'[o] == h[o]
    ensures Denotes(h', v, j)
    decreases j
  {
    if j.JArr? {
      forall i | 0 <= i < |j.js| ensures Denotes(h', h[v.o].elems[i], j.js[i]) {
        DenotesInLarger(h, h', h[v.o].elems[i], j.js[i]);
      }
    } else if j.JObj? {
      forall i | 0 <= i < |h[v.o].entries| ensures Denotes(h', h[v.o].entries[i].1, j.m[h[v.o].entries[i].0]) {
        DenotesInLarger(h, h', h[v.o].entries[i].1, j.m[h[v.o].entries[i].0]);
      }
    }
  }

  ghost predicate Extends(h: Heap, h': Heap) {
    forall o :: o in h ==> o in h' && h'[o] == h[o]
  }

  /** Builds fresh objects for a JSON tree; the keys of an object come in any order. */
  method JsonToEngine(h: Heap, next: nat, j: Json) returns (h': Heap, next': nat, v: Value)
    requires Below(h, next)
    ensures Below(h', next') && next <= next' && Extends(h, h') && Denotes(h', v, j)
    ensures v.Ref? ==> next <= v.o < next'
    decreases j, 1
  {
    h', next' := h, next;
    match j {
      case JNull => v := Null;
      case JBool(b) => v := Bool(b);
      case JNumber(n) => v := Number(n);
      case JStr(s) => v := Str(s);
      case JArr(js) =>
        var elems: seq<Value> := [];
        for i := 0 to |js|
          invariant Below(h', next') && next <= next' && Extends(h, h') && |elems| == i
          invariant forall k :: 0 <= k < i ==> Denotes(h', elems[k], js[k])
        {
          var h2, n2, e := JsonToEngine(h', next', js[i]);
          forall k | 0 <= k < i ensures Denotes(h2, elems[k], js[k]) {
            DenotesInLarger(h', h2, elems[k], js[k]);
          }
          h', next', elems := h2, n2, elems + [e];
        }
        var before := h';
        h', v, next' := h'[next' := Array(elems)], Ref(next'), next' + 1;
        forall k | 0 <= k < |js| ensures Denotes(h', elems[k], js[k]) {
          DenotesInLarger(before, h', elems[k], js[k]);
        }
      case JObj(m) =>
        h', next', v := ObjectToEngine(h, next, m, j);
    }
  }

  /** Each entry in order stands for its value in the map. */
  ghost predicate EntriesDenote(h: Heap, es: seq<(string, Value)>, m: map<string, Json>) {
    && DistinctKeys(es)
    && forall i :: 0 <= i < |es| ==> es[i].0 in m && Denotes(h, es[i].1, m[es[i].0])
  }

  method ObjectToEngine(h: Heap, next: nat, m: map<string, Json>, ghost j: Json)
    returns (h': Heap, next': nat, v: Value)
    requires Below(h, next) && j == JObj(m)
    ensures Below(h', next') && next <= next' && Extends(h, h') && Denotes(h', v, j)
    ensures v.Ref? ==> next <= v.o < next'
    decreases j, 0
  {
    h', next' := h, next;
    var entries: seq<(string, Value)> := [];
    var todo := m.Keys;
    ghost var done: set<string> := {};
    while todo != {}
      invariant Below(h', next') && next <= next' && Extends(h, h')
      invariant todo <= m.Keys && done == m.Keys - todo
      invariant EntriesDenote(h', entries, m)
      invariant forall k :: k in done <==> exists i :: 0 <= i < |entries| && entries[i].0 == k
      decreases todo
    {
      var k :| k in todo;
      todo := todo - {k};
      var h2, n2, e := JsonToEngine(h', next', m[k]);
      forall i | 0 <= i < |entries| ensures Denotes(h2, entries[i].1, m[entries[i].0]) {
        DenotesInLarger(h', h2, entries[i].1, m[entries[i].0]);
      }
      ghost var before := entries;
      h', next', entries, done := h2, n2, entries + [(k, e)], done + {k};
      forall x ensures x in done <==> exists i :: 0 <= i < |entries| && entries[i].0 == x {
        if x == k {
          assert entries[|before|].0 == k;
        } else if i :| 0 <= i < |before| && before[i].0 == x {
          assert entries[i].0 == x;
        }
      }
    }
    assert done == m.Keys;
    assert forall k :: k in m <==> k in done;
    ghost var before := h';
    h', v, next' := h'[next' := Keyed(entries)], Ref(next'), next' + 1;
    forall i | 0 <= i < |entries| ensures Denotes(h', entries[i].1, m[entries[i].0]) {
      DenotesInLarger(before, h', entries[i].1, m[entries[i].0]);
    }
  }

  /** Down to depth n the one looks like the other: the same texts, numbers and truth values in
      the same places and under the same keys; undefined, null and what JSON cannot say are
      all one. */
  ghost predicate Mirrors(h: Heap, v: Value, h': Heap, w: Value, n: nat)
    decreases n
  {
    match v
    case Bool(b) => w == Bool(b)
    case Number(k) => w == Number(k)
    case Str(s) => w == Str(s)
    case Ref(o) => w.Ref? && o in h && w.o in h' && (n > 0 ==> MirrorNodes(h, h[o], h', h'[w.o], n))
    case _ => w.Undefined? || w.Null? || w.Opaque?
  }

  ghost predicate MirrorNodes(h: Heap, a: Node, h': Heap, b: Node, n: nat)
    requires n > 0
    decreases n, 0
  {
    match a
    case Array(es) =>
      b.Array? && |b.elems| == |es| && forall i :: 0 <= i < |es| ==> Mirrors(h, es[i], h', b.elems[i], n - 1)
    case Keyed(es) =>
      && b.Keyed? && (set e | e in es :: e.0) == (set e | e in b.entries :: e.0)
      && forall i, j :: 0 <= i < |es| && 0 <= j < |b.entries| && es[i].0 == b.entries[j].0 ==>
           Mirrors(h, es[i].1, h', b.entries[j].1, n - 1)
  }

  /** Values with one reading mirror each other to every depth. */
  lemma {:induction false} SameReadingMirrors(h: Heap, v: Value, h': Heap, w: Value, j: Json, n: nat)
    requires Denotes(h, v, j) && Denotes(h', w, j)
    ensures Mirrors(h, v, h', w, n)
    decreases n
  {
    if n > 0 && j.JArr? {
      forall i | 0 <= i < |j.js| ensures Mirrors(h, h[v.o].elems[i], h', h'[w.o].elems[i], n - 1) {
        SameReadingMirrors(h, h[v.o].elems[i], h', h'[w.o].elems[i], j.js[i], n - 1);
      }
    } else if n > 0 && j.JObj? {
      var a, b := h[v.o].entries, h'[w.o].entries;
      KeysOf(a, j.m);
      KeysOf(b, j.m);
      forall i, k | 0 <= i < |a| && 0 <= k < |b| && a[i].0 == b[k].0 ensures Mirrors(h, a[i].1, h', b[k].1, n - 1) {
        SameReadingMirrors(h, a[i].1, h', b[k].1, j.m[a[i].0], n - 1);
      }
    }
  }

  lemma KeysOf(es: seq<(string, Value)>, m: map<string, Json>)
    requires forall k :: k in m <==> exists i :: 0 <= i < |es| && es[i].0 == k
    ensures (set e | e in es :: e.0) == m.Keys
  {
    var keys := set e | e in es :: e.0;
    forall k | k in m ensures k in keys {
      var i :| 0 <= i < |es| && es[i].0 == k;
      assert es[i] in es;
    }
    forall k | k in keys ensures k in m {
      var e :| e in es && e.0 == k;
      var i :| 0 <= i < |es| && es[i] == e;
    }
  }

  /** There and back: for an acyclic value the copy, made of fresh objects only, reads as
      the same tree; a cyclic value is refused. */
  method Clone(h: Heap, next: nat, v: Value) returns (h': Heap, copy: Option<Value>)
    requires Closed(h) && Known(h, v) && Below(h, next)
    ensures copy.None? <==> Cyclic(h, v)
    ensures copy.Some? ==> Extends(h, h') && (copy.value.Ref? ==> copy.value.o >= next)
    ensures copy.Some? ==> exists j :: Denotes(h, v, j) && Denotes(h', copy.value, j)
    ensures copy.Some? ==> forall n: nat :: Mirrors(h, v, h', copy.value, n)
  {
    var seen := new PathSet();
    RefusedExactlyIfCyclic(h, v);
    var r := ValueToJson(h, v, seen);
    if r.None? {
      return h, None;
    }
    ConvertsToReading(h, v, {});
    var n2, c;
    h', n2, c := JsonToEngine(h, next, r.value);
    copy := Some(c);
    forall n: nat ensures Mirrors(h, v, h', c, n) { SameReadingMirrors(h, v, h', c, r.value, n); }
  }
}
