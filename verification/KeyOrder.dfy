/** The order of own keys: OrdinaryOwnPropertyKeys of ECMA-262, section 10.1.11.1, which puts
    array indices first, against the layout order the engine gives. */
module KeyOrder {
  import opened Wrappers
  import opened Values
  import opened Ordinary
  import opened Descriptors

  // ----- the standard ---------------------------------------------------------------------------

  function DecimalValue(s: string): Option<nat> {
    if s == [] || !('0' <= s[|s| - 1] <= '9') then None
    else
      var digit := (s[|s| - 1] - '0') as nat;
      if |s| == 1 then Some(digit)
      else
        var high := DecimalValue(s[..|s| - 1]);
        if high.None? then None else Some(high.value * 10 + digit)
  }

  /** The value of a key that is an array index: canonical decimal, below 2^32 - 1. */
  function ArrayIndex(key: string): Option<nat> {
    var n := DecimalValue(key);
    if n.Some? && (|key| == 1 || key[0] != '0') && n.value < 0xFFFF_FFFF then n else None
  }

  predicate IsIndex(key: string) {
    ArrayIndex(key).Some?
  }

  function Rank(key: string): nat {
    if IsIndex(key) then ArrayIndex(key).value else 0
  }

  /** Into ascending order. */
  function Insert(xs: seq<string>, key: string): seq<string> {
    if xs == [] || Rank(xs[0]) >= Rank(key) then [key] + xs
    else [xs[0]] + Insert(xs[1..], key)
  }

  /** The indices among the keys, ascending. */
  function Indices(c: seq<string>): (r: seq<string>)
    ensures forall x :: x in r ==> IsIndex(x) && x in c
  {
    if c == [] then []
    else
      var key, before := c[|c| - 1], Indices(c[..|c| - 1]);
      if IsIndex(key) then
        InsertMembers(before, key);
        Insert(before, key)
      else before
  }

  /** The other keys, in order of creation. */
  function Others(c: seq<string>): (r: seq<string>)
    ensures forall x :: x in r ==> !IsIndex(x) && x in c
  {
    if c == [] then []
    else Others(c[..|c| - 1]) + if IsIndex(c[|c| - 1]) then [] else [c[|c| - 1]]
  }

  /** The keys of an object whose live properties were created in the order `c`. */
  function OrdinaryOwnKeys(c: seq<string>): seq<string> {
    Indices(c) + Others(c)
  }

  ghost predicate Ascending(xs: seq<string>) {
    forall i, j :: 0 <= i < j < |xs| ==> Rank(xs[i]) <= Rank(xs[j])
  }

  lemma InsertMembers(xs: seq<string>, key: string)
    ensures forall x :: x in Insert(xs, key) <==> x == key || x in xs
  {
  }

  lemma TailAscends(xs: seq<string>)
    requires Ascending(xs) && xs != []
    ensures Ascending(xs[1..]) && forall x :: x in xs[1..] ==> Rank(xs[0]) <= Rank(x)
  {
  }

  /** Where an insertion puts the key. */
  lemma {:induction false} InsertSplits(xs: seq<string>, key: string) returns (a: seq<string>, b: seq<string>)
    requires Ascending(xs)
    ensures xs == a + b && Insert(xs, key) == a + [key] + b
    ensures forall x :: x in a ==> Rank(x) < Rank(key)
    ensures forall x :: x in b ==> Rank(x) >= Rank(key)
  {
    if xs == [] || Rank(xs[0]) >= Rank(key) {
      a, b := [], xs;
      assert [] + [key] + xs == [key] + xs;
      forall x | x in xs ensures Rank(x) >= Rank(key) {
        TailAscends(xs);
        assert x == xs[0] || x in xs[1..];
      }
    } else {
      TailAscends(xs);
      var a', b' := InsertSplits(xs[1..], key);
      a, b := [xs[0]] + a', b';
      assert xs == a + b;
      assert Insert(xs, key) == [xs[0]] + (a' + [key] + b') == a + [key] + b;
    }
  }

  lemma IndicesNext(c: seq<string>, j: string)
    ensures Indices(c + [j]) == if IsIndex(j) then Insert(Indices(c), j) else Indices(c)
    ensures Others(c + [j]) == if IsIndex(j) then Others(c) else Others(c) + [j]
  {
    assert (c + [j])[..|c + [j]| - 1] == c;
    assert Others(c) + [] == Others(c);
  }

  lemma {:induction false} InsertLength(xs: seq<string>, key: string)
    ensures |Insert(xs, key)| == |xs| + 1
  {
    if xs != [] && Rank(xs[0]) < Rank(key) { InsertLength(xs[1..], key); }
  }

  lemma ConsAscending(x: string, ys: seq<string>)
    requires Ascending(ys) && forall y :: y in ys ==> Rank(x) <= Rank(y)
    ensures Ascending([x] + ys)
  {
    var all := [x] + ys;
    forall i, j | 0 <= i < j < |all| ensures Rank(all[i]) <= Rank(all[j]) {
      assert all[j] == ys[j - 1] && all[j] in ys;
      if i > 0 { assert all[i] == ys[i - 1]; }
    }
  }

  lemma {:induction false} InsertAscends(xs: seq<string>, key: string)
    requires Ascending(xs)
    ensures Ascending(Insert(xs, key))
  {
    if xs == [] {
    } else {
      TailAscends(xs);
      if Rank(xs[0]) >= Rank(key) {
        assert forall x :: x in xs ==> x == xs[0] || x in xs[1..];
        ConsAscending(key, xs);
      } else {
        InsertAscends(xs[1..], key);
        InsertMembers(xs[1..], key);
        ConsAscending(xs[0], Insert(xs[1..], key));
      }
    }
  }

  lemma {:induction false} IndicesAscend(c: seq<string>)
    ensures Ascending(Indices(c))
  {
    if c != [] {
      var key, before := c[|c| - 1], c[..|c| - 1];
      IndicesAscend(before);
      InsertAscends(Indices(before), key);
    }
  }

  /** Where key `i` of the creation order comes in the list. */
  ghost predicate ListedAt(c: seq<string>, i: nat, p: nat) {
    i < |c| && p < |OrdinaryOwnKeys(c)| && OrdinaryOwnKeys(c)[p] == c[i]
  }

  /** Whether the standard lists key `i` of the creation order before key `j`: indices first
      and by size, the others as created. */
  predicate Precedes(c: seq<string>, i: nat, j: nat)
    requires i < |c| && j < |c|
  {
    if IsIndex(c[i]) then IsIndex(c[j]) ==> Rank(c[i]) < Rank(c[j])
    else !IsIndex(c[j]) && i < j
  }

  lemma {:induction false} SameKeys(c: seq<string>)
    ensures |OrdinaryOwnKeys(c)| == |c| && forall x :: x in OrdinaryOwnKeys(c) <==> x in c
  {
    if c != [] {
      var key, before := c[|c| - 1], c[..|c| - 1];
      SameKeys(before);
      assert c == before + [key];
      IndicesNext(before, key);
      InsertLength(Indices(before), key);
      InsertMembers(Indices(before), key);
      assert forall x :: x in before ==> x in Indices(before) || x in Others(before);
    }
  }

  // ----- adding a key ------------------------------------------------------------------------------

  /** The standard lists the present key `k` before a key added now. */
  predicate Before(k: string, key: string) {
    IsIndex(key) ==> IsIndex(k) && Rank(k) < Rank(key)
  }

  /** Where the layout has, or will have, the key. */
  function Place(names: seq<string>, key: string): (p: nat)
    ensures p <= |names| && (p < |names| <==> key in names) && (p < |names| ==> names[p] == key)
    ensures key !in names[..p]
  {
    if names == [] then 0
    else if names[0] == key then 0
    else
      var p := Place(names[1..], key);
      assert names[..p + 1] == [names[0]] + names[1..][..p];
      1 + p
  }

  /** The key's place in the layout is its place in the order of the standard: the live keys
      laid out before it are those the standard lists before it. */
  ghost predicate PlaceFits(v: View, key: string) {
    forall k :: k in v.own ==> (k in v.names[..Place(v.names, key)] <==> Before(k, key))
  }

  lemma Assoc(a: seq<string>, b: seq<string>, c: seq<string>)
    ensures a + (b + c) == a + b + c
  {
  }

  lemma OrdinaryAddSplits(c: seq<string>, key: string) returns (a: seq<string>, b: seq<string>)
    ensures OrdinaryOwnKeys(c) == a + b && OrdinaryOwnKeys(c + [key]) == a + [key] + b
    ensures (forall x :: x in a ==> Before(x, key)) && (forall x :: x in b ==> !Before(x, key))
  {
    IndicesNext(c, key);
    if IsIndex(key) {
      IndicesAscend(c);
      var a', b' := InsertSplits(Indices(c), key);
      a, b := a', b' + Others(c);
      Assoc(a', b', Others(c));
      Assoc(a' + [key], b', Others(c));
    } else {
      a, b := OrdinaryOwnKeys(c), [];
      Assoc(Indices(c), Others(c), [key]);
    }
  }

  lemma Around(a: seq<string>, key: string, b: seq<string>, p: nat)
    requires p < |a + [key] + b|
    ensures var x := (a + [key] + b)[p];
      && (p < |a| ==> x in a && x == (a + b)[p]) && (p == |a| ==> x == key)
      && (p > |a| ==> x in b && x == (a + b)[p - 1])
  {
    if p > |a| { assert (a + [key] + b)[p] == b[p - |a| - 1]; }
  }

  /** A list all of whose members are listed before the key, then the key, then the others. */
  ghost predicate Splits(a: seq<string>, key: string, b: seq<string>) {
    && key !in a + b
    && (forall x :: x in a ==> Before(x, key)) && (forall x :: x in b ==> !Before(x, key))
  }

  lemma AroundKey(a: seq<string>, key: string, b: seq<string>, p: nat, q: nat)
    requires Splits(a, key, b) && p < |a + [key] + b| && (a + [key] + b)[p] == key
    requires q < |a + [key] + b| && (a + [key] + b)[q] != key
    ensures q < p <==> Before((a + [key] + b)[q], key)
  {
    Around(a, key, b, p);
    Around(a, key, b, q);
  }

  lemma {:induction false} PrecedingIsListedFirst(c: seq<string>, i: nat, j: nat, p: nat, q: nat)
    requires Distinct(c) && ListedAt(c, i, p) && ListedAt(c, j, q) && Precedes(c, i, j)
    ensures p < q
    decreases |c|
  {
    var n := |c| - 1;
    var before, key := c[..n], c[n];
    assert c == before + [key];
    var a, b := OrdinaryAddSplits(before, key);
    SameKeys(before);
    assert Splits(a, key, b);
    if j == n {
      AroundKey(a, key, b, q, p);
    } else if i == n {
      AroundKey(a, key, b, p, q);
      assert p != q;
    } else {
      Around(a, key, b, p);
      Around(a, key, b, q);
      PrecedingIsListedFirst(before, i, j, if p < |a| then p else p - 1, if q < |a| then q else q - 1);
    }
  }

  lemma {:induction false} LeadingDigit(s: string)
    requires s != [] && s[0] != '0' && DecimalValue(s).Some?
    ensures DecimalValue(s).value > 0
  {
    if |s| > 1 { LeadingDigit(s[..|s| - 1]); }
  }

  lemma {:induction false} SameDecimal(s: string, t: string)
    requires DecimalValue(s).Some? && DecimalValue(t) == DecimalValue(s)
    requires (|s| == 1 || s[0] != '0') && (|t| == 1 || t[0] != '0')
    ensures s == t
  {
    var s', t' := s[..|s| - 1], t[..|t| - 1];
    assert s == s' + [s[|s| - 1]] && t == t' + [t[|t| - 1]];
    if |s| > 1 { LeadingDigit(s'); }
    if |t| > 1 { LeadingDigit(t'); }
    if |s| > 1 && |t| > 1 { SameDecimal(s', t'); }
  }

  /** An index has one spelling. */
  lemma SameIndex(s: string, t: string)
    requires IsIndex(s) && IsIndex(t) && Rank(s) == Rank(t)
    ensures s == t
  {
    SameDecimal(s, t);
  }

  /** The order is the one the standard asks for: every key is there, no key more often than
      it was, and of two keys one comes first if and only if it precedes the other. */
  lemma OrdinaryOwnKeysMeaning(c: seq<string>)
    requires Distinct(c)
    ensures |OrdinaryOwnKeys(c)| == |c| && forall x :: x in OrdinaryOwnKeys(c) <==> x in c
    ensures forall i: nat, j: nat, p: nat, q: nat :: ListedAt(c, i, p) && ListedAt(c, j, q) && i != j ==>
              (p < q <==> Precedes(c, i, j))
  {
    SameKeys(c);
    forall i: nat, j: nat, p: nat, q: nat | ListedAt(c, i, p) && ListedAt(c, j, q) && i != j
      ensures p < q <==> Precedes(c, i, j)
    {
      if IsIndex(c[i]) && IsIndex(c[j]) && Rank(c[i]) == Rank(c[j]) { SameIndex(c[i], c[j]); }
      if Precedes(c, i, j) { PrecedingIsListedFirst(c, i, j, p, q); } else { PrecedingIsListedFirst(c, j, i, q, p); }
    }
  }

  lemma LayoutAddSplits(v: View, key: string, value: Value) returns (a: seq<string>, b: seq<string>)
    requires v.Valid() && v.extensible && key !in v.own
    ensures OwnKeys(v) == a + b && OwnKeys(SetOwn(v, key, value)) == a + [key] + b
    ensures var left := v.names[..Place(v.names, key)];
      (forall x :: x in a ==> x in v.own && x in left) && (forall x :: x in b ==> x in v.own && x !in left)
  {
    var s, p := Slot(value, DEFAULT_ATTRS), Place(v.names, key);
    var left := v.names[..p];
    LiveNamesSound(left, v.own);
    a := LiveNames(left, v.own);
    if p == |v.names| {
      b := [];
      assert left == v.names;
      NewNameIsLast(v.names, key, v.own, s);
    } else {
      var right := v.names[p + 1..];
      b := LiveNames(right, v.own);
      LiveNamesSound(right, v.own);
      RightApart(v.names, p);
      assert v.names == left + ([key] + right);
      SplitAround(left, key, right, v.own, s);
    }
  }

  lemma RightApart(names: seq<string>, p: nat)
    requires Distinct(names) && p < |names|
    ensures names[p] !in names[p + 1..] && forall x :: x in names[p + 1..] ==> x !in names[..p]
  {
    forall x | x in names[p + 1..] ensures x !in names[..p] && x != names[p] {
      var j :| 0 <= j < |names[p + 1..]| && names[p + 1..][j] == x;
      assert names[p + 1 + j] == x;
    }
  }

  /** Two ways of cutting one list agree when the same test tells their halves apart. */
  lemma SameCut(a: seq<string>, b: seq<string>, c: seq<string>, d: seq<string>, key: string)
    requires a + b == c + d && key !in a + b
    ensures a + [key] + b == c + [key] + d <==> |a| == |c|
  {
    var x, y := a + [key] + b, c + [key] + d;
    if |a| == |c| {
      assert a == (a + b)[..|a|] == c && b == (a + b)[|a|..] == d;
    } else if |a| < |c| {
      assert x[|a|] == key && y[|a|] == (c + d)[|a|] && (c + d)[|a|] in a + b;
    } else {
      assert y[|c|] == key && x[|c|] == (a + b)[|c|] && (a + b)[|c|] in a + b;
    }
  }

  /** An object whose keys are in the order of the standard keeps them so when a key is added
      if and only if the key's place in the layout fits. */
  lemma AddedKeyInOrderExactly(v: View, key: string, value: Value, c: seq<string>)
    requires v.Valid() && v.extensible && key !in v.own && OwnKeys(v) == OrdinaryOwnKeys(c)
    ensures OwnKeys(SetOwn(v, key, value)) == OrdinaryOwnKeys(c + [key]) <==> PlaceFits(v, key)
  {
    var a, b := LayoutAddSplits(v, key, value);
    var a', b' := OrdinaryAddSplits(c, key);
    var all := a + b;
    LiveNamesSound(v.names, v.own);
    assert key !in all;
    SameCut(a, b, a', b', key);
    if |a| == |a'| {
      assert a == all[..|a|] == a' && b == all[|a|..] == b';
      forall k | k in v.own ensures k in v.names[..Place(v.names, key)] <==> Before(k, key) {
        assert k in all;
      }
    } else if |a| < |a'| {
      var k := b[0];
      assert all[|a|] == k && all[|a|] == a'[|a|] && k in b && k in a';
    } else {
      var k := b'[0];
      assert all[|a'|] == k && all[|a'|] == a[|a'|] && k in a && k in b';
    }
  }

  /** The smallest case: an index added after another key stays behind it. */
  lemma IndexComesLast()
    ensures var v := SetOwn(SetOwn(EMPTY_VIEW, "b", Null), "1", Null);
      OwnKeys(v) == ["b", "1"] && OrdinaryOwnKeys(["b", "1"]) == ["1", "b"]
  {
    var u := SetOwn(EMPTY_VIEW, "b", Null);
    var v := SetOwn(u, "1", Null);
    var one, two := ["b"], ["b", "1"];
    assert u.names == one && v.names == two;
    assert one[1..] == [] && two[1..] == ["1"] && ["1"][1..] == [];
    assert LiveNames(["1"], v.own) == ["1"];
    assert LiveNames(two, v.own) == [two[0]] + LiveNames(two[1..], v.own);
    assert two[..1] == one && one[..0] == [];
    assert ArrayIndex("1") == Some(1) && ArrayIndex("b") == None;
    assert Indices(one) == [] && Others(one) == ["b"];
    assert Indices(two) == Insert([], "1") && Others(two) == ["b"];
  }

  // ----- removing one --------------------------------------------------------------------------------

  function Without(xs: seq<string>, key: string): seq<string> {
    if xs == [] then [] else (if xs[0] == key then [] else [xs[0]]) + Without(xs[1..], key)
  }

  lemma WithoutConcat(a: seq<string>, b: seq<string>, key: string)
    ensures Without(a + b, key) == Without(a, key) + Without(b, key)
  {
    if a == [] {
      assert a + b == b;
    } else {
      assert (a + b)[1..] == a[1..] + b;
      WithoutConcat(a[1..], b, key);
    }
  }

  lemma WithoutMissing(xs: seq<string>, key: string)
    requires key !in xs
    ensures Without(xs, key) == xs
  {
    if xs != [] {
      WithoutMissing(xs[1..], key);
      assert xs[0] in xs;
    }
  }

  lemma WithoutMembers(xs: seq<string>, key: string)
    ensures forall x :: x in Without(xs, key) <==> x in xs && x != key
  {
  }

  /** Removing and inserting commute on ascending lists. */
  lemma {:induction false} WithoutInsert(xs: seq<string>, j: string, key: string)
    requires Ascending(xs)
    ensures Without(Insert(xs, j), key) == if j == key then Without(xs, key) else Insert(Without(xs, key), j)
  {
    InsertMembers(xs, j);
    WithoutMembers(xs, key);
    if xs == [] {
      assert [j][1..] == [];
    } else if Rank(xs[0]) >= Rank(j) {
      assert ([j] + xs)[1..] == xs;
      var rest := Without(xs, key);
      TailAscends(xs);
      if j != key && rest != [] {
        var x := rest[0];
        assert x in rest && x in xs;
        assert xs == [xs[0]] + xs[1..];
      }
    } else {
      TailAscends(xs);
      var tail := Insert(xs[1..], j);
      assert ([xs[0]] + tail)[1..] == tail;
      WithoutInsert(xs[1..], j, key);
      var rest := Without(xs[1..], key);
      assert Without([xs[0]] + tail, key) == (if xs[0] == key then [] else [xs[0]]) + Without(tail, key);
      assert [] + rest == rest && [] + Without(tail, key) == Without(tail, key);
      if xs[0] != key { assert ([xs[0]] + rest)[1..] == rest; }
    }
  }

  lemma WithoutAppended(xs: seq<string>, j: string, key: string)
    ensures Without(xs + [j], key) == if j == key then Without(xs, key) else Without(xs, key) + [j]
  {
    assert [j][1..] == [];
    WithoutConcat(xs, [j], key);
    assert Without(xs, key) + [] == Without(xs, key);
  }

  lemma {:induction false} WithoutIndices(c: seq<string>, key: string)
    ensures Indices(Without(c, key)) == Without(Indices(c), key)
  {
    if c != [] {
      var before, j := c[..|c| - 1], c[|c| - 1];
      assert c == before + [j];
      WithoutIndices(before, key);
      IndicesNext(before, j);
      WithoutAppended(before, j, key);
      if j != key { IndicesNext(Without(before, key), j); }
      IndicesAscend(before);
      WithoutInsert(Indices(before), j, key);
      if !IsIndex(key) { WithoutMissing(Indices(before), key); }
    }
  }

  lemma {:induction false} WithoutOthers(c: seq<string>, key: string)
    ensures Others(Without(c, key)) == Without(Others(c), key)
  {
    if c != [] {
      var before, j := c[..|c| - 1], c[|c| - 1];
      assert c == before + [j];
      WithoutOthers(before, key);
      IndicesNext(before, j);
      WithoutAppended(before, j, key);
      if j != key { IndicesNext(Without(before, key), j); }
      if !IsIndex(j) { WithoutAppended(Others(before), j, key); }
    }
  }

  /** Deleting a key never disturbs the order of the others. */
  lemma DeletedKeyKeepsOrder(v: View, key: string, c: seq<string>)
    requires v.Valid() && OwnKeys(v) == OrdinaryOwnKeys(c) && DeleteOwn(v, key).1
    ensures OwnKeys(DeleteOwn(v, key).0) == OrdinaryOwnKeys(Without(c, key))
  {
    WithoutIndices(c, key);
    WithoutOthers(c, key);
    WithoutConcat(Indices(c), Others(c), key);
    LiveNamesSound(v.names, v.own);
    if key in v.own {
      LiveNamesWithout(v.names, v.own, key);
    } else {
      WithoutMissing(OwnKeys(v), key);
    }
  }

  lemma LiveNamesWithout(names: seq<string>, own: map<string, Slot>, key: string)
    ensures LiveNames(names, own - {key}) == Without(LiveNames(names, own), key)
  {
    if names != [] {
      LiveNamesWithout(names[1..], own, key);
      var head := if names[0] in own then [names[0]] else [];
      WithoutConcat(head, LiveNames(names[1..], own), key);
      if head != [] { assert head[1..] == []; }
    }
  }
}
