/** Strings that remember how they were concatenated, and flatten themselves once. */
module Ropes {
  import opened Wrappers

  /** Unicode text, as code points. */
  type Text = seq<nat>

  const FLAT_CONCAT_LIMIT := 64

  /** The length in UTF-16 code units. */
  function Utf16Len(t: Text): nat {
    if t == [] then 0 else Utf16Len(t[..|t| - 1]) + if t[|t| - 1] > 0xFFFF then 2 else 1
  }

  /** The code units of a code point, section 11.1.1 of ECMA-262. */
  function Units(c: nat): seq<nat> {
    if c <= 0xFFFF then [c] else [(c - 0x1_0000) / 0x400 + 0xD800, (c - 0x1_0000) % 0x400 + 0xDC00]
  }

  function UnitsOf(t: Text): seq<nat> {
    if t == [] then [] else Units(t[0]) + UnitsOf(t[1..])
  }

  /** The length counts the code units. */
  lemma {:induction false} Utf16LenCountsUnits(t: Text)
    ensures Utf16Len(t) == |UnitsOf(t)|
  {
    if t != [] {
      Utf16LenCountsUnits(t[1..]);
      assert [t[0]] + t[1..] == t && [t[0]][..0] == [];
      Utf16LenConcat([t[0]], t[1..]);
    }
  }

  lemma Utf16LenConcat(a: Text, b: Text)
    ensures Utf16Len(a + b) == Utf16Len(a) + Utf16Len(b)
  {
    if b == [] {
      assert a + b == a;
    } else {
      assert (a + b)[..|a + b| - 1] == a + b[..|b| - 1];
      Utf16LenConcat(a, b[..|b| - 1]);
    }
  }

  lemma Utf16LenZero(t: Text)
    ensures Utf16Len(t) == 0 <==> t == []
  {
  }

  datatype Str = Flat(text: Text) | Node(rope: Rope)

  class Rope {
    const left: Str
    const right: Str
    const utf16Len: nat
    var flat: Option<Text>
    ghost const height: nat

    constructor (left: Str, right: Str, utf16Len: nat)
      ensures this.left == left && this.right == right && this.utf16Len == utf16Len && flat == None
      ensures height == 1 + HeightOf(left) + HeightOf(right)
    {
      this.left, this.right, this.utf16Len, this.flat := left, right, utf16Len, None;
      this.height := 1 + HeightOf(left) + HeightOf(right);
    }
  }

  ghost function HeightOf(s: Str): nat {
    match s case Flat(_) => 0 case Node(r) => r.height
  }

  /** Built bottom-up, each node with the length of its text. Nothing in it ever changes. */
  ghost predicate IsTree(s: Str)
    decreases HeightOf(s), 0
  {
    match s
    case Flat(_) => true
    case Node(r) =>
      && HeightOf(r.left) < r.height && HeightOf(r.right) < r.height
      && IsTree(r.left) && IsTree(r.right)
      && r.utf16Len == Utf16Len(TextOf(r.left) + TextOf(r.right))
  }

  /** The string a tree stands for. */
  ghost function TextOf(s: Str): Text
    requires IsTree(s)
    decreases HeightOf(s), 1
  {
    match s
    case Flat(t) => t
    case Node(r) => TextOf(r.left) + TextOf(r.right)
  }

  /** The nodes of a heap of strings: trees all of whose nodes belong to the heap, each
      with no cached text or the right one. */
  ghost predicate CachesOk(ropes: set<Rope>)
    reads ropes
  {
    forall r {:trigger CacheOk(ropes, r)} :: r in ropes ==> CacheOk(ropes, r)
  }

  ghost predicate CacheOk(ropes: set<Rope>, r: Rope)
    reads r
  {
    && IsTree(Node(r)) && Within(ropes, r.left) && Within(ropes, r.right)
    && (r.flat.Some? ==> r.flat.value == TextOf(Node(r)))
  }

  ghost predicate Within(ropes: set<Rope>, s: Str) {
    IsTree(s) && (s.Node? ==> s.rope in ropes)
  }

  function StringLen(s: Str): (n: nat)
    requires IsTree(s)
    ensures n == Utf16Len(TextOf(s))
  {
    match s case Flat(t) => Utf16Len(t) case Node(r) => r.utf16Len
  }

  /** Concatenation: short flat strings stay flat, anything else becomes a node. */
  method ConcatStrings(left: Str, right: Str, ghost ropes: set<Rope>) returns (s: Str, ghost ropes': set<Rope>)
    requires CachesOk(ropes) && Within(ropes, left) && Within(ropes, right)
    ensures ropes <= ropes' && fresh(ropes' - ropes) && CachesOk(ropes') && Within(ropes', s)
    ensures TextOf(s) == TextOf(left) + TextOf(right)
    ensures StringLen(s) == StringLen(left) + StringLen(right)
    ensures s.Flat? || s == left || s == right || StringLen(s) > FLAT_CONCAT_LIMIT || left.Node? || right.Node?
  {
    ropes' := ropes;
    Utf16LenConcat(TextOf(left), TextOf(right));
    Utf16LenZero(TextOf(left));
    Utf16LenZero(TextOf(right));
    var leftLen, rightLen := StringLen(left), StringLen(right);
    if leftLen == 0 {
      return right, ropes;
    }
    if rightLen == 0 {
      return left, ropes;
    }
    if leftLen + rightLen <= FLAT_CONCAT_LIMIT {
      if left.Flat? && right.Flat? {
        return Flat(left.text + right.text), ropes;
      }
    }
    var r := new Rope(left, right, leftLen + rightLen);
    s, ropes' := Node(r), ropes + {r};
    forall q | q in ropes' ensures CacheOk(ropes', q) {
      if q in ropes { assert old(CacheOk(ropes, q)); }
    }
  }

  // ----- flattening ---------------------------------------------------------------------------

  /** The texts of a stack, top first. */
  ghost function StackText(stack: seq<Str>): Text
    requires forall s :: s in stack ==> IsTree(s)
  {
    if stack == [] then [] else TextOf(stack[|stack| - 1]) + StackText(stack[..|stack| - 1])
  }

  /** Twice the nodes of the unfolded trees, plus the leaves: what there is left to pop. */
  ghost function Weight(s: Str): nat
    requires IsTree(s)
    decreases HeightOf(s)
  {
    match s case Flat(_) => 1 case Node(r) => 1 + Weight(r.left) + Weight(r.right)
  }

  ghost function StackWeight(stack: seq<Str>): nat
    requires forall s :: s in stack ==> IsTree(s)
  {
    if stack == [] then 0 else Weight(stack[|stack| - 1]) + StackWeight(stack[..|stack| - 1])
  }

  /** Replacing a node by its halves, the left one on top, keeps the text and costs one. */
  lemma Unfold(stack: seq<Str>, r: Rope)
    requires (forall s :: s in stack ==> IsTree(s)) && IsTree(Node(r))
    ensures var two := stack + [r.right, r.left];
      && (forall s :: s in two ==> IsTree(s))
      && StackText(two) == TextOf(Node(r)) + StackText(stack)
      && StackWeight(two) + 1 == Weight(Node(r)) + StackWeight(stack)
  {
    var two := stack + [r.right, r.left];
    var one := stack + [r.right];
    assert two[..|two| - 1] == one && two[|two| - 1] == r.left;
    assert one[..|stack|] == stack && one[|stack|] == r.right;
    assert StackText(two) == TextOf(r.left) + (TextOf(r.right) + StackText(stack));
  }

  /** Writing out the text of the top element. */
  lemma TakeTop(b: Text, t: Text, below: Text)
    ensures b + (t + below) == (b + t) + below
  {
  }

  /** Walks the tree with a stack, left before right, taking cached texts as they come. */
  method Collect(s: Rope, ghost ropes: set<Rope>) returns (b: Text)
    requires CachesOk(ropes) && Within(ropes, Node(s))
    ensures b == TextOf(Node(s))
  {
    b := [];
    var stack := [Node(s)];
    assert stack[..0] == [];
    while |stack| > 0
      invariant forall x :: x in stack ==> Within(ropes, x)
      invariant b + StackText(stack) == TextOf(Node(s))
      decreases StackWeight(stack)
    {
      var last := |stack| - 1;
      assert stack[last] in stack && forall x :: x in stack[..last] ==> x in stack;
      b, stack := Visit(stack[last], stack[..last], b, ropes);
    }
  }

  /** The top of the stack: a text is written out, a node makes room for its halves. */
  method Visit(v: Str, rest: seq<Str>, b: Text, ghost ropes: set<Rope>) returns (b': Text, stack: seq<Str>)
    requires CachesOk(ropes) && Within(ropes, v)
    requires forall x :: x in rest ==> IsTree(x) && Within(ropes, x)
    ensures forall x :: x in stack ==> IsTree(x) && Within(ropes, x)
    ensures b' + StackText(stack) == b + (TextOf(v) + StackText(rest))
    ensures StackWeight(stack) < Weight(v) + StackWeight(rest)
  {
    TakeTop(b, TextOf(v), StackText(rest));
    b', stack := b, rest;
    match v {
      case Node(rope) =>
        assert CacheOk(ropes, rope);
        if rope.flat.Some? {
          b' := b + rope.flat.value;
        } else {
          Unfold(rest, rope);
          stack := rest + [rope.right, rope.left];
        }
      case Flat(t) =>
        b' := b + t;
    }
  }

  /** The text of a rope, cached on the way out. */
  method FlattenRope(s: Rope, ghost ropes: set<Rope>) returns (text: Text)
    requires CachesOk(ropes) && Within(ropes, Node(s))
    modifies s`flat
    ensures CachesOk(ropes) && text == TextOf(Node(s)) && s.flat == Some(text)
  {
    if s.flat.Some? {
      assert CacheOk(ropes, s);
      return s.flat.value;
    }
    text := Collect(s, ropes);
    s.flat := Some(text);
    forall r | r in ropes ensures CacheOk(ropes, r) {
      assert old(CacheOk(ropes, r));
    }
  }

  method ToText(s: Str, ghost ropes: set<Rope>) returns (text: Text)
    requires CachesOk(ropes) && Within(ropes, s)
    modifies ropes
    ensures CachesOk(ropes) && text == TextOf(s)
  {
    match s {
      case Flat(t) => text := t;
      case Node(r) => text := FlattenRope(r, ropes);
    }
  }
}
