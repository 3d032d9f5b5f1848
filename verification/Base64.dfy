/** Base64 text, three bytes to four letters, against the decoding that section 4 of
    RFC 4648 prescribes. */
module Base64 {
  import opened Wrappers

  type Six = x: int | 0 <= x < 64

  const UPPER := "ABCDEFGHIJKLMNOPQRSTUVWXYZ"
  const LOWER := "abcdefghijklmnopqrstuvwxyz"
  const LETTERS := UPPER + LOWER + "0123456789+/"

  /** One character of the text: six bits of data, or padding. */
  datatype Symbol = Bits(n: Six) | Pad

  // ----- letters -----------------------------------------------------------------------------

  function CharOf(x: Symbol): char {
    if x.Pad? then '='
    else if x.n < 26 then 'A' + x.n as char
    else if x.n < 52 then 'a' + (x.n - 26) as char
    else if x.n < 62 then '0' + (x.n - 52) as char
    else if x.n == 62 then '+'
    else '/'
  }

  /** Table 1 of the standard, read from letters to values. */
  function SymbolOf(c: char): Option<Symbol> {
    if c == '=' then Some(Pad)
    else if 'A' <= c <= 'Z' then Some(Bits((c - 'A') as int))
    else if 'a' <= c <= 'z' then Some(Bits((c - 'a') as int + 26))
    else if '0' <= c <= '9' then Some(Bits((c - '0') as int + 52))
    else if c == '+' then Some(Bits(62))
    else if c == '/' then Some(Bits(63))
    else None
  }

  lemma LettersInverse(x: Symbol, c: char)
    ensures SymbolOf(c) == Some(x) <==> c == CharOf(x)
  {
  }

  /** The table the encoder looks letters up in. */
  method LetterAt(n: nat) returns (c: char)
    requires n < 64
    ensures c == CharOf(Bits(n))
  {
    if n < 26 {
      assert LETTERS[n] == UPPER[n];
    } else if n < 52 {
      assert LETTERS[n] == LOWER[n - 26];
    } else {
      assert LETTERS[n] == "0123456789+/"[n - 52];
    }
    c := LETTERS[n];
  }

  function TextOf(xs: seq<Symbol>): (s: string)
    ensures |s| == |xs|
  {
    seq(|xs|, i requires 0 <= i < |xs| => CharOf(xs[i]))
  }

  function SymbolsOf(s: string): Option<seq<Symbol>> {
    if forall i :: 0 <= i < |s| ==> SymbolOf(s[i]).Some? then
      Some(seq(|s|, i requires 0 <= i < |s| => SymbolOf(s[i]).value))
    else None
  }

  lemma TextInverse(s: string, xs: seq<Symbol>)
    ensures SymbolsOf(s) == Some(xs) <==> s == TextOf(xs)
  {
    if |s| == |xs| {
      forall i | 0 <= i < |s| ensures SymbolOf(s[i]) == Some(xs[i]) <==> s[i] == CharOf(xs[i]) {
        LettersInverse(xs[i], s[i]);
      }
      if s == TextOf(xs) {
        forall i | 0 <= i < |s| ensures s[i] == CharOf(xs[i]) { assert s[i] == TextOf(xs)[i]; }
        assert SymbolsOf(s).Some? && SymbolsOf(s).value == xs;
      }
    }
  }

  // ----- encoding and decoding -----------------------------------------------------------------

  function Full(x: Byte, y: Byte, z: Byte): seq<Symbol> {
    [Bits(x / 4), Bits(x % 4 * 16 + y / 16), Bits(y % 16 * 4 + z / 64), Bits(z % 64)]
  }

  function Two(x: Byte, y: Byte): seq<Symbol> {
    [Bits(x / 4), Bits(x % 4 * 16 + y / 16), Bits(y % 16 * 4), Pad]
  }

  function One(x: Byte): seq<Symbol> {
    [Bits(x / 4), Bits(x % 4 * 16), Pad, Pad]
  }

  /** Bytes in groups of three; a last group of one or two is padded. */
  function Encode(data: seq<Byte>): seq<Symbol>
    decreases |data|
  {
    if |data| == 0 then []
    else if |data| == 1 then One(data[0])
    else if |data| == 2 then Two(data[0], data[1])
    else Full(data[0], data[1], data[2]) + Encode(data[3..])
  }

  /** The bytes of one group; None if it is not a group. */
  function DecodeGroup(p: Symbol, q: Symbol, r: Symbol, s: Symbol): Option<seq<Byte>> {
    if p.Pad? || q.Pad? then None
    else if r.Pad? then
      if s.Pad? && q.n % 16 == 0 then Some([p.n * 4 + q.n / 16]) else None
    else if s.Pad? then
      if r.n % 4 == 0 then Some([p.n * 4 + q.n / 16, q.n % 16 * 16 + r.n / 4]) else None
    else Some([p.n * 4 + q.n / 16, q.n % 16 * 16 + r.n / 4, r.n % 4 * 64 + s.n])
  }

  /** Decoding that insists on whole groups, on padding only at the end and on zero pad bits. */
  function Decode(xs: seq<Symbol>): Option<seq<Byte>>
    decreases |xs|
  {
    if xs == [] then Some([])
    else if |xs| < 4 then None
    else
      var first := DecodeGroup(xs[0], xs[1], xs[2], xs[3]);
      if first.None? then None
      else if |first.value| < 3 then (if |xs| == 4 then first else None)
      else
        var rest := Decode(xs[4..]);
        if rest.None? then None else Some(first.value + rest.value)
  }

  lemma OneExactly(p: Symbol, q: Symbol, r: Symbol, s: Symbol, x: Byte)
    ensures DecodeGroup(p, q, r, s) == Some([x]) <==> [p, q, r, s] == One(x)
  {
    Same(p, q, r, s, One(x));
    if r.Pad? && s.Pad? && p.Bits? && q.Bits? {
      assert p.n * 4 + q.n / 16 == x && q.n % 16 == 0 <==> p.n == x / 4 && q.n == x % 4 * 16;
    }
  }

  lemma TwoExactly(p: Symbol, q: Symbol, r: Symbol, s: Symbol, x: Byte, y: Byte)
    ensures DecodeGroup(p, q, r, s) == Some([x, y]) <==> [p, q, r, s] == Two(x, y)
  {
    Same(p, q, r, s, Two(x, y));
    if s.Pad? && p.Bits? && q.Bits? && r.Bits? {
      assert p.n * 4 + q.n / 16 == x && q.n % 16 * 16 + r.n / 4 == y && r.n % 4 == 0 <==>
        p.n == x / 4 && q.n == x % 4 * 16 + y / 16 && r.n == y % 16 * 4;
    }
  }

  lemma FullExactly(p: Symbol, q: Symbol, r: Symbol, s: Symbol, x: Byte, y: Byte, z: Byte)
    ensures DecodeGroup(p, q, r, s) == Some([x, y, z]) <==> [p, q, r, s] == Full(x, y, z)
  {
    Same(p, q, r, s, Full(x, y, z));
    if p.Bits? && q.Bits? && r.Bits? && s.Bits? {
      assert p.n * 4 + q.n / 16 == x && q.n % 16 * 16 + r.n / 4 == y && r.n % 4 * 64 + s.n == z <==>
        p.n == x / 4 && q.n == x % 4 * 16 + y / 16 && r.n == y % 16 * 4 + z / 64 && s.n == z % 64;
    }
  }

  lemma Same(p: Symbol, q: Symbol, r: Symbol, s: Symbol, g: seq<Symbol>)
    requires |g| == 4
    ensures [p, q, r, s] == g <==> p == g[0] && q == g[1] && r == g[2] && s == g[3]
  {
    if p == g[0] && q == g[1] && r == g[2] && s == g[3] {
      assert [p, q, r, s] == g;
    }
  }

  /** Decoding goes group by group. */
  lemma DecodeUnfolds(xs: seq<Symbol>, data: seq<Byte>)
    requires |xs| >= 4
    ensures var group := DecodeGroup(xs[0], xs[1], xs[2], xs[3]);
      Decode(xs) == Some(data) <==>
      if |data| < 3 then |xs| == 4 && group == Some(data)
      else group == Some(data[..3]) && Decode(xs[4..]) == Some(data[3..])
  {
    var group, rest := DecodeGroup(xs[0], xs[1], xs[2], xs[3]), Decode(xs[4..]);
    if group.Some? && |group.value| == 3 && rest.Some? {
      var all := group.value + rest.value;
      assert all[..3] == group.value && all[3..] == rest.value;
      if |data| >= 3 { assert data == data[..3] + data[3..]; }
    }
  }

  /** And so does encoding. */
  lemma EncodeUnfolds(xs: seq<Symbol>, data: seq<Byte>)
    requires |xs| >= 4
    ensures var group := [xs[0], xs[1], xs[2], xs[3]];
      xs == Encode(data) <==>
      if |data| == 0 then false
      else if |data| == 1 then |xs| == 4 && group == One(data[0])
      else if |data| == 2 then |xs| == 4 && group == Two(data[0], data[1])
      else group == Full(data[0], data[1], data[2]) && xs[4..] == Encode(data[3..])
  {
    assert [xs[0], xs[1], xs[2], xs[3]] == xs[..4];
    if |data| == 1 {
      SplitAt4(xs, One(data[0]), []);
    } else if |data| == 2 {
      SplitAt4(xs, Two(data[0], data[1]), []);
    } else if |data| >= 3 {
      SplitAt4(xs, Full(data[0], data[1], data[2]), Encode(data[3..]));
    }
  }

  lemma SplitAt4(xs: seq<Symbol>, head: seq<Symbol>, tail: seq<Symbol>)
    requires |xs| >= 4 && |head| == 4
    ensures xs == head + tail <==> xs[..4] == head && xs[4..] == tail
    ensures xs == head <==> xs[..4] == head && |xs| == 4
  {
    assert xs == xs[..4] + xs[4..];
    assert (head + tail)[..4] == head && (head + tail)[4..] == tail;
    assert xs == head ==> xs[..4] == head;
  }

  lemma {:induction false} DecodesSymbols(xs: seq<Symbol>, data: seq<Byte>)
    ensures Decode(xs) == Some(data) <==> xs == Encode(data)
    decreases |xs|
  {
    if |xs| >= 4 {
      DecodeUnfolds(xs, data);
      EncodeUnfolds(xs, data);
      if |data| == 1 {
        assert data == [data[0]];
        OneExactly(xs[0], xs[1], xs[2], xs[3], data[0]);
      } else if |data| == 2 {
        assert data == [data[0], data[1]];
        TwoExactly(xs[0], xs[1], xs[2], xs[3], data[0], data[1]);
      } else if |data| >= 3 {
        assert data[..3] == [data[0], data[1], data[2]];
        FullExactly(xs[0], xs[1], xs[2], xs[3], data[0], data[1], data[2]);
        DecodesSymbols(xs[4..], data[3..]);
      }
    }
  }

  /** The decoder of the standard, on text. */
  function DecodeText(s: string): Option<seq<Byte>> {
    var xs := SymbolsOf(s);
    if xs.None? then None else Decode(xs.value)
  }

  /** A text decodes to some bytes exactly when it is what encoding them gives. */
  lemma DecodesExactly(s: string, data: seq<Byte>)
    ensures DecodeText(s) == Some(data) <==> s == TextOf(Encode(data))
  {
    TextInverse(s, Encode(data));
    if SymbolsOf(s).Some? {
      DecodesSymbols(SymbolsOf(s).value, data);
    }
  }

  // ----- the loop ------------------------------------------------------------------------------

  method Base64Encode(data: seq<Byte>) returns (b: string)
    ensures DecodeText(b) == Some(data) && |b| == (|data| + 2) / 3 * 4
  {
    b := "";
    ghost var goal := TextOf(Encode(data));
    var i: nat := 0;
    assert data[0..] == data;
    while i < |data|
      invariant i <= |data| && Still(b, data[i..], goal)
    {
      var text := EncodeGroup(data[i..]);
      var next := if |data| - i >= 3 then i + 3 else |data|;
      NextText(b, data, i, next, text, goal);
      b, i := b + text, next;
    }
    assert data[i..] == [] && b == goal;
    EncodeLength(data);
    DecodesExactly(b, data);
  }

  /** What is written, with the rest encoded, is the goal. */
  ghost predicate Still(b: string, rest: seq<Byte>, goal: string) {
    b + TextOf(Encode(rest)) == goal
  }

  lemma NextText(b: string, data: seq<Byte>, i: nat, next: nat, text: string, goal: string)
    requires i < |data| && next == (if |data| - i >= 3 then i + 3 else |data|)
    requires text == TextOf(Group(data[i..])) && Still(b, data[i..], goal)
    ensures Still(b + text, data[next..], goal)
  {
    NextGroup(data, i, next);
    TextJoins(Group(data[i..]), Encode(data[next..]));
    Assoc(b, text, TextOf(Encode(data[next..])));
  }

  lemma {:induction false} EncodeLength(data: seq<Byte>)
    ensures |Encode(data)| == (|data| + 2) / 3 * 4
    decreases |data|
  {
    if |data| >= 3 { EncodeLength(data[3..]); }
  }

  lemma NextGroup(data: seq<Byte>, i: nat, next: nat)
    requires i < |data| && next == if |data| - i >= 3 then i + 3 else |data|
    ensures |Group(data[i..])| == 4 && Encode(data[i..]) == Group(data[i..]) + Encode(data[next..])
  {
    if |data| - i >= 3 {
      assert data[i..][3..] == data[next..];
    } else {
      assert Group(data[i..]) + [] == Group(data[i..]);
    }
  }

  lemma Assoc(a: string, b: string, c: string)
    ensures a + b + c == a + (b + c)
  {
  }

  lemma TextJoins(a: seq<Symbol>, b: seq<Symbol>)
    ensures TextOf(a + b) == TextOf(a) + TextOf(b)
  {
  }

  lemma SixBits(x: Byte, y: Byte, z: Byte)
    ensures var n := x as int * 0x1_0000 + y as int * 0x100 + z as int;
      && n / 0x4_0000 % 64 == x / 4 && n / 0x1000 % 64 == x % 4 * 16 + y / 16
      && n / 64 % 64 == y % 16 * 4 + z / 64 && n % 64 == z % 64
  {
    var n := x as int * 0x1_0000 + y as int * 0x100 + z as int;
    var a := x as int * 1024 + y as int * 4 + z / 64;
    LastSix(a, z % 64);
    var b := x as int * 16 + y / 16;
    LastSix(b, y % 16 * 4 + z / 64);
    LastSix(x / 4, x % 4 * 16 + y / 16);
    assert n / 0x1000 == n / 64 / 64 && n / 0x4_0000 == n / 64 / 64 / 64;
  }

  lemma LastSix(h: nat, b: Six)
    ensures (h * 64 + b) / 64 == h && (h * 64 + b) % 64 == b
  {
  }

  lemma TextOf4(p: Symbol, q: Symbol, r: Symbol, s: Symbol)
    ensures TextOf([p, q, r, s]) == [CharOf(p), CharOf(q), CharOf(r), CharOf(s)]
  {
  }

  function Group(data: seq<Byte>): seq<Symbol>
    requires data != []
  {
    if |data| >= 3 then Full(data[0], data[1], data[2]) else if |data| == 2 then Two(data[0], data[1]) else One(data[0])
  }

  /** The 24 bits of a group, zeroes for what is missing. */
  function BitsOf(data: seq<Byte>): nat
    requires data != []
  {
    if |data| >= 3 then data[0] as int * 0x1_0000 + data[1] as int * 0x100 + data[2] as int
    else if |data| == 2 then data[0] as int * 0x1_0000 + data[1] as int * 0x100
    else data[0] as int * 0x1_0000
  }

  /** A group is one number, written in base 256 by the bytes and in base 64 by the symbols. */
  lemma GroupIsNumber(data: seq<Byte>)
    requires data != []
    ensures var g := Group(data);
      && |g| == 4 && g[0].Bits? && g[1].Bits? && (g[2].Bits? <==> |data| >= 2) && (g[3].Bits? <==> |data| >= 3)
      && g[0].n as int * 0x4_0000 + g[1].n as int * 0x1000 + (if |data| >= 2 then g[2].n as int * 0x40 else 0)
         + (if |data| >= 3 then g[3].n as int else 0)
         == data[0] as int * 0x1_0000 + (if |data| >= 2 then data[1] as int * 0x100 else 0)
            + if |data| >= 3 then data[2] as int else 0
  {
  }

  /** Six at a time they are the symbols of the group. */
  lemma GroupOfBits(data: seq<Byte>)
    requires data != []
    ensures var n := BitsOf(data);
      Group(data) == [Bits(n / 0x4_0000 % 64), Bits(n / 0x1000 % 64),
                      if |data| >= 2 then Bits(n / 64 % 64) else Pad, if |data| >= 3 then Bits(n % 64) else Pad]
  {
    SixBits(data[0], if |data| >= 2 then data[1] else 0, if |data| >= 3 then data[2] else 0);
  }

  /** The four characters of the next group. */
  method EncodeGroup(data: seq<Byte>) returns (text: string)
    requires data != []
    ensures text == TextOf(Group(data))
  {
    var rem := |data|;
    var n: nat;
    if rem >= 3 {
      n := data[0] as int * 0x1_0000 + data[1] as int * 0x100 + data[2] as int;
    } else if rem == 2 {
      n := data[0] as int * 0x1_0000 + data[1] as int * 0x100;
    } else {
      n := data[0] as int * 0x1_0000;
    }
    GroupOfBits(data);
    text := LettersOf(n, rem);
  }

  method LettersOf(n: nat, rem: nat) returns (text: string)
    ensures text == TextOf([Bits(n / 0x4_0000 % 64), Bits(n / 0x1000 % 64),
                            if rem >= 2 then Bits(n / 64 % 64) else Pad, if rem >= 3 then Bits(n % 64) else Pad])
  {
    TextOf4(Bits(n / 0x4_0000 % 64), Bits(n / 0x1000 % 64),
            if rem >= 2 then Bits(n / 64 % 64) else Pad, if rem >= 3 then Bits(n % 64) else Pad);
    var c0 := LetterAt(n / 0x4_0000 % 64);
    var c1 := LetterAt(n / 0x1000 % 64);
    var c2, c3 := '=', '=';
    if rem >= 3 {
      c2 := LetterAt(n / 64 % 64);
      c3 := LetterAt(n % 64);
    } else if rem == 2 {
      c2 := LetterAt(n / 64 % 64);
    }
    text := [c0, c1, c2, c3];
  }
}
