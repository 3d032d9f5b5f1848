/** The constant pool codec of the bytecode cache: a tag byte, then the payload. */
module ConstCodec {
  import opened Wrappers

  const U64: nat := 0x1_0000_0000_0000_0000
  const MAX_VARINT_LEN := 10

  const TAG_NUMBER: Byte := 1
  const TAG_STRING: Byte := 2
  const TAG_BIGINT: Byte := 3
  const TAG_BOOL: Byte := 4
  const TAG_NULL: Byte := 5

  /** Constants of compiled code. A number is its 64 bits, so every NaN is told apart; a
      string is its bytes. */
  datatype Const = Number(bits: nat) | Str(bytes: seq<Byte>) | BigInt(n: int) | Bool(b: bool) | Null

  predicate Encodable(c: Const) {
    match c
    case Number(bits) => bits < U64
    case Str(bytes) => |bytes| < U64
    case BigInt(n) => |Decimal(n)| < U64
    case _ => true
  }

  datatype Read<T> = Ok(value: T, rest: seq<Byte>) | Failed

  // ----- lengths: base-128 digits, low first, a high bit on all but the last -----------------

  function Uvarint(x: nat): (r: seq<Byte>)
    ensures |r| > 0
  {
    if x >= 0x80 then [x % 0x80 + 0x80] + Uvarint(x / 0x80) else [x]
  }

  /** `scale` is 128 to the power of the bytes read; a tenth byte may only be 0 or 1. */
  function ReadUvarint(s: seq<Byte>, i: nat, scale: nat): Read<nat>
    decreases |s|
  {
    if s == [] || i >= MAX_VARINT_LEN then Failed
    else if s[0] < 0x80 then
      if i == MAX_VARINT_LEN - 1 && s[0] > 1 then Failed else Ok(s[0] * scale, s[1..])
    else
      var r := ReadUvarint(s[1..], i + 1, scale * 0x80);
      if r.Failed? then Failed else Ok((s[0] - 0x80) * scale + r.value, r.rest)
  }

  function Pow128(i: nat): (p: nat)
    ensures p > 0
  {
    if i == 0 then 1 else 0x80 * Pow128(i - 1)
  }

  lemma {:induction false} UvarintRoundTrip(x: nat, i: nat, suffix: seq<Byte>)
    requires i < MAX_VARINT_LEN && x * Pow128(i) < U64
    ensures ReadUvarint(Uvarint(x) + suffix, i, Pow128(i)) == Ok(x * Pow128(i), suffix)
    decreases x
  {
    var s := Uvarint(x) + suffix;
    if x < 0x80 {
      assert s[1..] == suffix;
      if i == MAX_VARINT_LEN - 1 { Pow9(); }
    } else {
      if i == MAX_VARINT_LEN - 1 { Pow9(); }
      var q, d := x / 0x80, x % 0x80;
      assert s[1..] == Uvarint(q) + suffix;
      Carry(x, Pow128(i));
      UvarintRoundTrip(q, i + 1, suffix);
    }
  }

  lemma Pow9()
    ensures Pow128(9) == 0x8000_0000_0000_0000
  {
    assert Pow128(1) == 0x80 && Pow128(2) == 0x4000 && Pow128(3) == 0x20_0000;
    assert Pow128(4) == 0x1000_0000 && Pow128(5) == 0x8_0000_0000 && Pow128(6) == 0x400_0000_0000;
  }

  lemma Carry(x: nat, p: nat)
    ensures x * p == (x % 0x80) * p + (x / 0x80) * (0x80 * p)
  {
    assert x == x % 0x80 + 0x80 * (x / 0x80);
    calc {
      x * p;
      (x % 0x80 + 0x80 * (x / 0x80)) * p;
      (x % 0x80) * p + 0x80 * (x / 0x80) * p;
      (x % 0x80) * p + (x / 0x80) * (0x80 * p);
    }
  }

  // ----- big integers: decimal text -----------------------------------------------------------

  const ZERO: Byte := 48
  const MINUS: Byte := 45
  const PLUS: Byte := 43

  function Digits(n: nat): (r: seq<Byte>)
    ensures |r| > 0 && forall b :: b in r ==> ZERO <= b <= 57
  {
    if n < 10 then [n + 48] else Digits(n / 10) + [n % 10 + 48]
  }

  function Decimal(n: int): (r: seq<Byte>) {
    if n < 0 then [MINUS] + Digits(-n) else Digits(n)
  }

  function ParseDigits(s: seq<Byte>): Read<nat> {
    if s == [] then Failed
    else if !(ZERO <= s[|s| - 1] <= 57) then Failed
    else if |s| == 1 then Ok(s[0] - 48, [])
    else
      var high := ParseDigits(s[..|s| - 1]);
      if high.Failed? then Failed else Ok(high.value * 10 + (s[|s| - 1] - 48), [])
  }

  function ParseDecimal(s: seq<Byte>): Read<int> {
    var signed := s != [] && (s[0] == MINUS || s[0] == PLUS);
    var digits := ParseDigits(if signed then s[1..] else s);
    if digits.Failed? then Failed
    else
      var n: int := digits.value;
      Ok(if signed && s[0] == MINUS then -n else n, [])
  }

  lemma {:induction false} DigitsRoundTrip(n: nat)
    ensures ParseDigits(Digits(n)) == Ok(n, [])
  {
    if n >= 10 {
      DigitsRoundTrip(n / 10);
      var s := Digits(n);
      assert s[..|s| - 1] == Digits(n / 10);
    }
  }

  lemma DecimalRoundTrip(n: int)
    ensures ParseDecimal(Decimal(n)) == Ok(n, [])
  {
    if n < 0 {
      DigitsRoundTrip(-n);
      assert Decimal(n)[1..] == Digits(-n);
    } else {
      DigitsRoundTrip(n);
      assert Decimal(n)[0] in Digits(n);
    }
  }

  // ----- 64-bit words, low byte first ------------------------------------------------------------

  function Le(x: nat, n: nat): (r: seq<Byte>)
    ensures |r| == n
  {
    if n == 0 then [] else [x % 0x100] + Le(x / 0x100, n - 1)
  }

  function FromLe(s: seq<Byte>): nat {
    if s == [] then 0 else s[0] + 0x100 * FromLe(s[1..])
  }

  function Pow256(n: nat): (p: nat)
    ensures p > 0
  {
    if n == 0 then 1 else 0x100 * Pow256(n - 1)
  }

  lemma {:induction false} LeRoundTrip(x: nat, n: nat)
    requires x < Pow256(n)
    ensures FromLe(Le(x, n)) == x
  {
    if n > 0 {
      LeRoundTrip(x / 0x100, n - 1);
    }
  }

  lemma Pow256Of8()
    ensures Pow256(8) == U64
  {
    assert Pow256(1) == 0x100 && Pow256(2) == 0x1_0000 && Pow256(4) == 0x1_0000_0000;
    assert Pow256(6) == 0x1_0000_0000_0000;
  }

  // ----- constants ---------------------------------------------------------------------------------

  function LenString(s: seq<Byte>): seq<Byte> {
    Uvarint(|s|) + s
  }

  function ReadLenString(s: seq<Byte>): Read<seq<Byte>> {
    var n := ReadUvarint(s, 0, 1);
    if n.Failed? || |n.rest| < n.value then Failed
    else Ok(n.rest[..n.value], n.rest[n.value..])
  }

  function EncodeConst(c: Const): seq<Byte> {
    match c
    case Number(bits) => [TAG_NUMBER] + Le(bits, 8)
    case Str(bytes) => [TAG_STRING] + LenString(bytes)
    case BigInt(n) => [TAG_BIGINT] + LenString(Decimal(n))
    case Bool(b) => [TAG_BOOL, if b then 1 else 0]
    case Null => [TAG_NULL]
  }

  function DecodeConst(s: seq<Byte>): Read<Const> {
    if s == [] then Failed
    else
      var body := s[1..];
      if s[0] == TAG_NUMBER then
        if |body| < 8 then Failed else Ok(Number(FromLe(body[..8])), body[8..])
      else if s[0] == TAG_STRING then
        var r := ReadLenString(body);
        if r.Failed? then Failed else Ok(Str(r.value), r.rest)
      else if s[0] == TAG_BIGINT then
        var r := ReadLenString(body);
        if r.Failed? || ParseDecimal(r.value).Failed? then Failed
        else Ok(BigInt(ParseDecimal(r.value).value), r.rest)
      else if s[0] == TAG_BOOL then
        if body == [] then Failed else Ok(Bool(body[0] != 0), body[1..])
      else if s[0] == TAG_NULL then Ok(Null, body)
      else Failed
  }

  lemma LenStringRoundTrip(s: seq<Byte>, suffix: seq<Byte>)
    requires |s| < U64
    ensures ReadLenString(LenString(s) + suffix) == Ok(s, suffix)
  {
    assert LenString(s) + suffix == Uvarint(|s|) + (s + suffix);
    UvarintRoundTrip(|s|, 0, s + suffix);
  }

  /** Decoding what was encoded, whatever follows, gives the constant and what follows. */
  lemma ConstRoundTrip(c: Const, suffix: seq<Byte>)
    requires Encodable(c)
    ensures DecodeConst(EncodeConst(c) + suffix) == Ok(c, suffix)
  {
    match c
    case Number(bits) => NumberRoundTrip(bits, suffix);
    case Str(bytes) => TextRoundTrip(TAG_STRING, bytes, suffix);
    case BigInt(n) =>
      TextRoundTrip(TAG_BIGINT, Decimal(n), suffix);
      DecimalRoundTrip(n);
    case Bool(b) =>
      assert (EncodeConst(c) + suffix)[1..][1..] == suffix;
    case Null =>
      assert (EncodeConst(c) + suffix)[1..] == suffix;
  }

  lemma TextRoundTrip(tag: Byte, bytes: seq<Byte>, suffix: seq<Byte>)
    requires |bytes| < U64
    ensures var s := [tag] + LenString(bytes) + suffix; s[0] == tag && ReadLenString(s[1..]) == Ok(bytes, suffix)
  {
    assert ([tag] + LenString(bytes) + suffix)[1..] == LenString(bytes) + suffix;
    LenStringRoundTrip(bytes, suffix);
  }

  lemma NumberRoundTrip(bits: nat, suffix: seq<Byte>)
    requires bits < U64
    ensures DecodeConst(EncodeConst(Number(bits)) + suffix) == Ok(Number(bits), suffix)
  {
    var s := EncodeConst(Number(bits)) + suffix;
    Pow256Of8();
    LeRoundTrip(bits, 8);
    assert s[1..][..8] == Le(bits, 8) && s[1..][8..] == suffix;
  }

  // ----- the format, byte by byte --------------------------------------------------------------

  /** What base-128 digits count, low first, whatever their high bits. */
  function Base128(l: seq<Byte>): nat {
    if l == [] then 0 else l[0] % 0x80 + 0x80 * Base128(l[1..])
  }

  /** Digits from the i-th of a length on: a high bit on all but the last, ten at most, and
      the tenth no more than 1. */
  predicate IsLength(l: seq<Byte>, i: nat) {
    && 1 <= |l| <= 10 - i && (forall k :: 0 <= k < |l| ==> (l[k] >= 0x80 <==> k < |l| - 1))
    && (|l| == 10 - i ==> l[|l| - 1] <= 1)
  }

  /** What decimal digits count. */
  function Base10(ds: seq<Byte>): int {
    if ds == [] then 0 else Base10(ds[..|ds| - 1]) * 10 + (ds[|ds| - 1] as int - 48)
  }

  predicate AreDigits(ds: seq<Byte>) {
    ds != [] && forall d :: d in ds ==> 48 <= d <= 57
  }

  /** Decimal text with or without a sign. */
  predicate IsDecimal(t: seq<Byte>, n: int) {
    || (AreDigits(t) && n == Base10(t))
    || (t != [] && t[0] in [43, 45] && AreDigits(t[1..]) && n == if t[0] == 45 then -Base10(t[1..]) else Base10(t[1..]))
  }

  /** The bytes are a tag, then what the tag announces. */
  ghost predicate IsForm(c: Const, b: seq<Byte>) {
    match c
    case Number(bits) =>
      && |b| == 9 && b[0] == 1
      && bits == b[1] as int + b[2] as int * 0x100 + b[3] as int * 0x1_0000 + b[4] as int * 0x100_0000
                 + b[5] as int * 0x1_0000_0000 + b[6] as int * 0x100_0000_0000
                 + b[7] as int * 0x1_0000_0000_0000 + b[8] as int * 0x100_0000_0000_0000
    case Str(bytes) => IsText(2, bytes, b)
    case BigInt(n) => exists t :: IsText(3, t, b) && IsDecimal(t, n)
    case Bool(v) => |b| == 2 && b[0] == 4 && (v <==> b[1] != 0)
    case Null => b == [5]
  }

  ghost predicate IsText(tag: Byte, t: seq<Byte>, b: seq<Byte>) {
    exists l :: IsLength(l, 0) && Base128(l) == |t| && b == [tag] + l + t
  }

  /** Reading a length takes exactly the digits that are there. */
  lemma {:induction false} LengthReads(l: seq<Byte>, i: nat, scale: nat, rest: seq<Byte>)
    requires IsLength(l, i)
    ensures ReadUvarint(l + rest, i, scale) == Ok(Base128(l) * scale, rest)
    decreases |l|
  {
    var s := l + rest;
    if |l| == 1 {
      assert s[1..] == rest && l[1..] == [] && Base128(l) == l[0] % 0x80;
    } else {
      assert s[1..] == l[1..] + rest;
      LengthReads(l[1..], i + 1, scale * 0x80, rest);
      Distributes(l[0] % 0x80, Base128(l[1..]), scale);
    }
  }

  lemma Distributes(d: nat, q: nat, scale: nat)
    ensures (d + 0x80 * q) * scale == d * scale + q * (scale * 0x80)
  {
  }

  /** And nothing else is read. */
  lemma {:induction false} ReadIsLength(s: seq<Byte>, i: nat, scale: nat) returns (l: seq<Byte>)
    requires ReadUvarint(s, i, scale).Ok?
    ensures var r := ReadUvarint(s, i, scale); IsLength(l, i) && s == l + r.rest && r.value == Base128(l) * scale
    decreases |s|
  {
    if s[0] < 0x80 {
      l := [s[0]];
    } else {
      var more := ReadIsLength(s[1..], i + 1, scale * 0x80);
      l := [s[0]] + more;
      assert l[1..] == more;
      Distributes(s[0] % 0x80, Base128(more), scale);
    }
  }

  lemma TextReadsExactly(s: seq<Byte>, t: seq<Byte>, rest: seq<Byte>)
    ensures ReadLenString(s) == Ok(t, rest) <==>
            exists l :: IsLength(l, 0) && Base128(l) == |t| && s == l + t + rest
  {
    if ReadLenString(s) == Ok(t, rest) {
      var l := ReadIsLength(s, 0, 1);
      var after := ReadUvarint(s, 0, 1).rest;
      assert after == t + rest && s == l + t + rest;
    }
    if l :| IsLength(l, 0) && Base128(l) == |t| && s == l + t + rest {
      assert s == l + (t + rest);
      LengthReads(l, 0, 1, t + rest);
    }
  }

  lemma {:induction false} DigitsParseExactly(ds: seq<Byte>)
    ensures ParseDigits(ds).Ok? <==> AreDigits(ds)
    ensures AreDigits(ds) ==> ParseDigits(ds).rest == [] && ParseDigits(ds).value == Base10(ds)
  {
    if |ds| == 1 {
      assert ds[..0] == [] && Base10(ds) == ds[0] as int - 48 && ds[0] in ds && ds == [ds[0]];
    } else if |ds| > 1 {
      var n := |ds| - 1;
      DigitsParseExactly(ds[..n]);
      assert ds == ds[..n] + [ds[n]];
      assert ds[n] in ds && forall d :: d in ds <==> d in ds[..n] || d == ds[n];
    }
  }

  lemma DecimalParsesExactly(t: seq<Byte>, n: int)
    ensures ParseDecimal(t) == Ok(n, []) <==> IsDecimal(t, n)
    ensures ParseDecimal(t).Ok? ==> ParseDecimal(t).rest == []
  {
    DigitsParseExactly(t);
    if t != [] && t[0] in [43, 45] {
      assert t[0] in t;
      DigitsParseExactly(t[1..]);
    }
  }

  lemma WordValue(s: seq<Byte>)
    requires |s| == 8
    ensures FromLe(s) == s[0] as int + s[1] as int * 0x100 + s[2] as int * 0x1_0000 + s[3] as int * 0x100_0000
                         + s[4] as int * 0x1_0000_0000 + s[5] as int * 0x100_0000_0000
                         + s[6] as int * 0x1_0000_0000_0000 + s[7] as int * 0x100_0000_0000_0000
  {
    assert FromLe(s[6..]) == s[6] as int + 0x100 * s[7] as int by {
      assert s[6..][1..] == s[7..] && s[7..][1..] == [] && FromLe(s[7..]) == s[7];
    }
    assert s[4..][1..] == s[5..] && s[5..][1..] == s[6..];
    assert s[2..][1..] == s[3..] && s[3..][1..] == s[4..];
    assert s[1..][1..] == s[2..];
    assert FromLe(s[4..]) == s[4] as int + 0x100 * s[5] as int + 0x1_0000 * FromLe(s[6..]);
    assert FromLe(s[2..]) == s[2] as int + 0x100 * s[3] as int + 0x1_0000 * FromLe(s[4..]);
  }

  /** Decoding succeeds on exactly the byte strings that start with a form of the constant, and
      leaves what follows it. */
  lemma DecodesExactly(s: seq<Byte>, c: Const, rest: seq<Byte>)
    ensures DecodeConst(s) == Ok(c, rest) <==> exists b :: IsForm(c, b) && s == b + rest
  {
    match c
    case Number(bits) => NumberDecodesExactly(s, bits, rest);
    case Str(bytes) => TextDecodesExactly(s, bytes, rest);
    case BigInt(n) => BigIntDecodesExactly(s, n, rest);
    case Bool(v) =>
      if DecodeConst(s) == Ok(c, rest) { assert IsForm(c, s[..2]) && s == s[..2] + rest; }
      if b :| IsForm(c, b) && s == b + rest { assert s[1..] == b[1..] + rest && s[1..][1..] == rest; }
    case Null =>
      if DecodeConst(s) == Ok(c, rest) { assert IsForm(c, s[..1]) && s == s[..1] + rest; }
      if b :| IsForm(c, b) && s == b + rest { assert s[1..] == rest; }
  }

  /** What is written is such a form. */
  lemma EncodesForm(c: Const)
    requires Encodable(c)
    ensures IsForm(c, EncodeConst(c))
  {
    var e := EncodeConst(c);
    ConstRoundTrip(c, []);
    assert e + [] == e;
    DecodesExactly(e, c, []);
    var b :| IsForm(c, b) && e == b + [];
    assert b == e;
  }

  lemma NumberDecodesExactly(s: seq<Byte>, bits: nat, rest: seq<Byte>)
    ensures DecodeConst(s) == Ok(Number(bits), rest) <==> exists b :: IsForm(Number(bits), b) && s == b + rest
  {
    if DecodeConst(s) == Ok(Number(bits), rest) {
      var b := s[..9];
      assert s[1..][..8] == b[1..] && s == b + rest;
      WordValue(b[1..]);
      assert IsForm(Number(bits), b);
    }
    if b :| IsForm(Number(bits), b) && s == b + rest {
      assert s[1..][..8] == b[1..] && s[1..][8..] == rest;
      WordValue(b[1..]);
    }
  }

  /** Tag, length and text, and what follows. */
  lemma FormOfText(s: seq<Byte>, tag: Byte, t: seq<Byte>, rest: seq<Byte>)
    ensures (s != [] && s[0] == tag && ReadLenString(s[1..]) == Ok(t, rest)) <==>
            exists b :: IsText(tag, t, b) && s == b + rest
  {
    if s != [] && s[0] == tag {
      TextReadsExactly(s[1..], t, rest);
      if l :| IsLength(l, 0) && Base128(l) == |t| && s[1..] == l + t + rest {
        TagJoins(s, tag, l, t, rest);
        assert IsText(tag, t, [tag] + l + t);
      }
    }
    if b :| IsText(tag, t, b) && s == b + rest {
      var l :| IsLength(l, 0) && Base128(l) == |t| && b == [tag] + l + t;
      TagSplits(tag, l, t, rest);
      TextReadsExactly(s[1..], t, rest);
    }
  }

  lemma TagJoins(s: seq<Byte>, tag: Byte, l: seq<Byte>, t: seq<Byte>, rest: seq<Byte>)
    requires s != [] && s[0] == tag && s[1..] == l + t + rest
    ensures s == [tag] + l + t + rest
  {
    assert s == [tag] + s[1..];
  }

  lemma TagSplits(tag: Byte, l: seq<Byte>, t: seq<Byte>, rest: seq<Byte>)
    ensures ([tag] + l + t + rest)[0] == tag && ([tag] + l + t + rest)[1..] == l + t + rest
  {
  }

  lemma TextDecodesExactly(s: seq<Byte>, bytes: seq<Byte>, rest: seq<Byte>)
    ensures DecodeConst(s) == Ok(Str(bytes), rest) <==> exists b :: IsForm(Str(bytes), b) && s == b + rest
  {
    FormOfText(s, 2, bytes, rest);
    if b :| IsText(2, bytes, b) && s == b + rest { assert IsForm(Str(bytes), b); }
    if b :| IsForm(Str(bytes), b) && s == b + rest { assert IsText(2, bytes, b); }
  }

  lemma BigIntDecodesExactly(s: seq<Byte>, n: int, rest: seq<Byte>)
    ensures DecodeConst(s) == Ok(BigInt(n), rest) <==> exists b :: IsForm(BigInt(n), b) && s == b + rest
  {
    if DecodeConst(s) == Ok(BigInt(n), rest) {
      var t := ReadLenString(s[1..]).value;
      DecimalParsesExactly(t, n);
      FormOfText(s, 3, t, rest);
      var b :| IsText(3, t, b) && s == b + rest;
      assert IsForm(BigInt(n), b);
    }
    if b :| IsForm(BigInt(n), b) && s == b + rest {
      var t :| IsText(3, t, b) && IsDecimal(t, n);
      FormOfText(s, 3, t, rest);
      DecimalParsesExactly(t, n);
    }
  }

  function EncodePool(cs: seq<Const>): seq<Byte> {
    if cs == [] then [] else EncodeConst(cs[0]) + EncodePool(cs[1..])
  }

  function DecodePool(s: seq<Byte>, count: nat): Read<seq<Const>>
    decreases count
  {
    if count == 0 then Ok([], s)
    else
      var c := DecodeConst(s);
      if c.Failed? then Failed
      else
        var cs := DecodePool(c.rest, count - 1);
        if cs.Failed? then Failed else Ok([c.value] + cs.value, cs.rest)
  }

  /** A whole pool written back to back reads back unchanged. */
  lemma {:induction false} PoolRoundTrip(cs: seq<Const>, suffix: seq<Byte>)
    requires forall c :: c in cs ==> Encodable(c)
    ensures DecodePool(EncodePool(cs) + suffix, |cs|) == Ok(cs, suffix)
  {
    if cs == [] {
      assert EncodePool(cs) + suffix == suffix;
    } else {
      assert EncodePool(cs) + suffix == EncodeConst(cs[0]) + (EncodePool(cs[1..]) + suffix);
      ConstRoundTrip(cs[0], EncodePool(cs[1..]) + suffix);
      PoolRoundTrip(cs[1..], suffix);
      assert [cs[0]] + cs[1..] == cs;
    }
  }

  // ----- the codec as it reads and writes a stream ------------------------------------------------

  class ByteStream {
    var data: seq<Byte>

    constructor ()
      ensures data == []
    {
      data := [];
    }

    method Write(b: seq<Byte>)
      modifies this
      ensures data == old(data) + b
    {
      data := data + b;
    }

    /** All of n bytes or nothing. */
    method ReadFull(n: nat) returns (r: Option<seq<Byte>>)
      modifies this
      ensures r == if |old(data)| < n then None else Some(old(data)[..n])
      ensures data == if |old(data)| < n then old(data) else old(data)[n..]
    {
      if |data| < n {
        return None;
      }
      r := Some(data[..n]);
      data := data[n..];
    }

    method WriteUvarint(x: nat)
      modifies this
      ensures data == old(data) + Uvarint(x)
    {
      var rest := x;
      while rest >= 0x80
        invariant data + Uvarint(rest) == old(data) + Uvarint(x)
      {
        assert data + Uvarint(rest) == data + [rest % 0x80 + 0x80] + Uvarint(rest / 0x80);
        Write([rest % 0x80 + 0x80]);
        rest := rest / 0x80;
      }
      Write([rest]);
    }

    method ReadVarint() returns (r: Option<nat>)
      modifies this
      ensures var want := ReadUvarint(old(data), 0, 1);
        if want.Failed? then r == None else r == Some(want.value) && data == want.rest
    {
      ghost var want := ReadUvarint(data, 0, 1);
      var value: nat := 0;
      var scale: nat := 1;
      var i: nat := 0;
      while i < MAX_VARINT_LEN
        invariant i <= MAX_VARINT_LEN
        invariant var now := ReadUvarint(data, i, scale);
          if now.Failed? then want.Failed? else want == Ok(value + now.value, now.rest)
      {
        var b := ReadFull(1);
        if b.None? {
          return None;
        }
        if b.value[0] < 0x80 {
          if i == MAX_VARINT_LEN - 1 && b.value[0] > 1 {
            return None;
          }
          return Some(value + (b.value[0] as int) * scale);
        }
        value := value + (b.value[0] as int - 0x80) * scale;
        scale := scale * 0x80;
        i := i + 1;
      }
      return None;
    }

    method WriteLenString(s: seq<Byte>)
      modifies this
      ensures data == old(data) + LenString(s)
    {
      WriteUvarint(|s|);
      if |s| > 0 {
        Write(s);
      }
    }

    method ReadString() returns (r: Option<seq<Byte>>)
      modifies this
      ensures var want := ReadLenString(old(data));
        if want.Failed? then r == None else r == Some(want.value) && data == want.rest
    {
      var n := ReadVarint();
      if n.None? {
        return None;
      }
      if n.value == 0 {
        return Some([]);
      }
      r := ReadFull(n.value);
    }

    method WriteConst(c: Const)
      modifies this
      ensures data == old(data) + EncodeConst(c)
    {
      match c {
        case Number(bits) =>
          Write([TAG_NUMBER]);
          Write(Le(bits, 8));
          Joined(old(data), [TAG_NUMBER], Le(bits, 8));
        case Str(bytes) =>
          Write([TAG_STRING]);
          WriteLenString(bytes);
          Joined(old(data), [TAG_STRING], LenString(bytes));
        case BigInt(n) =>
          Write([TAG_BIGINT]);
          WriteLenString(Decimal(n));
          Joined(old(data), [TAG_BIGINT], LenString(Decimal(n)));
        case Bool(b) =>
          Write([TAG_BOOL]);
          Write([if b then 1 else 0]);
          Joined(old(data), [TAG_BOOL], [if b then 1 else 0]);
        case Null =>
          Write([TAG_NULL]);
      }
    }

    lemma Joined(a: seq<Byte>, b: seq<Byte>, c: seq<Byte>)
      ensures a + b + c == a + (b + c)
    {
    }

    method ReadConst() returns (r: Option<Const>)
      modifies this
      ensures var want := DecodeConst(old(data));
        if want.Failed? then r == None else r == Some(want.value) && data == want.rest
    {
      var tag := ReadFull(1);
      if tag.None? {
        return None;
      }
      var t := tag.value[0];
      if t == TAG_NUMBER {
        var buf := ReadFull(8);
        return if buf.None? then None else Some(Number(FromLe(buf.value)));
      } else if t == TAG_STRING {
        var s := ReadString();
        return if s.None? then None else Some(Str(s.value));
      } else if t == TAG_BIGINT {
        var s := ReadString();
        if s.None? {
          return None;
        }
        var n := ParseDecimal(s.value);
        return if n.Failed? then None else Some(BigInt(n.value));
      } else if t == TAG_BOOL {
        var b := ReadFull(1);
        return if b.None? then None else Some(Bool(b.value[0] != 0));
      } else if t == TAG_NULL {
        return Some(Null);
      }
      return None;
    }
  }
}
