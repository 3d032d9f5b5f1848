/** Password-based key derivation: the nested in-place loops against the definition of
    PBKDF2 in section 5.2 of RFC 2898, for any pseudorandom function. */
module Pbkdf2 {

  type Bytes = seq<bv8>

  /** HMAC under a fixed password: a message in, a block of fixed positive length out. */
  datatype Prf = Prf(len: nat, apply: Bytes -> Bytes)

  ghost predicate ValidPrf(f: Prf) {
    f.len > 0 && forall m: Bytes :: |f.apply(m)| == f.len
  }

  // ----- the definition -----------------------------------------------------------------

  const MAX_BLOCKS: nat := 0xFFFF_FFFF

  /** INT(i): the block number in four octets, most significant first, which the standard has
      for numbers up to 2^32 - 1 only. The code cuts larger ones to 32 bits. */
  function Int4(i: nat): (r: Bytes)
    ensures |r| == 4
  {
    [(i / 0x100_0000 % 0x100) as bv8, (i / 0x1_0000 % 0x100) as bv8, (i / 0x100 % 0x100) as bv8, (i % 0x100) as bv8]
  }

  function Xor(a: Bytes, b: Bytes): (r: Bytes)
    requires |a| == |b|
    ensures |r| == |a|
  {
    seq(|a|, k requires 0 <= k < |a| => a[k] ^ b[k])
  }

  /** U_j of block i. */
  ghost function U(f: Prf, salt: Bytes, i: nat, j: nat): (r: Bytes)
    requires ValidPrf(f) && j >= 1
    ensures |r| == f.len
  {
    if j == 1 then f.apply(salt + Int4(i)) else f.apply(U(f, salt, i, j - 1))
  }

  /** U_1 xor ... xor U_c. */
  ghost function F(f: Prf, salt: Bytes, c: nat, i: nat): (r: Bytes)
    requires ValidPrf(f) && c >= 1
    ensures |r| == f.len
  {
    if c == 1 then U(f, salt, i, 1) else Xor(F(f, salt, c - 1, i), U(f, salt, i, c))
  }

  /** T_1 to T_l, one after the other. */
  ghost function Blocks(f: Prf, salt: Bytes, c: nat, l: nat): Bytes
    requires ValidPrf(f) && c >= 1
  {
    if l == 0 then [] else Blocks(f, salt, c, l - 1) + F(f, salt, c, l)
  }

  /** Step 1 of the definition: such a key is refused. */
  predicate TooLong(f: Prf, keyLen: nat) {
    keyLen > MAX_BLOCKS * f.len
  }

  /** The derived key: as many blocks as it takes, cut to the length asked for. */
  ghost predicate IsDerivedKey(f: Prf, salt: Bytes, c: nat, keyLen: nat, key: Bytes)
    requires ValidPrf(f) && c >= 1
  {
    !TooLong(f, keyLen) && IsKey(f, salt, c, keyLen, key)
  }

  /** The same without the limit: past it block numbers are cut. */
  ghost predicate IsKey(f: Prf, salt: Bytes, c: nat, keyLen: nat, key: Bytes)
    requires ValidPrf(f) && c >= 1
  {
    exists l: nat :: CutFrom(f, salt, c, keyLen, key, l)
  }

  /** Past the limit the blocks come round again: block i + 2^32 is block i. */
  lemma {:induction false} BlocksComeRound(f: Prf, salt: Bytes, c: nat, i: nat)
    requires ValidPrf(f) && c >= 1
    ensures F(f, salt, c, i + MAX_BLOCKS + 1) == F(f, salt, c, i)
  {
    InputsComeRound(f, salt, i, c);
    if c > 1 { BlocksComeRound(f, salt, c - 1, i); }
  }

  lemma {:induction false} InputsComeRound(f: Prf, salt: Bytes, i: nat, j: nat)
    requires ValidPrf(f) && j >= 1
    ensures U(f, salt, i + MAX_BLOCKS + 1, j) == U(f, salt, i, j)
  {
    if j == 1 { NumbersComeRound(i); } else { InputsComeRound(f, salt, i, j - 1); }
  }

  lemma NumbersComeRound(i: nat)
    ensures Int4(i + MAX_BLOCKS + 1) == Int4(i)
  {
    OctetsComeRound(i);
  }

  lemma OctetsComeRound(i: nat)
    ensures var k := i + 0x1_0000_0000;
      && k / 0x100_0000 % 0x100 == i / 0x100_0000 % 0x100 && k / 0x1_0000 % 0x100 == i / 0x1_0000 % 0x100
      && k / 0x100 % 0x100 == i / 0x100 % 0x100 && k % 0x100 == i % 0x100
  {
    var k := i + 0x1_0000_0000;
    Raised(i, 0x100_0000);
    Raised(i / 0x100, 0x1_0000);
    Raised(i / 0x1_0000, 0x100);
    Raised(i / 0x100_0000, 1);
    Twice(i);
    Twice(k);
  }

  /** A multiple of 256 more leaves the last octet, and adds to the rest. */
  lemma Raised(n: nat, m: nat)
    ensures (n + 0x100 * m) % 0x100 == n % 0x100 && (n + 0x100 * m) / 0x100 == n / 0x100 + m
  {
  }

  lemma Twice(n: nat)
    ensures n / 0x1_0000 == n / 0x100 / 0x100 && n / 0x100_0000 == n / 0x1_0000 / 0x100
  {
  }

  lemma {:induction false} BlocksLength(f: Prf, salt: Bytes, c: nat, l: nat)
    requires ValidPrf(f) && c >= 1
    ensures |Blocks(f, salt, c, l)| == l * f.len
  {
    if l > 0 {
      BlocksLength(f, salt, c, l - 1);
      MulAdd(l - 1, 1, f.len);
    }
  }

  ghost predicate CutFrom(f: Prf, salt: Bytes, c: nat, keyLen: nat, key: Bytes, l: nat)
    requires ValidPrf(f) && c >= 1
  {
    keyLen <= |Blocks(f, salt, c, l)| && key == Blocks(f, salt, c, l)[..keyLen]
  }

  lemma {:induction false} BlocksPrefix(f: Prf, salt: Bytes, c: nat, k: nat, l: nat)
    requires ValidPrf(f) && c >= 1 && k <= l
    ensures Blocks(f, salt, c, k) <= Blocks(f, salt, c, l)
  {
    if k < l { BlocksPrefix(f, salt, c, k, l - 1); }
  }

  /** The number of blocks does not matter, so there is one derived key. */
  lemma DerivedKeyUnique(f: Prf, salt: Bytes, c: nat, keyLen: nat, a: Bytes, b: Bytes)
    requires ValidPrf(f) && c >= 1
    requires IsKey(f, salt, c, keyLen, a) && IsKey(f, salt, c, keyLen, b)
    ensures a == b
  {
    var k: nat :| CutFrom(f, salt, c, keyLen, a, k);
    var l: nat :| CutFrom(f, salt, c, keyLen, b, l);
    if k <= l {
      BlocksPrefix(f, salt, c, k, l);
    } else {
      BlocksPrefix(f, salt, c, l, k);
    }
  }

  // ----- one byte of the key, without the definition ------------------------------------------

  /** A block number as four octets, most significant first. */
  datatype Octets = Octets(a: nat, b: nat, c: nat, d: nat) {
    predicate Are(i: nat) {
      a < 0x100 && b < 0x100 && c < 0x100 && d < 0x100 && a * 0x100_0000 + b * 0x1_0000 + c * 0x100 + d == i
    }

    function Bytes(): Bytes
      requires a < 0x100 && b < 0x100 && c < 0x100 && d < 0x100
    {
      [a as bv8, b as bv8, c as bv8, d as bv8]
    }
  }

  /** Each block is the pseudorandom function of the one before; the first is that of the salt
      followed by the octets. */
  predicate IsChain(f: Prf, salt: Bytes, o: Bytes, us: seq<Bytes>) {
    && us != [] && us[0] == f.apply(salt + o)
    && forall j :: 0 < j < |us| ==> us[j] == f.apply(us[j - 1])
  }

  /** The k-th bytes of all of them, added up without carry. */
  function XorAll(us: seq<Bytes>, k: nat): bv8
    requires us != [] && forall u :: u in us ==> k < |u|
  {
    var n := |us| - 1;
    if n == 0 then us[0][k]
    else
      assert us[n] in us && forall u :: u in us[..n] ==> u in us;
      XorAll(us[..n], k) ^ us[n][k]
  }

  lemma Int4Octets(i: nat, o: Octets)
    requires o.Are(i)
    ensures Int4(i) == o.Bytes()
  {
    OctetsOf(i, o.a, o.b, o.c, o.d);
  }

  lemma LastOctet(h: nat, d: nat)
    requires d < 0x100
    ensures (h * 0x100 + d) / 0x100 == h && (h * 0x100 + d) % 0x100 == d
  {
  }

  lemma OctetsOf(i: nat, a: nat, b: nat, c: nat, d: nat)
    requires a < 0x100 && b < 0x100 && c < 0x100 && d < 0x100
    requires a * 0x100_0000 + b * 0x1_0000 + c * 0x100 + d == i
    ensures i / 0x100_0000 % 0x100 == a && i / 0x1_0000 % 0x100 == b && i / 0x100 % 0x100 == c && i % 0x100 == d
  {
    var h2 := a * 0x100 + b;
    var h3 := h2 * 0x100 + c;
    LastOctet(h3, d);
    LastOctet(h2, c);
    LastOctet(a, b);
    assert i == h3 * 0x100 + d && i / 0x1_0000 == h3 / 0x100 && i / 0x100_0000 == h2 / 0x100;
  }

  lemma {:induction false} ChainIsU(f: Prf, salt: Bytes, i: nat, us: seq<Bytes>, j: nat)
    requires ValidPrf(f) && IsChain(f, salt, Int4(i), us) && j < |us|
    ensures us[j] == U(f, salt, i, j + 1)
  {
    if j > 0 { ChainIsU(f, salt, i, us, j - 1); }
  }

  lemma {:induction false} BlockByte(f: Prf, salt: Bytes, i: nat, us: seq<Bytes>, k: nat)
    requires ValidPrf(f) && IsChain(f, salt, Int4(i), us) && k < f.len
    ensures (forall u :: u in us ==> k < |u|) && F(f, salt, |us|, i)[k] == XorAll(us, k)
  {
    forall j | 0 <= j < |us| ensures us[j] == U(f, salt, i, j + 1) { ChainIsU(f, salt, i, us, j); }
    var n := |us| - 1;
    if n > 0 { BlockByte(f, salt, i, us[..n], k); }
  }

  /** Where byte k of block i + 1 is. */
  lemma {:induction false} BlockAt(f: Prf, salt: Bytes, c: nat, l: nat, i: nat, k: nat, at: nat)
    requires ValidPrf(f) && c >= 1 && i < l && k < f.len && at == i * f.len + k
    ensures at < |Blocks(f, salt, c, l)| && Blocks(f, salt, c, l)[at] == F(f, salt, c, i + 1)[k]
  {
    BlocksLength(f, salt, c, l - 1);
    if i < l - 1 { BlockAt(f, salt, c, l - 1, i, k, at); }
  }

  /** One byte of the key, counted in blocks: the exclusive or of one byte of every member of
      the chain that starts from its block's number. */
  lemma KeyByte(f: Prf, salt: Bytes, us: seq<Bytes>, keyLen: nat, key: Bytes, i: nat, k: nat, at: nat, o: Octets)
    requires ValidPrf(f) && us != [] && IsKey(f, salt, |us|, keyLen, key)
    requires k < f.len && at == i * f.len + k && at < keyLen && o.Are(i + 1) && IsChain(f, salt, o.Bytes(), us)
    ensures |key| == keyLen && (forall u :: u in us ==> k < |u|) && key[at] == XorAll(us, k)
  {
    Int4Octets(i + 1, o);
    BlockByte(f, salt, i + 1, us, k);
    var l: nat :| CutFrom(f, salt, |us|, keyLen, key, l);
    BlocksLength(f, salt, |us|, l);
    if i >= l { MulOrder(l, i, f.len); }
    BlockAt(f, salt, |us|, l, i, k, at);
  }

  lemma MulOrder(a: nat, b: nat, n: nat)
    requires a <= b
    ensures a * n <= b * n
  {
    assert b * n == a * n + (b - a) * n;
  }

  // ----- the loops ------------------------------------------------------------------------

  datatype Result = Ok(key: Bytes) | BadIterations | BadKeyLength | UnknownDigest

  /** One block, in place: `t` receives U_1, then every further U is xored into it. `u` is
      the scratch buffer that carries U_j to the next round. */
  method FillBlock(f: Prf, salt: Bytes, iterations: nat, block: nat, t: array<bv8>, at: nat, u: array<bv8>)
    requires ValidPrf(f) && iterations >= 1 && u.Length == f.len && at + f.len <= t.Length && t != u
    modifies t, u
    ensures t[at..at + f.len] == F(f, salt, iterations, block)
    ensures t[..at] == old(t[..at])
  {
    var first := f.apply(salt + Int4(block));
    Copy(t, at, first);
    Copy(u, 0, first);
    assert u[..] == first;
    for n := 2 to iterations + 1
      invariant u[..] == U(f, salt, block, n - 1)
      invariant t[at..at + f.len] == F(f, salt, n - 1, block) && t[..at] == old(t[..at])
    {
      var next := f.apply(u[..]);
      Copy(u, 0, next);
      assert u[..] == next;
      XorInto(t, at, u);
    }
  }

  method Copy(a: array<bv8>, at: nat, b: Bytes)
    requires at + |b| <= a.Length
    modifies a
    ensures a[at..at + |b|] == b && a[..at] == old(a[..at])
  {
    for k := 0 to |b|
      invariant a[at..at + k] == b[..k] && a[..at] == old(a[..at])
    {
      a[at + k] := b[k];
      assert a[at..at + k + 1] == a[at..at + k] + [b[k]];
    }
  }

  method XorInto(t: array<bv8>, at: nat, u: array<bv8>)
    requires at + u.Length <= t.Length && t != u
    modifies t
    ensures t[at..at + u.Length] == Xor(old(t[at..at + u.Length]), u[..]) && t[..at] == old(t[..at])
  {
    ghost var b, w := t[at..at + u.Length], u[..];
    for x := 0 to u.Length
      invariant forall k :: 0 <= k < t.Length ==>
        t[k] == if at <= k < at + x then Xor(b, w)[k - at] else old(t[k])
    {
      assert t[at + x] == b[x] && u[x] == w[x];
      t[at + x] := t[at + x] ^ u[x];
    }
    assert t[at..at + u.Length] == Xor(b, w);
  }

  /** `f` is HMAC with the chosen digest under the password. The key is the one defined, if
      and only if the standard does not refuse its length. */
  method Pbkdf2Key(f: Prf, salt: Bytes, iterations: int, keyLen: int, digest: string) returns (r: Result)
    requires ValidPrf(f)
    ensures r == BadIterations <==> iterations <= 0
    ensures r == BadKeyLength <==> iterations > 0 && keyLen <= 0
    ensures r == UnknownDigest <==> iterations > 0 && keyLen > 0 && digest !in ["sha1", "sha256", "sha512"]
    ensures r.Ok? ==> IsKey(f, salt, iterations, keyLen, r.key)
    ensures r.Ok? ==> (IsDerivedKey(f, salt, iterations, keyLen, r.key) <==> !TooLong(f, keyLen))
  {
    if iterations <= 0 {
      return BadIterations;
    }
    if keyLen <= 0 {
      return BadKeyLength;
    }
    if digest !in ["sha1", "sha256", "sha512"] {
      return UnknownDigest;
    }
    var numBlocks := (keyLen + f.len - 1) / f.len;
    EnoughBlocks(keyLen, f.len);
    BlocksLength(f, salt, iterations, numBlocks);
    var dk := new bv8[numBlocks * f.len];
    var u := new bv8[f.len];
    FillBlocks(f, salt, iterations, numBlocks, dk, u);
    assert CutFrom(f, salt, iterations, keyLen, dk[..keyLen], numBlocks);
    return Ok(dk[..keyLen]);
  }

  /** All blocks, one after the other, into a buffer that just holds them. */
  method FillBlocks(f: Prf, salt: Bytes, iterations: nat, numBlocks: nat, dk: array<bv8>, u: array<bv8>)
    requires ValidPrf(f) && iterations >= 1 && dk != u && u.Length == f.len
    requires dk.Length == |Blocks(f, salt, iterations, numBlocks)|
    modifies dk, u
    ensures dk[..] == Blocks(f, salt, iterations, numBlocks)
  {
    var at: nat := 0;
    for block := 0 to numBlocks
      invariant at <= dk.Length && dk[..at] == Blocks(f, salt, iterations, block)
    {
      BlocksPrefix(f, salt, iterations, block + 1, numBlocks);
      at := AppendBlock(f, salt, iterations, block, dk, at, u);
    }
    assert dk[..at] == dk[..];
  }

  method AppendBlock(f: Prf, salt: Bytes, iterations: nat, block: nat, dk: array<bv8>, at: nat, u: array<bv8>)
    returns (end: nat)
    requires ValidPrf(f) && iterations >= 1 && dk != u && u.Length == f.len
    requires at + f.len <= dk.Length && dk[..at] == Blocks(f, salt, iterations, block)
    modifies dk, u
    ensures end == at + f.len && dk[..end] == Blocks(f, salt, iterations, block + 1)
  {
    FillBlock(f, salt, iterations, block + 1, dk, at, u);
    end := at + f.len;
    assert dk[..end] == dk[..at] + dk[at..end];
  }

  lemma EnoughBlocks(n: nat, len: nat)
    requires len > 0
    ensures (n + len - 1) / len * len >= n
  {
    var q, r := (n + len - 1) / len, (n + len - 1) % len;
    assert q * len + r == n + len - 1 && r < len;
  }

  lemma MulAdd(a: nat, b: nat, len: nat)
    ensures (a + b) * len == a * len + b * len && b * len >= 0
  {
  }
}
