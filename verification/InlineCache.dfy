/** The interpreter's inline caches: (shape, key) to slot for reads and writes, and a
    per-call-site cache of methods. A hit must be what the full lookup would give. */
module InlineCache {
  import opened Wrappers
  import opened Values
  import opened Ordinary
  import opened Shapes
  import opened Objects

  const IC_SIZE := 2048
  const CALL_IC_SIZE := 4096

  datatype Entry = NoEntry | Entry(shape: Shape, key: string, idx: nat)
  datatype CallEntry = NoCall | CallEntry(pc: nat, shape: Shape, key: string, idx: nat, fn: Value)

  /** The UTF-8 form of a code point (RFC 3629, section 3). */
  function Utf8Of(c: char): (b: seq<Byte>)
    ensures 1 <= |b| <= 4
  {
    var n := c as int;
    if n < 0x80 then [n]
    else if n < 0x800 then [0xC0 + n / 0x40, 0x80 + n % 0x40]
    else if n < 0x1_0000 then [0xE0 + n / 0x1000, 0x80 + n / 0x40 % 0x40, 0x80 + n % 0x40]
    else [0xF0 + n / 0x4_0000 % 8, 0x80 + n / 0x1000 % 0x40, 0x80 + n / 0x40 % 0x40, 0x80 + n % 0x40]
  }

  /** A key as the bytes the engine stores. */
  function Utf8(key: string): seq<Byte> {
    if key == [] then [] else Utf8Of(key[0]) + Utf8(key[1..])
  }

  /** The bytes of one character after the other. */
  lemma {:induction false} Utf8Appends(key: string, c: char)
    ensures Utf8([]) == [] && Utf8(key + [c]) == Utf8(key) + Utf8Of(c)
  {
    if key == [] {
      assert [c][1..] == [] && Utf8([c]) == Utf8Of(c) + [];
    } else {
      assert (key + [c])[1..] == key[1..] + [c];
      Utf8Appends(key[1..], c);
    }
  }

  /** The table position of a shape id and key: 32-bit wrapping arithmetic, base 31, over the
      bytes of the key. */
  function HashFrom(h: nat, bytes: seq<Byte>): nat
    decreases |bytes|
  {
    if bytes == [] then h else HashFrom((h * 31 + bytes[0]) % 0x1_0000_0000, bytes[1..])
  }

  function IcHash(shapeId: nat, key: string): (r: nat)
    ensures r < IC_SIZE
  {
    HashFrom(shapeId % 0x1_0000_0000, Utf8(key)) % IC_SIZE
  }

  /** What the hash is without wrapping: the digits of a number in base 31. */
  function Polynomial(h: nat, bytes: seq<Byte>): nat {
    if bytes == [] then h else 31 * Polynomial(h, bytes[..|bytes| - 1]) + bytes[|bytes| - 1]
  }

  lemma Wraps(a: nat, b: nat, c: nat)
    requires a % 0x1_0000_0000 == b % 0x1_0000_0000
    ensures (31 * a + c) % 0x1_0000_0000 == (31 * b + c) % 0x1_0000_0000
  {
    var q, p := a / 0x1_0000_0000, b / 0x1_0000_0000;
    assert 31 * a + c == 31 * b + c + 0x1_0000_0000 * (31 * (q - p));
  }

  lemma PolynomialCons(h: nat, bytes: seq<Byte>)
    requires bytes != []
    ensures Polynomial(h, bytes) == Polynomial(h * 31 + bytes[0], bytes[1..])
  {
    var n := |bytes| - 1;
    if n > 0 {
      PolynomialCons(h, bytes[..n]);
      assert bytes[..n][1..] == bytes[1..][..n - 1];
    }
  }

  lemma {:induction false} PolynomialWraps(g: nat, h: nat, bytes: seq<Byte>)
    requires g % 0x1_0000_0000 == h % 0x1_0000_0000
    ensures Polynomial(g, bytes) % 0x1_0000_0000 == Polynomial(h, bytes) % 0x1_0000_0000
  {
    if bytes != [] {
      var n := |bytes| - 1;
      PolynomialWraps(g, h, bytes[..n]);
      Wraps(Polynomial(g, bytes[..n]), Polynomial(h, bytes[..n]), bytes[n]);
    }
  }

  lemma {:induction false} HashFromIsPolynomial(h: nat, bytes: seq<Byte>)
    requires h < 0x1_0000_0000
    ensures HashFrom(h, bytes) == Polynomial(h, bytes) % 0x1_0000_0000
    decreases |bytes|
  {
    if bytes != [] {
      var g := (h * 31 + bytes[0]) % 0x1_0000_0000;
      HashFromIsPolynomial(g, bytes[1..]);
      PolynomialCons(h, bytes);
      PolynomialWraps(g, h * 31 + bytes[0], bytes[1..]);
    }
  }

  /** The position is that number, cut to 32 bits and then to the table. */
  lemma HashIsPolynomial(shapeId: nat, key: string)
    ensures IcHash(shapeId, key) == Polynomial(shapeId, Utf8(key)) % 0x1_0000_0000 % 2048
  {
    HashFromIsPolynomial(shapeId % 0x1_0000_0000, Utf8(key));
    PolynomialWraps(shapeId % 0x1_0000_0000, shapeId, Utf8(key));
  }

  /** The six bits of a continuation byte. */
  function Low6(x: Byte): Option<nat> {
    if 0x80 <= x < 0xC0 then Some(x % 0x40) else None
  }

  function Append6(high: Option<nat>, x: Byte): Option<nat> {
    if high.Some? && Low6(x).Some? then Some(high.value * 0x40 + Low6(x).value) else None
  }

  /** The code point that bytes stand for, read as section 3 of RFC 3629 has it: the first byte
      tells how many follow. */
  function CodePoint(b: seq<Byte>): Option<nat> {
    if |b| == 1 && b[0] < 0x80 then Some(b[0])
    else if |b| == 2 && 0xC0 <= b[0] < 0xE0 then Append6(Some(b[0] % 0x20), b[1])
    else if |b| == 3 && 0xE0 <= b[0] < 0xF0 then Append6(Append6(Some(b[0] % 0x10), b[1]), b[2])
    else if |b| == 4 && 0xF0 <= b[0] < 0xF8 then Append6(Append6(Append6(Some(b[0] % 8), b[1]), b[2]), b[3])
    else None
  }

  lemma Appends(n: nat, x: Byte)
    requires x == 0x80 + n % 0x40
    ensures Append6(Some(n / 0x40), x) == Some(n)
  {
  }

  lemma Leads(n: nat)
    ensures n < 0x20 ==> (0xC0 + n) % 0x20 == n
    ensures n < 0x10 ==> (0xE0 + n) % 0x10 == n
    ensures n < 8 ==> (0xF0 + n) % 8 == n
  {
  }

  lemma Sixes(n: nat)
    ensures n / 0x1000 == n / 0x40 / 0x40 && n / 0x4_0000 == n / 0x40 / 0x40 / 0x40
  {
  }

  lemma Utf8ReadsBack(c: char)
    ensures CodePoint(Utf8Of(c)) == Some(c as int)
    ensures |Utf8Of(c)| ==
      if c as int < 0x80 then 1 else if c as int < 0x800 then 2 else if c as int < 0x1_0000 then 3 else 4
  {
    var n: nat, b := c as int, Utf8Of(c);
    var n1 := n / 0x40;
    var n2 := n1 / 0x40;
    Sixes(n);
    if n < 0x80 {
      assert b == [n];
    } else if n < 0x800 {
      Leads(n1);
      Appends(n, b[1]);
    } else if n < 0x1_0000 {
      Leads(n2);
      Appends(n1, b[1]);
      Appends(n, b[2]);
    } else {
      Leads(n2 / 0x40);
      Appends(n2, b[1]);
      Appends(n1, b[2]);
      Appends(n, b[3]);
    }
  }

  method ComputeHash(shapeId: nat, key: string) returns (r: nat)
    ensures r == IcHash(shapeId, key)
  {
    var h: nat := shapeId % 0x1_0000_0000;
    var bytes := Utf8(key);
    for i := 0 to |bytes|
      invariant HashFrom(h, bytes[i..]) == HashFrom(shapeId % 0x1_0000_0000, bytes)
    {
      assert bytes[i..][1..] == bytes[i + 1..];
      h := (h * 31 + bytes[i]) % 0x1_0000_0000;
    }
    r := h % IC_SIZE;
  }

  class ICache {
    const entries: array<Entry>
    const calls: array<CallEntry>
    var getHit: nat
    var getMiss: nat
    var setHit: nat
    var setMiss: nat
    var callHit: nat
    var callMiss: nat

    /** An entry repeats what its shape says; shapes never change, so it stays true. */
    ghost predicate Valid()
      reads this, entries, calls
    {
      && entries.Length == IC_SIZE && calls.Length == CALL_IC_SIZE
      && (forall i :: 0 <= i < IC_SIZE ==> Faithful(entries[i]))
      && (forall i :: 0 <= i < CALL_IC_SIZE ==> FaithfulCall(calls[i]))
    }

    static ghost predicate Faithful(e: Entry) {
      e.Entry? ==> e.key in e.shape.index && e.shape.index[e.key] == e.idx
    }

    static ghost predicate FaithfulCall(e: CallEntry) {
      e.CallEntry? ==> e.key in e.shape.index && e.shape.index[e.key] == e.idx && !e.fn.Accessor?
    }

    /** The entry a lookup of `key` on a layout with this shape would use. */
    ghost predicate Cached(shape: Shape, key: string)
      requires entries.Length == IC_SIZE
      reads this, entries
    {
      var e := entries[IcHash(shape.id, key)];
      e.Entry? && e.shape == shape && e.key == key
    }

    /** The call site last recorded this method for this shape and name. */
    ghost predicate CallCachedFor(pc: nat, shape: Shape, key: string, fn: Value)
      requires calls.Length == CALL_IC_SIZE
      reads this, calls
    {
      var e := calls[pc % CALL_IC_SIZE];
      e.CallEntry? && e.pc == pc && e.shape == shape && e.key == key && e.fn == fn
    }

    constructor ()
      ensures Valid() && fresh(entries) && fresh(calls)
    {
      entries := new Entry[IC_SIZE](i => NoEntry);
      calls := new CallEntry[CALL_IC_SIZE](i => NoCall);
      getHit, getMiss, setHit, setMiss, callHit, callMiss := 0, 0, 0, 0, 0, 0;
    }

    /** A read through the cache. */
    method GetCached(obj: ObjectValue, key: string) returns (v: Value, hit: bool)
      requires Valid() && obj.Valid()
      modifies this`getHit, this`getMiss
      ensures Valid()
      ensures hit <==> Cached(obj.shape, key) && key in obj.Abs().own
      ensures hit ==> GetOwn(obj.Abs(), key) == Some(v)
      ensures !hit ==> v == Undefined
      ensures getHit == old(getHit) + (if hit then 1 else 0) && getMiss == old(getMiss) + (if hit then 0 else 1)
    {
      var h := ComputeHash(obj.shape.id, key);
      var e := entries[h];
      if e.NoEntry? || e.shape != obj.shape || e.key != key {
        getMiss := getMiss + 1;
        return Undefined, false;
      }
      assert Faithful(entries[h]);
      if key in obj.deleted {
        getMiss := getMiss + 1;
        return Undefined, false;
      }
      getHit := getHit + 1;
      return obj.slots[e.idx], true;
    }

    /** Recording after a successful lookup; an inherited property is not recorded. */
    method CachePut(obj: ObjectValue, key: string)
      requires Valid() && obj.Valid()
      modifies entries
      ensures Valid() && (key in obj.shape.index ==> Cached(obj.shape, key))
    {
      if key in obj.shape.index {
        var h := ComputeHash(obj.shape.id, key);
        entries[h] := Entry(obj.shape, key, obj.shape.index[key]);
      }
    }

    /** A write through the cache. A hit is exactly an assignment; a miss writes nothing. */
    method SetCached(obj: ObjectValue, key: string, value: Value) returns (hit: bool)
      requires Valid() && obj.Valid() && !value.Accessor?
      modifies this`setHit, this`setMiss, obj`slots, obj`deleted
      ensures Valid() && obj.Valid()
      ensures hit <==> Cached(obj.shape, key) && key in old(obj.Abs()).own
                       && old(obj.Abs()).own[key].attrs.writable && !old(obj.Abs()).own[key].value.Accessor?
      ensures obj.Abs() == if hit then SetOwn(old(obj.Abs()), key, value) else old(obj.Abs())
      ensures setHit == old(setHit) + (if hit then 1 else 0)
    {
      var h := ComputeHash(obj.shape.id, key);
      var e := entries[h];
      if e.NoEntry? || e.shape != obj.shape || e.key != key {
        if key !in obj.shape.index {
          return false;
        }
        setMiss := setMiss + 1;
        return false;
      }
      assert Faithful(entries[h]);
      if key in obj.deleted {
        setMiss := setMiss + 1;
        return false;
      }
      if key in obj.attrs && !obj.attrs[key].writable {
        setMiss := setMiss + 1;
        return false;
      }
      if obj.slots[e.idx].Accessor? {
        setMiss := setMiss + 1;
        return false;
      }
      if obj.nonExtensible {
        var current := obj.GetSlot(key);
        if current.None? {
          assert false; // the defensive miss here is never taken
        }
      }
      setHit := setHit + 1;
      obj.Overwrite(key, value);
      return true;
    }

    method SetPut(obj: ObjectValue, key: string)
      requires Valid() && obj.Valid()
      modifies entries
      ensures Valid() && (key in obj.Abs().own ==> Cached(obj.shape, key))
    {
      if key in obj.deleted {
        return;
      }
      if key in obj.shape.index {
        var h := ComputeHash(obj.shape.id, key);
        entries[h] := Entry(obj.shape, key, obj.shape.index[key]);
      }
    }

    /** A method through the call-site cache: never an accessor, always the current value. */
    method CallCached(pc: nat, obj: ObjectValue, key: string) returns (fn: Value, hit: bool)
      requires Valid() && obj.Valid()
      modifies this`callHit, this`callMiss
      ensures Valid()
      ensures hit ==> GetOwn(obj.Abs(), key) == Some(fn) && !fn.Accessor?
      ensures !hit ==> fn == Undefined
      ensures hit <==> key in obj.Abs().own && CallCachedFor(pc, obj.shape, key, obj.Abs().own[key].value)
    {
      if key in obj.deleted {
        callMiss := callMiss + 1;
        return Undefined, false;
      }
      var e := calls[pc % CALL_IC_SIZE];
      if e.NoCall? || e.pc != pc || e.shape != obj.shape || e.key != key {
        callMiss := callMiss + 1;
        return Undefined, false;
      }
      assert FaithfulCall(calls[pc % CALL_IC_SIZE]);
      if e.idx >= |obj.slots| {
        assert false; // the bound check here never fails
      }
      var cur := obj.slots[e.idx];
      if cur != e.fn {
        callMiss := callMiss + 1;
        return Undefined, false;
      }
      callHit := callHit + 1;
      return e.fn, true;
    }

    method CallPut(pc: nat, obj: ObjectValue, key: string, fn: Value)
      requires Valid() && obj.Valid()
      modifies calls
      ensures Valid()
      ensures !fn.Accessor? && key in obj.Abs().own ==> CallCachedFor(pc, obj.shape, key, fn)
    {
      if fn.Accessor? {
        return;
      }
      if key in obj.deleted {
        return;
      }
      if key !in obj.shape.index {
        return;
      }
      calls[pc % CALL_IC_SIZE] := CallEntry(pc, obj.shape, key, obj.shape.index[key], fn);
    }
  }
}
