/** The framed byte stream of the IPC protocol: 16 header bytes, then the payload. */
module Frames {
  import opened Wrappers

  const MAGIC: nat := 0x414C_4B01
  const VERSION: Byte := 1
  const HEADER_LENGTH := 16
  const U16: nat := 0x1_0000
  const U32: nat := 0x1_0000_0000

  const OP_RPC_REQUEST: nat := 0x0010
  const OP_RPC_RESPONSE: nat := 0x0011
  const OP_RPC_ERROR: nat := 0x0012
  const OP_EVENT_EMIT: nat := 0x0020

  datatype Header = Header(magic: nat, version: Byte, flags: Byte, msgType: nat, sequenceId: nat, payloadLen: nat)

  /** The fields fit the widths they are sent in. */
  predicate Fits(h: Header) {
    h.magic < U32 && h.msgType < U16 && h.sequenceId < U32 && h.payloadLen < U32
  }

  datatype Frame = Frame(header: Header, payload: seq<Byte>)

  // ----- big-endian numbers -------------------------------------------------------------

  function Be16(n: nat): (b: seq<Byte>)
    ensures |b| == 2
  {
    [n / 0x100 % 0x100, n % 0x100]
  }

  function Be32(n: nat): (b: seq<Byte>)
    ensures |b| == 4
  {
    [n / 0x100_0000 % 0x100, n / 0x1_0000 % 0x100, n / 0x100 % 0x100, n % 0x100]
  }

  function FromBe16(b: seq<Byte>): nat
    requires |b| == 2
  {
    b[0] as int * 0x100 + b[1] as int
  }

  function FromBe32(b: seq<Byte>): nat
    requires |b| == 4
  {
    b[0] as int * 0x100_0000 + b[1] as int * 0x1_0000 + b[2] as int * 0x100 + b[3] as int
  }

  /** Reading back gives the number, cut to the width. */
  lemma Be32RoundTrip(n: nat)
    ensures FromBe32(Be32(n)) == n % U32
  {
    var q1 := n / 0x100;
    var q2 := q1 / 0x100;
    var q3 := q2 / 0x100;
    var q4 := q3 / 0x100;
    assert n / 0x1_0000 == q2 && n / 0x100_0000 == q3;
    assert n == q4 * U32 + FromBe32(Be32(n));
    RemainderOf(n, q4, FromBe32(Be32(n)));
  }

  lemma RemainderOf(n: nat, q: nat, r: nat)
    requires n == q * U32 + r && r < U32
    ensures n % U32 == r
  {
  }

  lemma Be16RoundTrip(n: nat)
    ensures FromBe16(Be16(n)) == n % U16
  {
  }

  // ----- headers ------------------------------------------------------------------------

  function EncodeHeader(h: Header): (b: seq<Byte>)
    ensures |b| == HEADER_LENGTH
  {
    Be32(h.magic) + [h.version, h.flags] + Be16(h.msgType) + Be32(h.sequenceId) + Be32(h.payloadLen)
  }

  /** The buffer the header is written into, field by field. */
  method FillHeader(h: Header) returns (buf: array<Byte>)
    ensures fresh(buf) && buf[..] == EncodeHeader(h)
  {
    buf := new Byte[HEADER_LENGTH];
    Put(buf, 0, Be32(h.magic));
    buf[4] := h.version;
    buf[5] := h.flags;
    Put(buf, 6, Be16(h.msgType));
    Put(buf, 8, Be32(h.sequenceId));
    Put(buf, 12, Be32(h.payloadLen));
  }

  method Put(buf: array<Byte>, at: nat, b: seq<Byte>)
    requires at + |b| <= buf.Length
    modifies buf
    ensures buf[..] == old(buf[..at]) + b + old(buf[at + |b|..])
  {
    for i := 0 to |b|
      invariant forall k :: 0 <= k < buf.Length ==> buf[k] == if at <= k < at + i then b[k - at] else old(buf[k])
    {
      buf[at + i] := b[i];
    }
    assert buf[..] == old(buf[..at]) + b + old(buf[at + |b|..]);
  }

  datatype HeaderResult = HeaderOk(header: Header) | TooShort | BadMagic(magic: nat)

  function DecodeHeader(buf: seq<Byte>): HeaderResult {
    if |buf| < HEADER_LENGTH then TooShort
    else
      var magic := FromBe32(buf[0..4]);
      if magic != MAGIC then BadMagic(magic)
      else HeaderOk(Header(magic, buf[4], buf[5], FromBe16(buf[6..8]), FromBe32(buf[8..12]), FromBe32(buf[12..16])))
  }

  /** Decoding reads back each field cut to its width, or the wrong magic number. */
  lemma DecodeCut(h: Header, rest: seq<Byte>)
    ensures DecodeHeader(EncodeHeader(h) + rest) ==
            if Cut(h).magic == MAGIC then HeaderOk(Cut(h)) else BadMagic(Cut(h).magic)
  {
    FieldsApart(h, rest);
    Be32RoundTrip(h.magic);
    Be16RoundTrip(h.msgType);
    Be32RoundTrip(h.sequenceId);
    Be32RoundTrip(h.payloadLen);
  }

  lemma CutKeeps(n: nat, width: nat)
    requires width > 0
    ensures n % width == n <==> n < width
  {
  }

  /** A header survives exactly when it carries the magic number and its fields fit. */
  lemma HeaderRoundTrip(h: Header, rest: seq<Byte>)
    ensures DecodeHeader(EncodeHeader(h) + rest) == HeaderOk(h) <==> h.magic == MAGIC && Fits(h)
  {
    DecodeCut(h, rest);
    CutKeeps(h.magic, U32);
    CutKeeps(h.msgType, U16);
    CutKeeps(h.sequenceId, U32);
    CutKeeps(h.payloadLen, U32);
  }

  lemma FieldsApart(h: Header, rest: seq<Byte>)
    ensures var b := EncodeHeader(h) + rest;
      && |b| >= HEADER_LENGTH && b[0..4] == Be32(h.magic) && b[4] == h.version && b[5] == h.flags
      && b[6..8] == Be16(h.msgType) && b[8..12] == Be32(h.sequenceId) && b[12..16] == Be32(h.payloadLen)
  {
  }

  /** Where each field is, and in network order. */
  lemma HeaderLayout(h: Header)
    ensures var b := EncodeHeader(h);
      && |b| == 16 && BigEndian(b[0..4]) == h.magic % 0x1_0000_0000 && b[4] == h.version && b[5] == h.flags
      && BigEndian(b[6..8]) == h.msgType % 0x1_0000 && BigEndian(b[8..12]) == h.sequenceId % 0x1_0000_0000
      && BigEndian(b[12..16]) == h.payloadLen % 0x1_0000_0000
  {
    FieldsApart(h, []);
    var b := EncodeHeader(h);
    assert b + [] == b;
    Be32RoundTrip(h.magic);
    Be16RoundTrip(h.msgType);
    Be32RoundTrip(h.sequenceId);
    Be32RoundTrip(h.payloadLen);
    BigEndianOf(b[0..4]);
    BigEndianOf(b[6..8]);
    BigEndianOf(b[8..12]);
    BigEndianOf(b[12..16]);
  }

  function Cut(h: Header): Header {
    h.(magic := h.magic % U32, msgType := h.msgType % U16, sequenceId := h.sequenceId % U32,
       payloadLen := h.payloadLen % U32)
  }

  // ----- frames -------------------------------------------------------------------------

  /** The header fields a sender may choose; the others are filled in by writing. */
  predicate Sendable(f: Frame) {
    f.header.msgType < U16 && f.header.sequenceId < U32
  }

  /** What writing does to the header: magic, version and the length as 32 bits. */
  function Stamped(f: Frame): Frame {
    f.(header := f.header.(magic := MAGIC, version := VERSION, payloadLen := |f.payload| % U32))
  }

  function Wire(f: Frame): seq<Byte> {
    EncodeHeader(Stamped(f).header) + f.payload
  }

  /** The single buffer a frame is sent as. */
  method WriteFrame(f: Frame) returns (stamped: Frame, total: array<Byte>)
    ensures stamped == Stamped(f) && fresh(total) && total[..] == Wire(f)
  {
    stamped := f.(header := f.header.(magic := MAGIC, version := VERSION, payloadLen := |f.payload| % U32));
    var hdr := FillHeader(stamped.header);
    total := new Byte[HEADER_LENGTH + |f.payload|];
    Put(total, 0, hdr[..]);
    if |f.payload| > 0 {
      Put(total, HEADER_LENGTH, f.payload);
    }
  }

  /** What a frame is on the wire: magic number, version 1, the flags, type and number the
      sender chose, the length of the payload, and the payload. */
  lemma WireLayout(f: Frame)
    requires Sendable(f)
    ensures var b := Wire(f);
      && |b| == 16 + |f.payload| && b[16..] == f.payload
      && BigEndian(b[0..4]) == 0x414C_4B01 && b[4] == 1 && b[5] == f.header.flags
      && BigEndian(b[6..8]) == f.header.msgType && BigEndian(b[8..12]) == f.header.sequenceId
      && BigEndian(b[12..16]) == |f.payload| % 0x1_0000_0000
  {
    var h, b := Stamped(f).header, Wire(f);
    HeaderLayout(h);
    var e := EncodeHeader(h);
    assert b[0..4] == e[0..4] && b[6..8] == e[6..8] && b[8..12] == e[8..12] && b[12..16] == e[12..16];
  }

  datatype ReadResult = ReadOk(frame: Frame, rest: seq<Byte>) | ReadError

  function ReadFrame(s: seq<Byte>): ReadResult {
    if |s| < HEADER_LENGTH then ReadError
    else
      var h := DecodeHeader(s[..HEADER_LENGTH]);
      if !h.HeaderOk? then ReadError
      else if |s| - HEADER_LENGTH < h.header.payloadLen then ReadError
      else
        var end := HEADER_LENGTH + h.header.payloadLen;
        ReadOk(Frame(h.header, s[HEADER_LENGTH..end]), s[end..])
  }

  /** A frame followed by anything is read back, leaving exactly what followed, if and only
      if its payload is shorter than 2^32 bytes: the length field holds no more. */
  lemma FrameRoundTrip(f: Frame, suffix: seq<Byte>)
    requires Sendable(f)
    ensures ReadFrame(Wire(f) + suffix) == ReadOk(Stamped(f), suffix) <==> |f.payload| < U32
  {
    ReadWire(f, suffix);
    if |f.payload| >= U32 {
      assert |f.payload| % U32 < |f.payload|;
    }
  }

  /** A read takes as many bytes for the payload as the length field says. */
  lemma ReadWire(f: Frame, suffix: seq<Byte>)
    requires Sendable(f)
    ensures var n := |f.payload| % U32; var tail := f.payload + suffix;
      n <= |f.payload| && ReadFrame(Wire(f) + suffix) == ReadOk(Stamped(f).(payload := tail[..n]), tail[n..])
    ensures (f.payload + suffix)[..|f.payload|] == f.payload && (f.payload + suffix)[|f.payload|..] == suffix
  {
    WireDecodes(f, suffix);
    PayloadApart(f, suffix, |f.payload| % U32);
  }

  lemma WireDecodes(f: Frame, suffix: seq<Byte>)
    requires Sendable(f)
    ensures var s := Wire(f) + suffix;
      |s| >= HEADER_LENGTH && DecodeHeader(s[..HEADER_LENGTH]) == HeaderOk(Stamped(f).header)
  {
    var h := Stamped(f).header;
    assert Fits(h) && (Wire(f) + suffix)[..HEADER_LENGTH] == EncodeHeader(h) + [];
    HeaderRoundTrip(h, []);
  }

  lemma PayloadApart(f: Frame, suffix: seq<Byte>, n: nat)
    requires n <= |f.payload|
    ensures var s := Wire(f) + suffix; var end := HEADER_LENGTH + n; var tail := f.payload + suffix;
      |s| == HEADER_LENGTH + |tail| && s[HEADER_LENGTH..end] == tail[..n] && s[end..] == tail[n..]
  {
    assert Wire(f) + suffix == EncodeHeader(Stamped(f).header) + (f.payload + suffix);
  }

  function WireAll(fs: seq<Frame>): seq<Byte> {
    if fs == [] then [] else Wire(fs[0]) + WireAll(fs[1..])
  }

  predicate Writable(f: Frame) {
    Sendable(f) && |f.payload| < U32 && f == Stamped(f)
  }

  lemma WireAllAppend(fs: seq<Frame>, f: Frame)
    ensures WireAll(fs + [f]) == WireAll(fs) + Wire(f)
  {
    if fs == [] {
      assert [f][1..] == [] && WireAll([f]) == Wire(f) + [];
    } else {
      assert (fs + [f])[1..] == fs[1..] + [f];
      WireAllAppend(fs[1..], f);
    }
  }

  /** A reader of the stream meets the frames in the order they were written. */
  lemma StreamRead(fs: seq<Frame>)
    requires forall f :: f in fs ==> Writable(f)
    ensures fs == [] ==> ReadFrame(WireAll(fs)) == ReadError
    ensures fs != [] ==> ReadFrame(WireAll(fs)) == ReadOk(fs[0], WireAll(fs[1..]))
  {
    if fs != [] {
      assert Writable(fs[0]);
      FrameRoundTrip(fs[0], WireAll(fs[1..]));
    }
  }

  datatype ReadAllResult = ReadAllOk(frames: seq<Frame>) | ReadAllError

  /** Reading until the stream is used up. */
  function ReadAll(s: seq<Byte>): ReadAllResult
    decreases |s|
  {
    if s == [] then ReadAllOk([])
    else
      var r := ReadFrame(s);
      if r.ReadError? then ReadAllError
      else
        var more := ReadAll(r.rest);
        if more.ReadAllError? then ReadAllError else ReadAllOk([r.frame] + more.frames)
  }

  lemma ReadAllNext(s: seq<Byte>, f: Frame, rest: seq<Byte>)
    requires ReadFrame(s) == ReadOk(f, rest)
    ensures ReadAll(s) == if ReadAll(rest).ReadAllOk? then ReadAllOk([f] + ReadAll(rest).frames) else ReadAllError
  {
  }

  /** Whole sequences of frames written back to back read back unchanged. */
  lemma {:induction false} StreamRoundTrip(fs: seq<Frame>)
    requires forall f :: f in fs ==> Writable(f)
    ensures ReadAll(WireAll(fs)) == ReadAllOk(fs)
  {
    if fs != [] {
      StreamRead(fs);
      ReadAllNext(WireAll(fs), fs[0], WireAll(fs[1..]));
      StreamRoundTrip(fs[1..]);
      assert [fs[0]] + fs[1..] == fs;
    }
  }
}
