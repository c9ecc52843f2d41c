/** The wire formats of packet.go: the variable-length packet header and the fragment header. */
module Headers {
  import opened Words

  const MAX_PACKET_HEADER_SIZE: nat := 9
  const FRAGMENT_HEADER_SIZE: nat := 5

  // PacketHeaderFlag: one bit each.
  const FLAG_FRAGMENT: u8 := 1
  const FLAG_A: u8 := 2
  const FLAG_B: u8 := 4
  const FLAG_C: u8 := 8
  const FLAG_D: u8 := 16
  const FLAG_ACK_ENCODED: u8 := 32

  datatype Flags = Flags(fragment: bool, a: bool, b: bool, c: bool, d: bool, ackEncoded: bool) {

    function OnesABCD(): nat {
      (if a then 1 else 0) + (if b then 1 else 0) + (if c then 1 else 0) + (if d then 1 else 0)
    }
  }

  /** p & flag != 0, for a flag of one bit. */
  predicate Toggled(p: u8, flag: u8)
    requires 0 < flag
  {
    p / flag % 2 == 1
  }

  /** p | flag when the condition holds, for a flag of one bit that p does not have yet. */
  function ToggleIf(condition: bool, p: u8, flag: u8): u8
    requires p < flag <= 0x80
  {
    if condition then p + flag else p
  }

  function FlagByte(f: Flags): u8 {
    var f0 := ToggleIf(f.fragment, 0, FLAG_FRAGMENT);
    var f1 := ToggleIf(f.a, f0, FLAG_A);
    var f2 := ToggleIf(f.b, f1, FLAG_B);
    var f3 := ToggleIf(f.c, f2, FLAG_C);
    var f4 := ToggleIf(f.d, f3, FLAG_D);
    ToggleIf(f.ackEncoded, f4, FLAG_ACK_ENCODED)
  }

  /** The two highest bits of the byte are ignored. */
  function FlagsOf(p: u8): Flags {
    Flags(Toggled(p, FLAG_FRAGMENT), Toggled(p, FLAG_A), Toggled(p, FLAG_B), Toggled(p, FLAG_C),
          Toggled(p, FLAG_D), Toggled(p, FLAG_ACK_ENCODED))
  }

  lemma {:induction false} FlagByteRoundTrip(f: Flags)
    ensures FlagsOf(FlagByte(f)) == f
  {
    var n := (b: bool) => if b then 1 else 0;
    var p4 := n(f.d) + 2 * n(f.ackEncoded);
    var p3 := n(f.c) + 2 * p4;
    var p2 := n(f.b) + 2 * p3;
    var p1 := n(f.a) + 2 * p2;
    var p: int := FlagByte(f);
    assert p == n(f.fragment) + 2 * p1;
    assert p / 2 == p1;
    assert p / 4 == p2;
    assert p / 8 == p3;
    assert p / 16 == p4;
    assert p / 32 == n(f.ackEncoded);
  }

  function AppendUint16BE(dst: bytes, x: u16): bytes {
    dst + [x / 0x100, x % 0x100]
  }

  function Uint16BE(b: bytes): u16
    requires 2 <= |b|
  {
    Join16(b[0], b[1])
  }

  function Join16(hi: u8, lo: u8): u16 {
    var high: int := hi;
    0x100 * high + lo
  }

  datatype PacketHeader = PacketHeader(sn: u16, ack: u16, acks: u32)

  /** What a decoder hands back: the header read so far, the bytes not consumed, and whether
      decoding succeeded. */
  datatype Decoded<H> = Decoded(header: H, leftover: bytes, ok: bool)

  /** Byte k of the acknowledgement set, k = 0 being the newest eight numbers. */
  function ByteA(acks: u32): u8 { acks % 0x100 }
  function ByteB(acks: u32): u8 { acks / 0x100 % 0x100 }
  function ByteC(acks: u32): u8 { acks / 0x100 / 0x100 % 0x100 }
  function ByteD(acks: u32): u8 { acks / 0x100 / 0x100 / 0x100 }

  function AppendUnlessFull(dst: bytes, b: u8): bytes {
    if b != 0xFF then dst + [b] else dst
  }

  /** Bytes of the set that are all ones are left out, flagged by a missing bit; the newest
      acknowledged number takes one byte when it is at most 255 behind the sequence number. */
  function FlagsFor(h: PacketHeader): Flags {
    Flags(false, ByteA(h.acks) != 0xFF, ByteB(h.acks) != 0xFF, ByteC(h.acks) != 0xFF,
          ByteD(h.acks) != 0xFF, Behind(h) <= 0xFF)
  }

  function Behind(h: PacketHeader): u16 {
    var diff := h.sn - h.ack;
    if diff < 0 then diff + 0x1_0000 else diff
  }

  function AppendHeader(h: PacketHeader, dst: bytes): bytes {
    var d1 := AppendUint16BE(dst + [FlagByte(FlagsFor(h))], h.sn);
    var d2 := if Behind(h) <= 0xFF then d1 + [Behind(h)] else AppendUint16BE(d1, h.ack);
    AppendAcks(d2, ByteA(h.acks), ByteB(h.acks), ByteC(h.acks), ByteD(h.acks))
  }

  function AppendAcks(dst: bytes, a: u8, b: u8, c: u8, d: u8): bytes {
    AppendUnlessFull(AppendUnlessFull(AppendUnlessFull(AppendUnlessFull(dst, a), b), c), d)
  }

  function Encode(h: PacketHeader): bytes {
    AppendHeader(h, [])
  }

  /** Reads one byte of the set if it was sent; a byte left out is all ones. */
  function TakeByte(sent: bool, buf: bytes): (u8, bytes)
    requires sent ==> 1 <= |buf|
  {
    if sent then (buf[0], buf[1..]) else (0xFF, buf)
  }

  function DecodeAcks(f: Flags, buf: bytes): (u32, bytes)
    requires f.OnesABCD() <= |buf|
  {
    var (a, buf1) := TakeByte(f.a, buf);
    var (b, buf2) := TakeByte(f.b, buf1);
    var (c, buf3) := TakeByte(f.c, buf2);
    var (d, buf4) := TakeByte(f.d, buf3);
    (Acks(a, b, c, d), buf4)
  }

  /** All ones, with the bytes that were sent put in their places. */
  function Acks(a: u8, b: u8, c: u8, d: u8): u32 {
    a + 0x100 * (b + 0x100 * (c + 0x100 * d))
  }

  function Decode(buf: bytes): Decoded<PacketHeader> {
    if |buf| < 3 then Decoded(PacketHeader(0, 0, 0), buf, false)
    else DecodeRest(FlagsOf(buf[0]), buf[1..])
  }

  function DecodeRest(f: Flags, buf: bytes): Decoded<PacketHeader>
    requires 2 <= |buf|
  {
    if f.fragment then Decoded(PacketHeader(0, 0, 0), buf, false)
    else
      var sn, buf2 := Uint16BE(buf[..2]), buf[2..];
      var ackSize := if f.ackEncoded then 1 else 2;
      if |buf2| < ackSize then Decoded(PacketHeader(sn, 0, 0), buf2, false)
      else
        var ack := if f.ackEncoded then Wrap16(sn - buf2[0]) else Uint16BE(buf2[..2]);
        var buf3 := buf2[ackSize..];
        if |buf3| < f.OnesABCD() then Decoded(PacketHeader(sn, ack, 0), buf3, false)
        else
          var (acks, rest) := DecodeAcks(f, buf3);
          Decoded(PacketHeader(sn, ack, acks), rest, true)
  }

  // ---------------------------------------------------------------- properties

  function Part(x: u8): bytes {
    if x != 0xFF then [x] else []
  }

  function AckPart(h: PacketHeader): bytes {
    if Behind(h) <= 0xFF then [Behind(h)] else [h.ack / 0x100, h.ack % 0x100]
  }

  function AcksPart(a: u8, b: u8, c: u8, d: u8): bytes {
    Part(a) + (Part(b) + (Part(c) + Part(d)))
  }

  lemma AppendAcksIs(dst: bytes, a: u8, b: u8, c: u8, d: u8)
    ensures AppendAcks(dst, a, b, c, d) == dst + AcksPart(a, b, c, d)
  {
  }

  /** Appending to a buffer puts the same bytes behind what is there. */
  lemma {:induction false} AppendHeaderIs(h: PacketHeader, dst: bytes)
    ensures AppendHeader(h, dst) == dst + Encode(h)
  {
    hide FlagByte, FlagsFor, Behind, ByteA, ByteB, ByteC, ByteD, AppendAcks, AcksPart;
    EncodeParts(h);
    var flag, hi, lo := FlagByte(FlagsFor(h)), h.sn / 0x100, h.sn % 0x100;
    assert dst + [flag] + [hi, lo] == dst + [flag, hi, lo];
    AppendAcksIs(dst + [flag, hi, lo] + AckPart(h), ByteA(h.acks), ByteB(h.acks), ByteC(h.acks), ByteD(h.acks));
    Regroup(dst, [flag, hi, lo], AckPart(h), AcksPart(ByteA(h.acks), ByteB(h.acks), ByteC(h.acks), ByteD(h.acks)));
  }

  lemma Regroup(a: bytes, b: bytes, c: bytes, d: bytes)
    ensures a + b + c + d == a + (b + c + d)
  {
  }

  lemma {:induction false} EncodeParts(h: PacketHeader)
    ensures Encode(h) == [FlagByte(FlagsFor(h)), h.sn / 0x100, h.sn % 0x100] + AckPart(h)
      + AcksPart(ByteA(h.acks), ByteB(h.acks), ByteC(h.acks), ByteD(h.acks))
  {
    var flag := FlagByte(FlagsFor(h));
    var hi, lo := h.sn / 0x100, h.sn % 0x100;
    assert [] + [flag] + [hi, lo] == [flag, hi, lo];
    AppendAcksIs([flag, hi, lo] + AckPart(h), ByteA(h.acks), ByteB(h.acks), ByteC(h.acks), ByteD(h.acks));
  }

  predicate Flagged(f: Flags, a: u8, b: u8, c: u8, d: u8) {
    f.a == (a != 0xFF) && f.b == (b != 0xFF) && f.c == (c != 0xFF) && f.d == (d != 0xFF)
  }

  lemma AcksPartSize(f: Flags, a: u8, b: u8, c: u8, d: u8)
    requires Flagged(f, a, b, c, d)
    ensures |AcksPart(a, b, c, d)| == f.OnesABCD()
  {
  }

  lemma {:induction false} DecodeAcksInverts(f: Flags, a: u8, b: u8, c: u8, d: u8, rest: bytes)
    requires Flagged(f, a, b, c, d) && f.OnesABCD() <= |AcksPart(a, b, c, d) + rest|
    ensures DecodeAcks(f, AcksPart(a, b, c, d) + rest) == (Acks(a, b, c, d), rest)
  {
    var r3 := Part(d) + rest;
    var r2 := Part(c) + r3;
    var r1 := Part(b) + r2;
    assert AcksPart(a, b, c, d) + rest == Part(a) + r1;
    TakePart(f.a, a, r1);
    TakePart(f.b, b, r2);
    TakePart(f.c, c, r3);
    TakePart(f.d, d, rest);
  }

  lemma TakePart(sent: bool, x: u8, rest: bytes)
    requires sent == (x != 0xFF)
    ensures TakeByte(sent, Part(x) + rest) == (x, rest)
  {
    assert (Part(x) + rest)[|Part(x)|..] == rest;
  }

  /** Decoding a buffer that is laid out as flag byte, number, acknowledged number and set. */
  lemma {:induction false} DecodeLayout(f: Flags, hi: u8, lo: u8, ack: bytes, tail: bytes)
    requires !f.fragment && |ack| == (if f.ackEncoded then 1 else 2) && f.OnesABCD() <= |tail|
    ensures var sn := Join16(hi, lo);
      var (acks, rest) := DecodeAcks(f, tail);
      DecodeRest(f, [hi, lo] + ack + tail) == Decoded(
        PacketHeader(sn, if f.ackEncoded then Wrap16(sn - ack[0]) else Join16(ack[0], ack[1]), acks), rest, true)
  {
    var buf := [hi, lo] + ack + tail;
    assert buf[..2] == [hi, lo] && buf[2..] == ack + tail;
    assert buf[2..][|ack|..] == tail;
    assert !f.ackEncoded ==> buf[2..][..2] == ack;
  }

  lemma {:induction false} DecodeParts(f: Flags, hi: u8, lo: u8, ack: bytes, a: u8, b: u8, c: u8, d: u8, rest: bytes)
    requires !f.fragment && |ack| == (if f.ackEncoded then 1 else 2) && Flagged(f, a, b, c, d)
    ensures var sn := Join16(hi, lo);
      Decode([FlagByte(f), hi, lo] + ack + AcksPart(a, b, c, d) + rest) == Decoded(
        PacketHeader(sn, if f.ackEncoded then Wrap16(sn - ack[0]) else Join16(ack[0], ack[1]), Acks(a, b, c, d)),
        rest, true)
  {
    var tail := AcksPart(a, b, c, d) + rest;
    var buf := [FlagByte(f), hi, lo] + ack + AcksPart(a, b, c, d) + rest;
    assert buf[1..] == [hi, lo] + ack + tail;
    FlagByteRoundTrip(f);
    AcksPartSize(f, a, b, c, d);
    DecodeAcksInverts(f, a, b, c, d, rest);
    DecodeLayout(f, hi, lo, ack, tail);
  }

  lemma AckRecovered(h: PacketHeader)
    ensures Join16(h.sn / 0x100, h.sn % 0x100) == h.sn
    ensures Behind(h) <= 0xFF ==> Wrap16(h.sn - Behind(h)) == h.ack
    ensures Join16(h.ack / 0x100, h.ack % 0x100) == h.ack
  {
  }

  lemma AcksFromBytes(acks: u32)
    ensures Acks(ByteA(acks), ByteB(acks), ByteC(acks), ByteD(acks)) == acks
  {
  }

  /** Decoding undoes encoding for every header and whatever follows it. */
  lemma {:induction false} HeaderRoundTrip(h: PacketHeader, rest: bytes)
    ensures Decode(Encode(h) + rest) == Decoded(h, rest, true)
  {
    EncodeParts(h);
    AckRecovered(h);
    AcksFromBytes(h.acks);
    DecodeParts(FlagsFor(h), h.sn / 0x100, h.sn % 0x100, AckPart(h),
                ByteA(h.acks), ByteB(h.acks), ByteC(h.acks), ByteD(h.acks), rest);
  }

  lemma EncodeSize(h: PacketHeader)
    ensures 4 <= |Encode(h)| <= MAX_PACKET_HEADER_SIZE
    ensures !Toggled(Encode(h)[0], FLAG_FRAGMENT)
  {
    EncodeParts(h);
    FlagByteRoundTrip(FlagsFor(h));
  }

  /** Decoding is total, consumes at most nine bytes, and leaves a suffix. */
  lemma {:induction false} DecodeLeavesSuffix(buf: bytes)
    ensures var d := Decode(buf);
      && |d.leftover| <= |buf| <= |d.leftover| + MAX_PACKET_HEADER_SIZE
      && d.leftover == buf[|buf| - |d.leftover|..]
  {
    if 3 <= |buf| {
      DecodeRestSuffix(FlagsOf(buf[0]), buf[1..]);
    }
  }

  lemma {:induction false} DecodeRestSuffix(f: Flags, buf: bytes)
    requires 2 <= |buf|
    ensures var d := DecodeRest(f, buf);
      && |d.leftover| <= |buf| <= |d.leftover| + 8
      && d.leftover == buf[|buf| - |d.leftover|..]
      && (d.ok ==> |buf| - |d.leftover| == 2 + (if f.ackEncoded then 1 else 2) + f.OnesABCD())
  {
    if DecodeRest(f, buf).ok {
      DecodeAcksSuffix(f, buf[2..][if f.ackEncoded then 1 else 2..]);
    }
  }

  lemma DecodeAcksSuffix(f: Flags, buf: bytes)
    requires f.OnesABCD() <= |buf|
    ensures DecodeAcks(f, buf).1 == buf[f.OnesABCD()..]
  {
  }

  /** No accepted byte string that decodes to h spends fewer bytes on it than Encode does. */
  lemma {:induction false} EncodingIsShortest(buf: bytes, h: PacketHeader)
    requires Decode(buf).ok && Decode(buf).header == h
    ensures |Encode(h)| <= |buf| - |Decode(buf).leftover|
  {
    var f := FlagsOf(buf[0]);
    var buf3 := buf[1..][2..][if f.ackEncoded then 1 else 2..];
    DecodeRestSuffix(f, buf[1..]);
    FlagsNeeded(f, buf3);
    EncodeParts(h);
    if f.ackEncoded {
      BehindOfByte(h.sn, buf[1..][2..][0]);
    }
  }

  lemma BehindOfByte(sn: u16, b: u8)
    ensures Behind(PacketHeader(sn, Wrap16(sn - b), 0)) == b
  {
  }

  /** A byte of the set that was not sent decodes to all ones. */
  lemma {:induction false} FlagsNeeded(f: Flags, buf: bytes)
    requires f.OnesABCD() <= |buf|
    ensures var acks := DecodeAcks(f, buf).0;
      |AcksPart(ByteA(acks), ByteB(acks), ByteC(acks), ByteD(acks))| <= f.OnesABCD()
  {
    var (a, buf1) := TakeByte(f.a, buf);
    var (b, buf2) := TakeByte(f.b, buf1);
    var (c, buf3) := TakeByte(f.c, buf2);
    var (d, _) := TakeByte(f.d, buf3);
    BytesOfSum(a, b, c, d);
  }

  lemma {:induction false} BytesOfSum(a: u8, b: u8, c: u8, d: u8)
    ensures var acks := Acks(a, b, c, d);
      ByteA(acks) == a && ByteB(acks) == b && ByteC(acks) == c && ByteD(acks) == d
  {
    LowByte(a, b + 0x100 * (c + 0x100 * d));
    LowByte(b, c + 0x100 * d);
    LowByte(c, d);
  }

  lemma LowByte(low: u8, high: int)
    ensures (low + 0x100 * high) % 0x100 == low && (low + 0x100 * high) / 0x100 == high
  {
  }

  // ---------------------------------------------------------------- fragment header

  datatype FragmentHeader = FragmentHeader(sn: u16, id: u8, total: u8) {

    /** total counts from zero: it is the id of the last fragment. */
    predicate Validate(maxFragments: nat) {
      id <= total && total + 1 <= maxFragments
    }
  }

  function EncodeFragment(h: FragmentHeader): bytes {
    AppendUint16BE([FLAG_FRAGMENT], h.sn) + [h.id, h.total]
  }

  function DecodeFragment(buf: bytes): Decoded<FragmentHeader> {
    if |buf| < FRAGMENT_HEADER_SIZE then Decoded(FragmentHeader(0, 0, 0), buf, false)
    else
      var sn, buf1 := Uint16BE(buf[1..][0..2]), buf[1..][2..];
      Decoded(FragmentHeader(sn, buf1[0], buf1[1]), buf1[2..], true)
  }

  lemma FragmentRoundTrip(h: FragmentHeader, rest: bytes)
    ensures DecodeFragment(EncodeFragment(h) + rest) == Decoded(h, rest, true)
    ensures |EncodeFragment(h)| == FRAGMENT_HEADER_SIZE
    ensures Toggled((EncodeFragment(h) + rest)[0], FLAG_FRAGMENT)
  {
    var buf := EncodeFragment(h) + rest;
    assert buf[1..][0..2] == [h.sn / 0x100, h.sn % 0x100];
    assert buf[1..][2..] == [h.id, h.total] + rest;
    assert ([h.id, h.total] + rest)[2..] == rest;
  }
}
