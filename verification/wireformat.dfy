/** The wire formats byte by byte, in numbers, so that no other consistent format will do. */
module WireFormat {
  import opened Words
  import opened Headers

  /** A byte of the set as sent: nothing when it is all ones. */
  function Sparse(x: u8): bytes {
    if x == 255 then [] else [x]
  }

  /** One flag byte, the number, how far the acknowledged number lies behind it in one byte or else that
      number in two, and those bytes of the set that are not all ones, newest numbers first. */
  lemma {:induction false} EncodeLayout(h: PacketHeader)
    ensures var behind := (h.sn - h.ack) % 65536;
      var a, b, c, d := h.acks % 256, h.acks / 256 % 256, h.acks / 65536 % 256, h.acks / 16777216;
      var flag := (if a != 255 then 2 else 0) + (if b != 255 then 4 else 0) + (if c != 255 then 8 else 0)
        + (if d != 255 then 16 else 0) + (if behind <= 255 then 32 else 0);
      Encode(h) == [flag, h.sn / 256, h.sn % 256]
        + (if behind <= 255 then [behind] else [h.ack / 256, h.ack % 256])
        + (Sparse(a) + (Sparse(b) + (Sparse(c) + Sparse(d))))
  {
    hide Encode, FlagByte, ByteA, ByteB, ByteC, ByteD;
    EncodeParts(h);
    SetBytes(h.acks);
    FlagSum(FlagsFor(h));
  }

  lemma SetBytes(acks: u32)
    ensures ByteA(acks) == acks % 256 && ByteB(acks) == acks / 256 % 256
    ensures ByteC(acks) == acks / 65536 % 256 && ByteD(acks) == acks / 16777216
  {
  }

  lemma FlagSum(f: Flags)
    ensures FlagByte(f) == (if f.fragment then 1 else 0) + (if f.a then 2 else 0) + (if f.b then 4 else 0)
      + (if f.c then 8 else 0) + (if f.d then 16 else 0) + (if f.ackEncoded then 32 else 0)
  {
  }

  /** How many bytes a header with this first byte takes. */
  function HeaderSize(flag: u8): nat {
    3 + (if flag / 32 % 2 == 1 then 1 else 2) + flag / 2 % 2 + flag / 4 % 2 + flag / 8 % 2 + flag / 16 % 2
  }

  /** The byte at position p if it was sent, else all ones. */
  function SetByte(buf: bytes, p: nat, sent: bool): u8
    requires sent ==> p < |buf|
  {
    if sent then buf[p] else 255
  }

  /** A number in two bytes, the high one first. */
  function Big(hi: int, lo: int): int {
    256 * hi + lo
  }

  /** Which bytes decode, also those that no encoder sends: the two highest bits of the flag byte do not
      matter, nor does a byte of all ones that was sent all the same. */
  lemma {:induction false} DecodeIff(buf: bytes)
    ensures Decode(buf).ok <==> 3 <= |buf| && buf[0] % 2 == 0 && HeaderSize(buf[0]) <= |buf|
    ensures Decode(buf).ok ==> Decode(buf).leftover == buf[HeaderSize(buf[0])..]
  {
    hide DecodeRest, FlagsOf;
    if 3 <= |buf| {
      FlagBits(buf[0]);
      RestIs(FlagsOf(buf[0]), buf[1..]);
    }
  }

  /** And to what. */
  lemma {:induction false} DecodeFields(buf: bytes)
    requires 3 <= |buf| && buf[0] % 2 == 0 && HeaderSize(buf[0]) <= |buf|
    ensures var f, h := buf[0], Decode(buf).header;
      var p := if f / 32 % 2 == 1 then 4 else 5;
      var q := p + f / 2 % 2;
      var r := q + f / 4 % 2;
      var s := r + f / 8 % 2;
      && h.sn == Big(buf[1], buf[2])
      && h.ack == (if f / 32 % 2 == 1 then (h.sn - buf[3]) % 65536 else Big(buf[3], buf[4]))
      && h.acks == SetByte(buf, p, f / 2 % 2 == 1) + 256 * SetByte(buf, q, f / 4 % 2 == 1)
           + 65536 * SetByte(buf, r, f / 8 % 2 == 1) + 16777216 * SetByte(buf, s, f / 16 % 2 == 1)
  {
    hide DecodeRest, FlagsOf, DecodeAcks;
    FlagBits(buf[0]);
    var f, rest := FlagsOf(buf[0]), buf[1..];
    RestIs(f, rest);
    SetAt(f, rest[if f.ackEncoded then 3 else 4..]);
  }

  lemma {:induction false} RestIs(f: Flags, buf: bytes)
    requires 2 <= |buf|
    ensures var p := if f.ackEncoded then 3 else 4;
      && (DecodeRest(f, buf).ok <==> !f.fragment && p + f.OnesABCD() <= |buf|)
      && (DecodeRest(f, buf).ok ==>
            && DecodeRest(f, buf).leftover == buf[p + f.OnesABCD()..]
            && var h := DecodeRest(f, buf).header;
            && h.sn == Big(buf[0], buf[1])
            && h.ack == (if f.ackEncoded then (h.sn - buf[2]) % 65536 else Big(buf[2], buf[3]))
            && h.acks == DecodeAcks(f, buf[p..]).0)
  {
    hide DecodeAcks, Flags.OnesABCD;
    var size := if f.ackEncoded then 1 else 2;
    if DecodeRest(f, buf).ok {
      assert buf[2..][size..] == buf[2 + size..];
      DecodeAcksSuffix(f, buf[2 + size..]);
    }
  }

  lemma FlagBits(p: u8)
    ensures FlagsOf(p) ==
      Flags(p % 2 == 1, p / 2 % 2 == 1, p / 4 % 2 == 1, p / 8 % 2 == 1, p / 16 % 2 == 1, p / 32 % 2 == 1)
    ensures FlagsOf(p).OnesABCD() == p / 2 % 2 + p / 4 % 2 + p / 8 % 2 + p / 16 % 2
  {
  }

  /** The bytes of the set lie behind one another. */
  lemma {:induction false} SetAt(f: Flags, buf: bytes)
    requires f.OnesABCD() <= |buf|
    ensures var q := if f.a then 1 else 0;
      var r := q + if f.b then 1 else 0;
      var s := r + if f.c then 1 else 0;
      DecodeAcks(f, buf).0 == SetByte(buf, 0, f.a) + 256 * SetByte(buf, q, f.b)
        + 65536 * SetByte(buf, r, f.c) + 16777216 * SetByte(buf, s, f.d)
  {
    var (a, buf1) := TakeByte(f.a, buf);
    var (b, buf2) := TakeByte(f.b, buf1);
    var (c, buf3) := TakeByte(f.c, buf2);
    var (d, _) := TakeByte(f.d, buf3);
    AcksSum(a, b, c, d);
  }

  lemma AcksSum(a: u8, b: u8, c: u8, d: u8)
    ensures Acks(a, b, c, d) == a + 256 * b + 65536 * c + 16777216 * d
  {
  }

  /** A fragment header is a byte 1, the number, the id, and the id of the last fragment. */
  lemma FragmentLayout(h: FragmentHeader)
    ensures EncodeFragment(h) == [1, h.sn / 256, h.sn % 256, h.id, h.total]
  {
  }

  lemma FragmentDecodeIff(buf: bytes)
    ensures DecodeFragment(buf).ok <==> 5 <= |buf|
    ensures 5 <= |buf| ==>
      DecodeFragment(buf) == Decoded(FragmentHeader(Big(buf[1], buf[2]), buf[3], buf[4]), buf[5..], true)
  {
  }

  /** The two formats are told apart by the lowest bit of the first byte. */
  lemma FragmentBit(p: u8)
    ensures Toggled(p, FLAG_FRAGMENT) <==> p % 2 == 1
  {
  }
}
