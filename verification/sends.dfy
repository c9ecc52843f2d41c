/** What one WritePacket puts on the wire, byte by byte and in total. */
module Sends {
  import opened Words
  import opened Bits
  import opened Rings
  import opened Headers
  import opened Reassembly
  import opened Protocol
  import opened History
  import opened Network
  import opened WireFormat
  import Sliding
  import WindowBytes

  /** At most size bytes of a payload from position lo on. */
  function Piece(payload: bytes, lo: nat, size: nat): bytes {
    if lo + size <= |payload| then payload[lo..lo + size] else if lo <= |payload| then payload[lo..] else []
  }

  /** Up to FragmentAbove bytes go out as one datagram, header then payload; more are cut into as few
      fragments of FragmentSize bytes as hold them, in order, the packet header in the first one only. */
  lemma {:induction false} DatagramsAre(config: Config, h: PacketHeader, payload: bytes)
    requires config.Valid() && |payload| <= config.maxPacketSize
    ensures var all, fs := Datagrams(config, h, payload), config.fragmentSize;
      if |payload| <= config.fragmentAbove then all == [Encode(h) + payload]
      else
        && 1 <= |all| <= 256 && |all| <= config.maxFragments
        && (|all| - 1) * fs < |payload| <= |all| * fs
        && forall id: nat :: id < |all| ==>
             all[id] == [1, h.sn / 256, h.sn % 256, id, |all| - 1] + (if id == 0 then Encode(h) else [])
               + Piece(payload, Times(id, fs), fs)
  {
    hide Encode, Chunk, NumFragments, EncodeFragment, Piece, Times;
    if |payload| > config.fragmentAbove {
      var all, fs := Datagrams(config, h, payload), config.fragmentSize;
      NumFragmentsBounds(|payload|, fs);
      NumFragmentsAtMost(|payload|, fs, Least(config.maxFragments, 256));
      TimesIsProduct(|all| - 1, fs);
      TimesIsProduct(|all|, fs);
      forall id: nat | id < |all|
        ensures all[id] == [1, h.sn / 256, h.sn % 256, id, |all| - 1] + (if id == 0 then Encode(h) else [])
          + Piece(payload, Times(id, fs), fs)
      {
        ChunkIs(payload, fs, id);
        FragmentLayout(FragmentHeader(h.sn, id, |all| - 1));
      }
    }
  }

  lemma ChunkIs(payload: bytes, fs: nat, id: nat)
    ensures Chunk(payload, fs, id) == Piece(payload, Times(id, fs), fs)
  {
  }

  // ---------------------------------------------------------------- how many bytes

  lemma {:induction false} SizeOfOne(config: Config, h: PacketHeader, payload: bytes, id: nat)
    requires config.Valid() && |payload| <= config.maxPacketSize && |payload| > config.fragmentAbove
    requires id < |Datagrams(config, h, payload)|
    ensures Times(id, config.fragmentSize) < |payload|
    ensures Times(id, config.fragmentSize) + |Datagrams(config, h, payload)[id]| ==
      5 + (if id == 0 then |Encode(h)| else 0) + Least(Times(id + 1, config.fragmentSize), |payload|)
  {
    hide Encode, Datagrams;
    var all, fs := Datagrams(config, h, payload), config.fragmentSize;
    DatagramsAre(config, h, payload);
    TimesIsProduct(|all| - 1, fs);
    if id < |all| - 1 {
      TimesMonotone(id, |all| - 1, fs);
    }
  }

  lemma {:induction false} SizeOf(config: Config, h: PacketHeader, payload: bytes, k: nat)
    requires config.Valid() && |payload| <= config.maxPacketSize && |payload| > config.fragmentAbove
    requires k <= |Datagrams(config, h, payload)|
    ensures TotalSize(Datagrams(config, h, payload)[..k]) ==
      5 * k + (if k == 0 then 0 else |Encode(h)|) + Least(Times(k, config.fragmentSize), |payload|)
  {
    hide Encode, Datagrams, IsCap;
    var all := Datagrams(config, h, payload);
    if k > 0 {
      SizeOfOne(config, h, payload, k - 1);
      SizeOf(config, h, payload, k - 1);
      assert all[..k][..k - 1] == all[..k - 1];
    }
  }

  /** A payload too large is not sent. Any other costs its own bytes, one packet header, and five bytes for
      each fragment if it is cut up; that is what WritePacket returns and what it has transmitted. */
  lemma {:induction false} WrittenSizeIs(n: Node, payload: bytes)
    requires Good(n)
    ensures var r, c := WritePacket(n, payload), n.e.config;
      if |payload| > c.maxPacketSize then r == n && WrittenSize(n, payload) == 0
      else
        && |n.log.transmitted| < |r.log.transmitted|
        && r.log.transmitted[..|n.log.transmitted|] == n.log.transmitted
        && var sent := r.log.transmitted[|n.log.transmitted|..];
        && sent == Datagrams(c, NextHeader(n.e), payload)
        && WrittenSize(n, payload) == TotalSize(sent) ==
             |payload| + |Encode(NextHeader(n.e))| + if |payload| <= c.fragmentAbove then 0 else 5 * |sent|
  {
    hide Encode, Good, NextHeader, Datagrams, TransmitAll;
    if |payload| <= n.e.config.maxPacketSize {
      var h := NextHeader(n.e);
      Transmits(n, payload);
      DatagramsNonEmpty(n.e.config, h, payload);
      DatagramsAre(n.e.config, h, payload);
      var all := Datagrams(n.e.config, h, payload);
      if |payload| > n.e.config.fragmentAbove {
        SizeOf(n.e.config, h, payload, |all|);
        TimesIsProduct(|all|, n.e.config.fragmentSize);
        assert all[..|all|] == all;
      } else {
        OneSize(Encode(h) + payload);
      }
    }
  }

  lemma OneSize(b: bytes)
    ensures TotalSize([b]) == |b|
  {
    assert [b][..0] == [];
    assert TotalSize([]) == 0;
  }

  /** The datagrams of the payload, and nothing else, are transmitted. */
  lemma {:induction false} Transmits(n: Node, payload: bytes)
    requires Good(n) && |payload| <= n.e.config.maxPacketSize
    ensures WritePacket(n, payload).log.transmitted ==
      n.log.transmitted + Datagrams(n.e.config, NextHeader(n.e), payload)
  {
    hide Good, NextHeader, Datagrams;
    var datagrams := Datagrams(n.e.config, NextHeader(n.e), payload);
    TransmittedAll(Assign(n, payload), n.e.sn, datagrams);
  }

  lemma {:induction false} TransmittedAll(n: Node, sn: u16, datagrams: seq<bytes>)
    requires n.Shape()
    ensures TransmitAll(n, sn, datagrams).log.transmitted == n.log.transmitted + datagrams
  {
    hide Transmit;
    if datagrams != [] {
      TransmittedAll(n, sn, datagrams[..|datagrams| - 1]);
      TransmitRecords(TransmitAll(n, sn, datagrams[..|datagrams| - 1]), sn, datagrams[|datagrams| - 1]);
    }
  }

  /** The header of a write: the next number in turn, the newest number received, and in bit i whether the
      number i before that is recorded. Its entry in the sent buffer has the time and the size. */
  lemma {:induction false} WriteIs(n: Node, payload: bytes, newest: int, i: nat)
    requires Good(n) && |payload| <= n.e.config.maxPacketSize && n.e.recv.latest == Wrap16(newest)
    ensures var r, w := WritePacket(n, payload), |n.log.written|;
      && |r.log.written| == w + 1 && r.log.written[..w] == n.log.written
      && r.log.written[w].payload == payload
      && r.log.written[w].header.sn == Wrap16(w) && r.log.written[w].header.ack == Wrap16(newest - 1)
      && (Bit(r.log.written[w].header.acks, i) <==> i < 32 && n.e.recv.Has(Wrap16(newest - 1 - i)))
      && r.e.sn == Wrap16(w + 1) && r.e.sent.Has(Wrap16(w))
      && r.e.sent.At(Wrap16(w)) == SentPacket(n.e.time, false, n.e.config.packetHeaderSize + |payload|)
  {
    hide Good, Datagrams, Bit, AckBits, TransmitAll, Rem;
    Sliding.NumberIs(n);
    WritePacketKeeps(n, payload);
    NextACKIs(n.e.recv, newest, i);
    NumberedNext(n, payload);
  }

  lemma NumberedNext(n: Node, payload: bytes)
    requires n.Shape() && n.e.sn == Wrap16(|n.log.written|)
    ensures var r := Assign(n, payload);
      && r.e.sn == Wrap16(|n.log.written| + 1) && r.e.sent.Has(n.e.sn)
      && r.e.sent.At(n.e.sn) == SentPacket(n.e.time, false, n.e.config.packetHeaderSize + |payload|)
  {
    hide Rem, NextHeader, AssemblerShape;
    WrapSum(|n.log.written|, 1);
  }

  /** In a channel the write is held from then on, not sent yet, with the last of its datagrams; no other
      packet held has changed. */
  lemma {:induction false} HeldUnsent(n: Node, payload: bytes, s: u16)
    requires Good(n) && n.ch.Some? && |payload| <= n.e.config.maxPacketSize
    ensures var r, all := WritePacket(n, payload).ch.value, Datagrams(n.e.config, NextHeader(n.e), payload);
      && all != [] && r.window.Has(Wrap16(|n.log.written|))
      && r.window.At(Wrap16(|n.log.written|)) == BufferedPacket(0.0, false, all[|all| - 1])
      && (s != Wrap16(|n.log.written|) && r.window.Has(s) ==>
            n.ch.value.window.Has(s) && r.window.At(s) == n.ch.value.window.At(s))
      && r == n.ch.value.(window := r.window)
  {
    hide Good, Datagrams, TransmitAll, Rem, NextHeader;
    Sliding.NumberIs(n);
    DatagramsNonEmpty(n.e.config, NextHeader(n.e), payload);
    WritePacketKeeps(n, payload);
    Sliding.WindowMirrorsSent(WritePacket(n, payload), n.e.sn);
    NumberedNext(n, payload);
    WindowBytes.TransmitHolds(Assign(n, payload), n.e.sn, Datagrams(n.e.config, NextHeader(n.e), payload));
  }
}
