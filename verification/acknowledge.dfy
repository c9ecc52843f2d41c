/** Acknowledgement sets on their way from one peer's receive buffer to the other's ACK calls,
    and what a node keeps while it acts on one, re-entrant writes included. */
module Acknowledge {
  import opened Words
  import opened Bits
  import opened Rings
  import opened Headers
  import opened Reassembly
  import opened Protocol
  import opened History

  // ---------------------------------------------------------------- transport of the set

  /** The numbers the shifting loop looks at, in order. */
  function Visited(ack: u16, bitset: u32, i: nat): seq<u16>
    requires i <= 32
    decreases 32 - i
  {
    if i == 32 then []
    else (if bitset % 2 == 0 then [] else [Back(ack, i)]) + Visited(ack, bitset / 2, i + 1)
  }

  function AckAll(n: Node, numbers: seq<u16>): (r: Node)
    requires n.Shape()
    ensures r.Shape() && r.ch.Some? == n.ch.Some?
    decreases |numbers|
  {
    if numbers == [] then n else AckAll(AckOne(n, numbers[0]), numbers[1..])
  }

  lemma AckAllStep(n: Node, s: u16, rest: seq<u16>)
    requires n.Shape()
    ensures AckAll(n, [s] + rest) == AckAll(AckOne(n, s), rest)
  {
    hide AckOne;
    assert ([s] + rest)[1..] == rest;
  }

  /** One turn of the loop, taken on Visited and on ProcessACKs alike. */
  lemma LoopTurn(n: Node, ack: u16, bitset: u32, i: nat)
    requires n.Shape() && i < 32
    ensures var m, rest := if bitset % 2 == 0 then n else AckOne(n, Back(ack, i)), Visited(ack, bitset / 2, i + 1);
      && ProcessACKs(n, ack, bitset, i) == ProcessACKs(m, ack, bitset / 2, i + 1)
      && AckAll(n, Visited(ack, bitset, i)) == AckAll(m, rest)
  {
    hide AckOne, Back, AckAll, Node.Shape;
    var rest := Visited(ack, bitset / 2, i + 1);
    if bitset % 2 == 0 {
      assert Visited(ack, bitset, i) == [] + rest == rest;
    } else {
      assert Visited(ack, bitset, i) == [Back(ack, i)] + rest;
      AckAllStep(n, Back(ack, i), rest);
    }
  }

  lemma LoopEnd(n: Node, ack: u16, bitset: u32)
    requires n.Shape()
    ensures ProcessACKs(n, ack, bitset, 32) == n == AckAll(n, Visited(ack, bitset, 32))
  {
    hide AckOne, Node.Shape;
  }

  lemma {:induction false} LoopVisits(n: Node, ack: u16, bitset: u32, i: nat)
    requires n.Shape() && i <= 32
    ensures ProcessACKs(n, ack, bitset, i) == AckAll(n, Visited(ack, bitset, i))
    decreases 32 - i
  {
    hide *;
    if i == 32 {
      LoopEnd(n, ack, bitset);
    } else {
      LoopTurn(n, ack, bitset, i);
      LoopVisits(if bitset % 2 == 0 then n else AckOne(n, Back(ack, i)), ack, bitset / 2, i + 1);
    }
  }

  lemma {:induction false} VisitedAre(ack: u16, bitset: u32, i: nat, s: u16)
    requires i <= 32
    ensures s in Visited(ack, bitset, i) <==> exists j: nat :: i <= j < 32 && Bit(bitset, j - i) && s == Back(ack, j)
    decreases 32 - i
  {
    hide Back;
    if i < 32 {
      VisitedAre(ack, bitset / 2, i + 1, s);
      if j: nat :| i + 1 <= j < 32 && Bit(bitset / 2, j - (i + 1)) && s == Back(ack, j) {
        assert Bit(bitset, j - i);
      }
      if j: nat :| i <= j < 32 && Bit(bitset, j - i) && s == Back(ack, j) {
        if j > i {
          assert Bit(bitset / 2, j - (i + 1));
        }
      }
      if bitset % 2 == 1 {
        assert Bit(bitset, i - i);
      }
    }
  }

  /** s is recorded and is ack or one of the 31 numbers before it. */
  ghost predicate RecordedNear<T>(r: Ring<T>, ack: u16, s: u16)
    requires r.WellFormed()
  {
    r.Has(s) && exists i: nat :: i < 32 && s == Back(ack, i)
  }

  /** From one peer's receive buffer through header, encoding, decoding and the shifting loop:
      the numbers visited are exactly those recorded among the newest and the 31 before it. */
  lemma {:induction false} AckSetTransport(peer: EndpointState, payload: bytes, s: u16)
    requires peer.recv.WellFormed()
    ensures var d := Decode(Encode(NextHeader(peer)) + payload);
      && d.ok && d.leftover == payload
      && (s in Visited(d.header.ack, d.header.acks, 0) <==> RecordedNear(peer.recv, Wrap16(peer.recv.latest - 1), s))
  {
    hide Encode, Decode, Visited, RecordedNear, AckBits;
    HeaderRoundTrip(NextHeader(peer), payload);
    SetNames(peer.recv, NextHeader(peer).ack, s);
  }

  lemma {:induction false} SetNames<T>(r: Ring<T>, ack: u16, s: u16)
    requires r.WellFormed()
    ensures AckBits(r, ack, 32) < 0x1_0000_0000
    ensures s in Visited(ack, AckBits(r, ack, 32), 0) <==> RecordedNear(r, ack, s)
  {
    hide Bit, AckBits, Rem, Visited, Back;
    AckBitsBound(r, ack, 32);
    WordSizes();
    var acks := AckBits(r, ack, 32);
    VisitedAre(ack, acks, 0, s);
    if j: nat :| j < 32 && Bit(acks, j - 0) && s == Back(ack, j) {
      BitIs(r, ack, j);
    }
    if r.Has(s) {
      if i: nat :| i < 32 && s == Back(ack, i) {
        BitIs(r, ack, i);
        assert Bit(acks, i - 0);
      }
    }
  }

  lemma BitIs<T>(r: Ring<T>, ack: u16, i: nat)
    requires r.WellFormed() && i < 32
    ensures Bit(AckBits(r, ack, 32), i) <==> r.Has(Back(ack, i))
  {
    hide Bit, AckBits;
    AckBitsExact(r, ack, 32, i);
  }

  // ---------------------------------------------------------------- one acknowledgement

  lemma {:induction false} MarkKeeps(n: Node, sn: u16)
    requires Good(n) && n.e.sent.Has(sn) && !n.e.sent.At(sn).acked
    ensures var r := MarkAcked(n, sn);
      && Core(r) && Grows(n, r) && r.log.acked == n.log.acked + [Ack(sn, |n.log.written|)]
      && (n.ch.Some? ==>
            && n.ch.value.window.latest == r.e.sn && n.ch.value.window.Has(sn)
            && MirroredBut(n.ch.value.window, r.e.sent, n.e.sent.IndexOf(sn)))
      && Buffered(r)
  {
    hide Rem, SlotAfter, HeaderOk, Processed, SentBy, AckedSet, FiredOnce, CounterOf;
    var r := MarkAcked(n, sn);
    assert AcksOk(r) by { MarkAcks(n, sn); }
    HeadersSame(n.log, r.log, n.e.config.maxPacketSize);
    ProcessedSame(n.log, r.log);
    assert RecvOk(r) by { assert forall s: u16 :: r.e.recv.Has(s) <==> n.e.recv.Has(s); }
  }

  lemma {:induction false} MarkAcks(n: Node, sn: u16)
    requires n.Shape() && SentOk(n) && AcksOk(n) && n.e.sent.Has(sn) && !n.e.sent.At(sn).acked
    ensures AcksOk(MarkAcked(n, sn))
  {
    hide Rem, SlotAfter, CounterOf;
    var r := MarkAcked(n, sn);
    var written, cap, acked := |n.log.written|, n.e.sent.Cap(), n.log.acked;
    var c0 := CounterOf(written, sn);
    SequentialFind(n.e.sent, written, sn);
    assert r.log.acked[..|acked|] == acked;
    assert AckedSet(r.log.acked) == AckedSet(acked) + {c0};
    assert c0 !in AckedSet(acked);
    forall c {:trigger c in AckedSet(r.log.acked)} | 0 <= c < written && written - cap <= c
      ensures r.e.sent.entries[Rem(c, cap)].acked <==> c in AckedSet(r.log.acked)
    {
      if Rem(c, cap) == Rem(c0, cap) {
        RemUnique(c, c0, cap);
      }
    }
  }

  lemma {:induction false} FlushKeeps(n: Node, k: nat)
    requires Good(n) && n.ch.Some?
    ensures var r := Flush(n, k); Good(r) && Grows(n, r) && r.log.acked == n.log.acked
    decreases k
  {
    hide Core, Grows, WritePacket;
    var c := n.ch.value;
    if k == 0 || c.queue == [] {
      GrowsSelf(n);
    } else {
      var m := n.(ch := Some(c.(queue := c.queue[1..])));
      ChannelOnly(n, m);
      WritePacketKeeps(m, c.queue[0]);
      var w := WritePacket(m, c.queue[0]);
      FlushKeeps(w, k - 1);
      GrowsOn(n, m, w);
      GrowsOn(n, w, Flush(w, k - 1));
    }
  }

  lemma GrowsSelf(n: Node)
    ensures Grows(n, n)
  {
  }

  /** Channel c holds no packet, and has put none out, that d does not have. */
  ghost predicate BuffersWithin(c: ChannelState, d: ChannelState)
    requires c.window.WellFormed() && d.window.WellFormed()
  {
    && c.out == d.out
    && forall s: u16 :: c.window.Has(s) ==> d.window.Has(s) && c.window.At(s) == d.window.At(s)
  }

  /** Channel fields other than the window are no part of the invariant. */
  lemma ChannelOnly(n: Node, m: Node)
    requires Core(n) && n.ch.Some? && m == n.(ch := m.ch) && m.ch.Some?
    requires m.ch.value.window.WellFormed() && m.ch.value.window.Cap() == n.e.config.sentPacketBufferSize
    ensures Core(m) && Grows(n, m)
    ensures Coupled(n) && m.ch.value.window == n.ch.value.window ==> Coupled(m)
    ensures Buffered(n) && BuffersWithin(m.ch.value, n.ch.value) ==> Buffered(m)
  {
    hide HeaderOk, Processed, SentBy, AckedSet, FiredOnce, SlotAfter;
    HeadersSame(n.log, m.log, n.e.config.maxPacketSize);
    assert forall s: u16 :: m.e.recv.Has(s) <==> n.e.recv.Has(s);
  }

  lemma {:induction false} AdvanceKeeps(n: Node)
    requires Good(n) && n.ch.Some?
    ensures var r := Advance(n); Good(r) && Grows(n, r) && r.log.acked == n.log.acked
  {
    hide Core, Grows, Flush;
    var c := n.ch.value;
    var k := NextHeld(c.window, c.oldestUnacked, 1, n.e.config.recvPacketBufferSize);
    var m := n.(ch := Some(c.(oldestUnacked := Ahead(c.oldestUnacked, k), oldest := c.oldest + k)));
    ChannelOnly(n, m);
    FlushKeeps(m, k);
    GrowsOn(n, m, Flush(m, k));
  }

  lemma {:induction false} ChannelACKKeeps(n: Node, sn: u16)
    requires Core(n) && n.ch.Some? && n.ch.value.window.latest == n.e.sn && n.ch.value.window.Has(sn)
    requires n.e.sent.At(sn).acked && MirroredBut(n.ch.value.window, n.e.sent, n.e.sent.IndexOf(sn))
    requires Buffered(n)
    ensures var r := ChannelACK(n, sn); Good(r) && Grows(n, r) && r.log.acked == n.log.acked
  {
    hide Grows, Advance, Rem, Good, Core, Buffered, MirroredBut;
    var c := n.ch.value;
    var m := n.(ch := Some(c.(window := c.window.Remove(sn))));
    RemovedGood(n, sn);
    if sn == c.oldestUnacked {
      AdvanceKeeps(m);
      GrowsOn(n, m, Advance(m));
    }
  }

  /** Once the packet is out of the window, the window mirrors the sent buffer again. */
  lemma {:induction false} RemovedGood(n: Node, sn: u16)
    requires Core(n) && n.ch.Some? && n.ch.value.window.latest == n.e.sn && n.ch.value.window.Has(sn)
    requires n.e.sent.At(sn).acked && MirroredBut(n.ch.value.window, n.e.sent, n.e.sent.IndexOf(sn))
    requires Buffered(n)
    ensures var m := n.(ch := Some(n.ch.value.(window := n.ch.value.window.Remove(sn)))); Good(m) && Grows(n, m)
  {
    hide Grows, Rem, AcksOk, TransmittedOk, RecvOk, HeadersOk, SentOk, Buffered;
    var m := n.(ch := Some(n.ch.value.(window := n.ch.value.window.Remove(sn))));
    ChannelOnly(n, m);
    assert Coupled(m);
  }

  lemma {:induction false} AckOneKeeps(n: Node, sn: u16)
    requires Good(n)
    ensures var r := AckOne(n, sn);
      && Good(r) && Grows(n, r)
      && r.log.acked == n.log.acked +
        if n.e.sent.Has(sn) && !n.e.sent.At(sn).acked then [Ack(sn, |n.log.written|)] else []
  {
    hide Core, ChannelACK, Grows;
    if !n.e.sent.Has(sn) || n.e.sent.At(sn).acked {
      GrowsSelf(n);
    } else {
      var m := MarkAcked(n, sn);
      MarkKeeps(n, sn);
      if m.ch.Some? {
        ChannelACKKeeps(m, sn);
        GrowsOn(n, m, ChannelACK(m, sn));
      }
    }
  }

  ghost predicate FiredFrom(before: seq<Ack>, after: seq<Ack>, numbers: seq<u16>) {
    before <= after && forall k :: |before| <= k < |after| ==> after[k].sn in numbers
  }

  lemma {:induction false} AckAllKeeps(n: Node, numbers: seq<u16>)
    requires Good(n)
    decreases |numbers|
    ensures var r := AckAll(n, numbers); Good(r) && Grows(n, r) && FiredFrom(n.log.acked, r.log.acked, numbers)
  {
    hide Good, AckOne, Grows;
    if numbers == [] {
      GrowsSelf(n);
    } else {
      var m := AckOne(n, numbers[0]);
      AckOneKeeps(n, numbers[0]);
      AckAllKeeps(m, numbers[1..]);
      GrowsOn(n, m, AckAll(m, numbers[1..]));
    }
  }

  lemma {:induction false} ProcessACKsKeeps(n: Node, ack: u16, bitset: u32)
    requires Good(n)
    ensures var r := ProcessACKs(n, ack, bitset, 0);
      Good(r) && Grows(n, r) && FiredFrom(n.log.acked, r.log.acked, Visited(ack, bitset, 0))
  {
    hide Good, Grows, FiredFrom;
    LoopVisits(n, ack, bitset, 0);
    AckAllKeeps(n, Visited(ack, bitset, 0));
  }

  // ---------------------------------------------------------------- one datagram

  lemma {:induction false} RecordKeeps(n: Node, sn: u16, payload: bytes)
    requires Good(n)
    ensures Good(Record(n, sn, payload))
  {
    hide Rem, SlotAfter, SentBy, AckedSet, FiredOnce, Mirror, ClearRange, HeaderOk, Processed;
    var r := Record(n, sn, payload);
    forall s: u16 ensures Processed(n.log, s) ==> Processed(r.log, s) {
      ProcessedMore(n.log, r.log, s);
    }
    ProcessedLast(r.log);
    assert HeadersOk(r) by { HeadersMore(n.log, r.log, n.e.config.maxPacketSize); }
    forall s: u16 | r.e.recv.Has(s) ensures Processed(r.log, s) {
      RecordedHas(n.e.recv, sn, s);
    }
  }

  lemma ProcessedMore(log: Log, log': Log, s: u16)
    requires log.processed <= log'.processed
    ensures Processed(log, s) ==> Processed(log', s)
  {
  }

  lemma ProcessedLast(log: Log)
    requires log.processed != []
    ensures Processed(log, log.processed[|log.processed| - 1].sn)
  {
  }

  lemma {:induction false} HeadersMore(log: Log, log': Log, max: nat)
    requires log.processed <= log'.processed && log.written == log'.written
    ensures forall k :: 0 <= k < |log.written| && HeaderOk(log, k, max) ==> HeaderOk(log', k, max)
  {
    hide Bit, Processed;
    forall s: u16 ensures Processed(log, s) ==> Processed(log', s) {
      ProcessedMore(log, log', s);
    }
  }

  /** An insert records its own number and otherwise only loses some. */
  lemma {:induction false} RecordedHas<T>(r: Ring<T>, sn: u16, s: u16)
    requires r.WellFormed() && r.Insert(sn).Has(s)
    ensures s == sn || r.Has(s)
  {
    hide Rem;
  }

  lemma {:induction false} RecvCompactKeeps(n: Node, buf: bytes)
    requires Good(n)
    ensures var r := RecvCompact(n, buf).0;
      && Good(r) && r.e.assembler == n.e.assembler && r.e.config == n.e.config
      && n.log.written <= r.log.written && n.log.transmitted <= r.log.transmitted
      && (RecvCompact(n, buf).1.Accepted? <==> Decode(buf).ok && !n.e.recv.IsOutdated(Decode(buf).header.sn))
      && (if RecvCompact(n, buf).1.Accepted? then
            var d := Decode(buf);
            && r.log.processed == n.log.processed + [Delivery(d.header.sn, d.leftover)]
            && FiredFrom(n.log.acked, r.log.acked, Visited(d.header.ack, d.header.acks, 0))
            && r.e.recv == Record(n, d.header.sn, d.leftover).e.recv
          else r == n)
  {
    hide Good, Decode, Visited, FiredFrom, ProcessACKs;
    var d := Decode(buf);
    if d.ok && !n.e.recv.IsOutdated(d.header.sn) {
      var m := Record(n, d.header.sn, d.leftover);
      RecordKeeps(n, d.header.sn, d.leftover);
      ProcessACKsKeeps(m, d.header.ack, d.header.acks);
    }
  }

  /** Process is not called at most once. In any reachable state, whatever was received before, the same
      packet included, a packet whose header decodes is processed exactly when its number is not more
      than cap behind the newest one. */
  lemma {:induction false} ProcessedIff(n: Node, buf: bytes)
    requires Good(n) && Decode(buf).ok
    ensures var d, r := Decode(buf), RecvCompact(n, buf).0;
      r.log.processed == n.log.processed +
        if Current(n.e.recv.latest, n.e.config.recvPacketBufferSize, d.header.sn)
        then [Delivery(d.header.sn, d.leftover)] else []
  {
    hide Good, Decode, Visited, FiredFrom, RecvCompact, Current;
    RecvCompactKeeps(n, buf);
    StaleIff(n.e.recv, Decode(buf).header.sn);
    GoodShape(n);
  }

  lemma GoodShape(n: Node)
    requires Good(n)
    ensures n.Shape()
  {
    hide Good;
  }

  /** In particular a packet just accepted and received again is processed again. */
  lemma {:induction false} DuplicatesAreProcessed(n: Node, buf: bytes)
    requires Good(n) && RecvCompact(n, buf).1.Accepted?
    ensures var d, r := Decode(buf), RecvCompact(n, buf).0;
      RecvCompact(r, buf).0.log.processed == n.log.processed +
        [Delivery(d.header.sn, d.leftover), Delivery(d.header.sn, d.leftover)]
  {
    hide Good, Decode, Visited, FiredFrom, RecvCompact;
    var d := Decode(buf);
    RecvCompactKeeps(n, buf);
    RecvCompactKeeps(RecvCompact(n, buf).0, buf);
    StillCurrent(n.e.recv, d.header.sn);
  }

  lemma {:induction false} StillCurrent<T>(r: Ring<T>, sn: u16)
    requires r.WellFormed() && IsCap(r.Cap()) && !r.IsOutdated(sn)
    ensures !r.Insert(sn).IsOutdated(sn)
  {
    hide Rem;
    InsertedInWindow(r, sn);
  }

  /** Entries of the assembler are no part of the invariant. */
  lemma AssemblerOnly(n: Node, m: Node)
    requires Good(n) && m == n.(e := n.e.(assembler := m.e.assembler)) && m.Shape()
    ensures Good(m)
  {
    hide HeaderOk, Processed, SentBy, AckedSet, FiredOnce, SlotAfter, Mirror;
    assert forall s: u16 :: m.e.recv.Has(s) <==> n.e.recv.Has(s);
  }

  /** Whatever bytes arrive, from whatever peer: the node keeps its invariant. */
  lemma {:induction false} ReadPacketKeeps(n: Node, buf: bytes, pooled: bytes)
    requires Good(n) && 0 < |buf|
    ensures var r := ReadPacket(n, buf, pooled).0;
      && Good(r) && r.e.config == n.e.config
      && n.log.written <= r.log.written && n.log.transmitted <= r.log.transmitted
      && n.log.processed <= r.log.processed && n.log.acked <= r.log.acked
  {
    hide Good, Decode, OpenFragment, RecvCompact, Visited;
    if Toggled(buf[0], FLAG_FRAGMENT) {
      var (h, phb, data, outcome) := OpenFragment(buf, n.e.config.maxFragments);
      if outcome.Accepted? && !(!n.e.assembler.Has(h.sn) && n.e.assembler.IsOutdated(h.sn)) {
        FileFragmentKeeps(n, h, phb, data, pooled);
      }
    } else {
      RecvCompactKeeps(n, buf);
    }
  }

  lemma {:induction false} FileFragmentKeeps(n: Node, h: FragmentHeader, phb: bytes, data: bytes, pooled: bytes)
    requires Good(n) && |phb| <= MAX_PACKET_HEADER_SIZE && h.id <= h.total
    ensures var r := FileFragment(OpenEntry(n, h, pooled), h, phb, data).0;
      && Good(r) && r.e.config == n.e.config
      && n.log.written <= r.log.written && n.log.transmitted <= r.log.transmitted
      && n.log.processed <= r.log.processed && n.log.acked <= r.log.acked
  {
    hide Good, RecvCompact, OpenEntry, StoreFragment, Deliver, Marked;
    var m := OpenEntry(n, h, pooled);
    AssemblerOnly(n, m);
    var f := m.e.assembler.At(h.sn);
    EntryShape(m.e.assembler, m.e.config.fragmentSize, h.sn);
    if h.total + 1 == f.total && !Marked(f.marked, h.id) {
      var p := StoreFragment(m, h, phb, data);
      AssemblerOnly(m, p);
      DeliverKeeps(p, h.sn);
    }
  }

  lemma {:induction false} DeliverKeeps(n: Node, sn: u16)
    requires Good(n)
    ensures var r := Deliver(n, sn).0;
      && Good(r) && r.e.config == n.e.config
      && n.log.written <= r.log.written && n.log.transmitted <= r.log.transmitted
      && n.log.processed <= r.log.processed && n.log.acked <= r.log.acked
  {
    hide Good, RecvCompact, Decode, Visited;
    var g := n.e.assembler.At(sn);
    EntryShape(n.e.assembler, n.e.config.fragmentSize, sn);
    if g.recv == g.total && Fits(g) {
      var m := RecvCompact(n, Assembled(g)).0;
      RecvCompactKeeps(n, Assembled(g));
      AssemblerOnly(m, m.(e := m.e.(assembler := m.e.assembler.Remove(sn))));
    }
  }

  /** A datagram that is refused, at any stage, changes nothing but perhaps the reassembly buffer: no
      payload is processed, no acknowledgement acted on, nothing written. */
  lemma {:induction false} RefusedChangesNothing(n: Node, buf: bytes, pooled: bytes)
    requires Good(n) && 0 < |buf| && !ReadPacket(n, buf, pooled).1.Accepted?
    ensures var r := ReadPacket(n, buf, pooled).0; r == n.(e := n.e.(assembler := r.e.assembler))
  {
    hide Good, Decode, OpenFragment, RecvCompact, FileFragment, OpenEntry, Visited;
    if Toggled(buf[0], FLAG_FRAGMENT) {
      var (h, phb, data, outcome) := OpenFragment(buf, n.e.config.maxFragments);
      if outcome.Accepted? && !(!n.e.assembler.Has(h.sn) && n.e.assembler.IsOutdated(h.sn)) {
        AssemblerOnly(n, OpenEntry(n, h, pooled));
        FilingRefused(OpenEntry(n, h, pooled), h, phb, data);
      }
    } else {
      RecvCompactKeeps(n, buf);
    }
  }

  lemma {:induction false} FilingRefused(n: Node, h: FragmentHeader, phb: bytes, data: bytes)
    requires Good(n) && |phb| <= MAX_PACKET_HEADER_SIZE && h.id <= h.total
    requires !FileFragment(n, h, phb, data).1.Accepted?
    ensures var r := FileFragment(n, h, phb, data).0; r == n.(e := n.e.(assembler := r.e.assembler))
  {
    hide Good, RecvCompact, StoreFragment, Deliver, Marked;
    var f := n.e.assembler.At(h.sn);
    EntryShape(n.e.assembler, n.e.config.fragmentSize, h.sn);
    if h.total + 1 == f.total && !Marked(f.marked, h.id) {
      AssemblerOnly(n, StoreFragment(n, h, phb, data));
      DeliveryRefused(StoreFragment(n, h, phb, data), h.sn);
    }
  }

  lemma {:induction false} DeliveryRefused(n: Node, sn: u16)
    requires Good(n) && !Deliver(n, sn).1.Accepted?
    ensures var r := Deliver(n, sn).0; r == n.(e := n.e.(assembler := r.e.assembler))
  {
    hide Good, RecvCompact, Decode, Visited, Assembled;
    var g := n.e.assembler.At(sn);
    EntryShape(n.e.assembler, n.e.config.fragmentSize, sn);
    if g.recv == g.total && Fits(g) {
      RecvCompactKeeps(n, Assembled(g));
    }
  }
}
