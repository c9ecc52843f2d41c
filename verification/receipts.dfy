/** Acknowledgement from the receiving side to the sending side: the receive buffer is exactly what the
    payloads processed make it, the headers sent name what it records, and every write a header names gets
    its ACK call. */
module Receipts {
  import opened Words
  import opened Bits
  import opened Rings
  import opened Headers
  import opened Reassembly
  import opened Protocol
  import opened History
  import opened Acknowledge
  import opened Network
  import opened NodeRuns
  import HeadOfLine

  // ---------------------------------------------------------------- what the receive buffer records

  function Numbers(processed: seq<Delivery>): seq<u16> {
    seq(|processed|, i requires 0 <= i < |processed| => processed[i].sn)
  }

  /** The two buffers record the same numbers in the same slots. */
  ghost predicate Alike<T, U>(r: Ring<T>, q: Ring<U>) {
    r.latest == q.latest && r.slots == q.slots
  }

  lemma InsertAlike<T, U>(r: Ring<T>, q: Ring<U>, sn: u16)
    requires r.WellFormed() && q.WellFormed() && Alike(r, q)
    ensures Alike(r.Insert(sn), q.Insert(sn)) && (r.IsOutdated(sn) <==> q.IsOutdated(sn))
  {
  }

  /** The receive buffer is what inserting the numbers of all payloads processed, in order, makes of an empty
      one. */
  ghost predicate RecvExact(n: Node)
    requires n.Shape()
  {
    Alike(n.e.recv, InsertAll(EmptyRing(n.e.config.recvPacketBufferSize, ()), Numbers(n.log.processed)))
  }

  /** Either nothing was processed and recorded, or one payload was both, its number being current. */
  ghost predicate Records(n: Node, r: Node)
    requires n.Shape() && r.Shape()
  {
    && r.e.config == n.e.config
    && (|| (r.e.recv == n.e.recv && r.log.processed == n.log.processed)
        || (exists d :: r.log.processed == n.log.processed + [d] && !n.e.recv.IsOutdated(d.sn)
              && Alike(r.e.recv, n.e.recv.Insert(d.sn))))
  }

  lemma {:induction false} RecordsExact(n: Node, r: Node)
    requires n.Shape() && r.Shape() && Records(n, r) && RecvExact(n)
    ensures RecvExact(r)
  {
    hide Ring.Insert, Ring.IsOutdated;
    if !(r.e.recv == n.e.recv && r.log.processed == n.log.processed) {
      var d :| r.log.processed == n.log.processed + [d] && !n.e.recv.IsOutdated(d.sn)
        && Alike(r.e.recv, n.e.recv.Insert(d.sn));
      var before := Numbers(n.log.processed);
      assert Numbers(r.log.processed) == before + [d.sn] && (before + [d.sn])[..|before|] == before;
      InsertAlike(n.e.recv, InsertAll(EmptyRing(n.e.config.recvPacketBufferSize, ()), before), d.sn);
    }
  }

  lemma GrowsRecords(n: Node, r: Node)
    requires n.Shape() && r.Shape() && Grows(n, r)
    ensures Records(n, r)
  {
    hide Node.Shape;
  }

  lemma {:induction false} RecvCompactRecords(n: Node, buf: bytes)
    requires Good(n)
    ensures Records(n, RecvCompact(n, buf).0)
  {
    hide Good, Decode, RecvCompact, Visited, FiredFrom, Ring.Insert;
    RecvCompactKeeps(n, buf);
  }

  lemma AssemblerRecords(n: Node, m: Node, r: Node, r': Node)
    requires n.Shape() && m.Shape() && r.Shape() && r'.Shape() && Records(m, r)
    requires m == n.(e := n.e.(assembler := m.e.assembler)) && r' == r.(e := r.e.(assembler := r'.e.assembler))
    ensures Records(n, r')
  {
    hide Node.Shape, Ring.Insert;
  }

  lemma {:induction false} DeliverRecords(n: Node, sn: u16)
    requires Good(n)
    ensures Records(n, Deliver(n, sn).0)
  {
    hide Good, RecvCompact, Assembled, Records;
    var g := n.e.assembler.At(sn);
    EntryShape(n.e.assembler, n.e.config.fragmentSize, sn);
    if g.recv == g.total && Fits(g) {
      RecvCompactRecords(n, Assembled(g));
      AssemblerRecords(n, n, RecvCompact(n, Assembled(g)).0, Deliver(n, sn).0);
    } else {
      NothingRecorded(n);
    }
  }

  lemma NothingRecorded(n: Node)
    requires n.Shape()
    ensures Records(n, n)
  {
    hide Node.Shape;
  }

  lemma {:induction false} FileRecords(n: Node, h: FragmentHeader, phb: bytes, data: bytes)
    requires Good(n) && |phb| <= MAX_PACKET_HEADER_SIZE && h.id <= h.total
    ensures Records(n, FileFragment(n, h, phb, data).0)
  {
    hide Good, StoreFragment, Deliver, Marked, Records;
    var f := n.e.assembler.At(h.sn);
    EntryShape(n.e.assembler, n.e.config.fragmentSize, h.sn);
    if h.total + 1 == f.total && !Marked(f.marked, h.id) {
      var p := StoreFragment(n, h, phb, data);
      AssemblerOnly(n, p);
      DeliverRecords(p, h.sn);
      AssemblerRecords(n, p, Deliver(p, h.sn).0, Deliver(p, h.sn).0);
    } else {
      NothingRecorded(n);
    }
  }

  lemma {:induction false} ReadPacketRecords(n: Node, buf: bytes, pooled: bytes)
    requires Good(n) && 0 < |buf|
    ensures Records(n, ReadPacket(n, buf, pooled).0)
  {
    hide Good, OpenFragment, RecvCompact, FileFragment, OpenEntry, Records;
    if Toggled(buf[0], FLAG_FRAGMENT) {
      var (h, phb, data, outcome) := OpenFragment(buf, n.e.config.maxFragments);
      if outcome.Accepted? && !(!n.e.assembler.Has(h.sn) && n.e.assembler.IsOutdated(h.sn)) {
        var m := OpenEntry(n, h, pooled);
        AssemblerOnly(n, m);
        FileRecords(m, h, phb, data);
        AssemblerRecords(n, m, FileFragment(m, h, phb, data).0, FileFragment(m, h, phb, data).0);
      } else {
        NothingRecorded(n);
      }
    } else {
      RecvCompactRecords(n, buf);
    }
  }

  lemma {:induction false} ReactRecords(n: Node, event: Event)
    requires Good(n) && Possible(n, event)
    ensures Records(n, React(n, event))
  {
    hide Good, ReadPacket, Perform, Enabled, Records;
    match event
    case Receive(buf, pooled) => ReadPacketRecords(n, buf, pooled);
    case Local(op) => PerformRecords(n, op);
  }

  lemma {:induction false} PerformRecords(n: Node, op: Op)
    requires Good(n) && Enabled(n, op)
    ensures Records(n, Perform(n, op))
  {
    hide Good, WritePacket, EmitUpTo;
    match op
    case Write(payload) => WritePacketKeeps(n, payload);
    case Tick(_) =>
    case Queue(payload) =>
      Sliding.TakenOnly(n, payload);
      WritePacketKeeps(n.(ch := Some(n.ch.value.(taken := n.ch.value.taken + [payload]))), payload);
    case Resend(_) =>
    case Idle(_) =>
      Sliding.KeepaliveCounted(n);
      WritePacketKeeps(n.(ch := Some(n.ch.value.(keepalives := n.ch.value.keepalives + {|n.log.written|}))), []);
  }

  /** In every run of a node, whatever arrives, the receive buffer records exactly what inserting the numbers
      of the payloads processed so far, in that order, leaves in an empty buffer. */
  lemma {:induction false} ReceivedExact(
    config: Config, channel: bool, states: seq<Node>, events: seq<Event>, i: nat)
    requires IsNodeRun(config, channel, states, events) && i < |states|
    ensures RecvExact(states[i])
  {
    hide Good, React, Possible, Records;
    NodeRunGood(config, channel, states, events, i);
    if i > 0 {
      NodeRunGood(config, channel, states, events, i - 1);
      ReceivedExact(config, channel, states, events, i - 1);
      ReactRecords(states[i - 1], events[i - 1]);
      RecordsExact(states[i - 1], states[i]);
    }
  }

  /** So in every run, as long as the numbers processed are below the capacity, the next header acknowledges
      exactly what was processed among the 32 numbers up to the newest, in whatever order it came. */
  lemma {:induction false} AcknowledgesProcessed(
    config: Config, channel: bool, states: seq<Node>, events: seq<Event>, i: nat, j: nat)
    requires IsNodeRun(config, channel, states, events) && i < |states| && j < 32
    requires forall s :: s in Numbers(states[i].log.processed) ==> s < config.recvPacketBufferSize
    ensures var h := NextHeader(states[i].e);
      Bit(h.acks, j) <==> Back(h.ack, j) in Numbers(states[i].log.processed)
  {
    hide Good, React, Possible, Numbers, InsertAll, Bit, Ring.NextACK, Back;
    NodeRunGood(config, channel, states, events, i);
    ReceivedExact(config, channel, states, events, i);
    var numbers := Numbers(states[i].log.processed);
    FirstLapAcksExact(config.recvPacketBufferSize, numbers, j);
    NextAlike(states[i].e.recv, InsertAll(EmptyRing(config.recvPacketBufferSize, ()), numbers));
  }

  lemma NextAlike<T, U>(r: Ring<T>, q: Ring<U>)
    requires r.WellFormed() && q.WellFormed() && Alike(r, q)
    ensures r.NextACK() == q.NextACK()
  {
    hide AckBits;
    AckBitsAlike(r, q, Wrap16(q.latest - 1), 32);
  }

  lemma {:induction false} AckBitsAlike<T, U>(r: Ring<T>, q: Ring<U>, ack: u16, k: nat)
    requires r.WellFormed() && q.WellFormed() && Alike(r, q)
    ensures AckBits(r, ack, k) == AckBits(q, ack, k)
  {
    if k > 0 {
      AckBitsAlike(r, q, ack, k - 1);
    }
  }

  // ---------------------------------------------------------------- what a header does to the sender

  /** Write c has had its ACK call, or S later writes have pushed it out of the sent buffer. */
  ghost predicate Settled(n: Node, c: nat) {
    c in AckedSet(n.log.acked) || c < |n.log.written| - n.e.config.sentPacketBufferSize
  }

  lemma SettledStays(n: Node, r: Node, c: nat)
    requires Settled(n, c) && n.log.acked <= r.log.acked && n.log.written <= r.log.written
    requires r.e.config == n.e.config
    ensures Settled(r, c)
  {
    hide AckedSet;
    HeadOfLine.AckedMore(n.log.acked, r.log.acked);
  }

  /** An acknowledgement of a write settles it, whatever the re-entrant writes do. */
  lemma {:induction false} AckOneSettles(n: Node, c: nat)
    requires Good(n) && c < |n.log.written|
    ensures Settled(AckOne(n, Wrap16(c)), c)
  {
    hide HeadersOk, RecvOk, TransmittedOk, Coupled, Buffered, Sequential, Rem, AckOne, AckedSet, CounterOf, Grows;
    var sn, r := Wrap16(c), AckOne(n, Wrap16(c));
    AckOneKeeps(n, sn);
    AckOneGrows(n, sn);
    if |n.log.written| - n.e.config.sentPacketBufferSize <= c {
      SequentialFind(n.e.sent, |n.log.written|, sn);
      CounterUnique(|n.log.written|, c);
      if n.e.sent.At(sn).acked {
        assert n.e.sent.entries[Rem(c, n.e.sent.Cap())].acked <==> c in AckedSet(n.log.acked);
        SettledStays(n, r, c);
      } else {
        HeadOfLine.LastAcked(r.log.acked);
      }
    }
  }

  lemma AckOneGrows(n: Node, sn: u16)
    requires Good(n)
    ensures var r := AckOne(n, sn);
      Good(r) && r.e.config == n.e.config && n.log.written <= r.log.written && n.log.acked <= r.log.acked
  {
    hide Good, AckOne;
    AckOneKeeps(n, sn);
  }

  lemma {:induction false} AckAllSettles(n: Node, numbers: seq<u16>, c: nat)
    requires Good(n) && c < |n.log.written| && (Wrap16(c) in numbers || Settled(n, c))
    ensures Settled(AckAll(n, numbers), c)
    decreases |numbers|
  {
    hide Good, AckOne, Settled;
    if numbers != [] {
      var m := AckOne(n, numbers[0]);
      AckOneGrows(n, numbers[0]);
      if Settled(n, c) {
        SettledStays(n, m, c);
      } else if numbers[0] == Wrap16(c) {
        AckOneSettles(n, c);
      }
      AckAllSettles(m, numbers[1..], c);
    }
  }

  /** Every write still remembered that the header of an accepted packet names has its ACK call when the
      packet has been read, unless the writes made meanwhile have pushed it out of the sent buffer. */
  lemma {:induction false} NamedAreAcked(n: Node, h: PacketHeader, payload: bytes, i: nat, c: nat)
    requires Good(n) && Current(n.e.recv.latest, n.e.config.recvPacketBufferSize, h.sn)
    requires i < 32 && Bit(h.acks, i) && c < |n.log.written| && Wrap16(c) == Back(h.ack, i)
    ensures Settled(RecvCompact(n, Encode(h) + payload).0, c)
  {
    hide Good, Encode, Decode, Visited, Settled, ProcessACKs, Bit, Current, AckAll, Record, Back;
    HeaderRoundTrip(h, payload);
    GoodShape(n);
    StaleIff(n.e.recv, h.sn);
    var m := Record(n, h.sn, payload);
    RecordKeeps(n, h.sn, payload);
    RecordWrites(n, h.sn, payload);
    LoopVisits(m, h.ack, h.acks, 0);
    VisitedAre(h.ack, h.acks, 0, Wrap16(c));
    assert Bit(h.acks, i - 0);
    AckAllSettles(m, Visited(h.ack, h.acks, 0), c);
  }

  /** And an ACK call is made only for a number the header names. */
  lemma {:induction false} OnlyNamedAreAcked(n: Node, h: PacketHeader, payload: bytes, k: nat)
    requires Good(n)
    ensures var acked := RecvCompact(n, Encode(h) + payload).0.log.acked;
      && n.log.acked <= acked
      && (|n.log.acked| <= k < |acked| ==>
            exists i :: 0 <= i < 32 && Bit(h.acks, i) && acked[k].sn == Back(h.ack, i))
  {
    hide Good, Encode, Decode, Visited, RecvCompact, Bit, Back;
    HeaderRoundTrip(h, payload);
    RecvCompactKeeps(n, Encode(h) + payload);
    var acked := RecvCompact(n, Encode(h) + payload).0.log.acked;
    if |n.log.acked| <= k < |acked| {
      VisitedAre(h.ack, h.acks, 0, acked[k].sn);
      var i: nat :| i < 32 && Bit(h.acks, i - 0) && acked[k].sn == Back(h.ack, i);
    }
  }

  lemma RecordWrites(n: Node, sn: u16, payload: bytes)
    requires n.Shape()
    ensures Record(n, sn, payload).log.written == n.log.written
  {
  }
}
