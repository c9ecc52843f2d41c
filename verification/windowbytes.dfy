/** Which bytes the window holds for each number, and so what a retransmission sends: the one
    datagram of the payload, or, for a fragmented payload, its last fragment only. */
module WindowBytes {
  import opened Words
  import opened Rings
  import opened Headers
  import opened Reassembly
  import opened Protocol
  import opened History
  import opened Acknowledge
  import opened Network
  import opened NodeRuns

  /** The datagram of a write that stays in the window: the last one transmitted. */
  function Retained(config: Config, w: Protocol.Write): bytes
    requires config.Valid()
  {
    DatagramsNonEmpty(config, w.header, w.payload);
    var all := DatagramsOf(config, w);
    all[|all| - 1]
  }

  ghost predicate Keeps(config: Config, written: seq<Protocol.Write>, s: u16, buf: bytes)
    requires config.Valid()
  {
    var c := CounterOf(|written|, s);
    0 <= c && buf == Retained(config, written[c])
  }

  ghost predicate Exact(n: Node)
    requires n.Shape()
  {
    n.ch.Some? ==> forall s: u16 :: n.ch.value.window.Has(s) ==>
      Keeps(n.e.config, n.log.written, s, n.ch.value.window.At(s).buf)
  }

  ghost predicate GoodExact(n: Node)
    ensures GoodExact(n) ==> n.Shape()
  {
    Good(n) && Exact(n)
  }

  /** Nothing is written and nothing new is held. */
  lemma {:induction false} SameWrites(n: Node, m: Node)
    requires n.Shape() && m.Shape() && Exact(n) && n.ch.Some?
    requires m.log.written == n.log.written && m.e.config == n.e.config && m.ch.Some?
    requires forall s: u16 :: m.ch.value.window.Has(s) ==>
      n.ch.value.window.Has(s) && m.ch.value.window.At(s).buf == n.ch.value.window.At(s).buf
    ensures Exact(m)
  {
    hide Keeps, Rem;
  }

  // ---------------------------------------------------------------- writing

  /** Transmitting to a channel leaves the last datagram under sn, and other numbers as they were. */
  lemma {:induction false} TransmitHolds(n: Node, sn: u16, datagrams: seq<bytes>)
    requires n.Shape() && n.ch.Some?
    ensures var w, w' := n.ch.value.window, TransmitAll(n, sn, datagrams).ch.value.window;
      && (datagrams != [] ==> w'.At(sn) == BufferedPacket(0.0, false, datagrams[|datagrams| - 1]))
      && forall s: u16 :: s != sn && w'.Has(s) ==> w.Has(s) && w'.At(s) == w.At(s)
  {
    hide Rem;
    if datagrams != [] {
      var before, last := datagrams[..|datagrams| - 1], datagrams[|datagrams| - 1];
      TransmitHolds(n, sn, before);
      var m := TransmitAll(n, sn, before);
      var w, w' := m.ch.value.window, TransmitAll(n, sn, datagrams).ch.value.window;
      assert w' == w.Insert(sn).Put(sn, BufferedPacket(0.0, false, last));
      forall s: u16 | s != sn && w'.Has(s) ensures w.Has(s) && w'.At(s) == w.At(s) {
        InsertedElsewhere(w, sn, s);
      }
    }
  }

  /** Numbers other than the one written keep their counter, and their write. */
  lemma {:induction false} CounterKept(
    written: seq<Protocol.Write>, w: Protocol.Write, config: Config, s: u16, buf: bytes)
    requires config.Valid()
    ensures s != Wrap16(|written|) ==>
      (Keeps(config, written + [w], s, buf) <==> Keeps(config, written, s, buf))
    ensures s == Wrap16(|written|) ==> (Keeps(config, written + [w], s, buf) <==> buf == Retained(config, w))
  {
    hide Retained, Rem, Last;
    LastStep(|written|, 0x1_0000, s);
    RemWrap(|written|);
  }

  lemma {:induction false} WritePacketExact(n: Node, payload: bytes)
    requires GoodExact(n)
    ensures GoodExact(WritePacket(n, payload))
  {
    hide Core, Coupled, Buffered, Keeps, TransmitAll, Datagrams, NextHeader, Grows;
    WritePacketKeeps(n, payload);
    var r := WritePacket(n, payload);
    if n.ch.Some? && |payload| <= n.e.config.maxPacketSize {
      var w := Protocol.Write(NextHeader(n.e), payload);
      WriteHeld(n, payload);
      forall s: u16 | r.ch.value.window.Has(s)
        ensures Keeps(n.e.config, n.log.written + [w], s, r.ch.value.window.At(s).buf)
      {
        CounterKept(n.log.written, w, n.e.config, s, r.ch.value.window.At(s).buf);
      }
    }
    ConfigKept(n, payload);
  }

  lemma ConfigKept(n: Node, payload: bytes)
    requires n.Shape()
    ensures WritePacket(n, payload).e.config == n.e.config
  {
    hide Datagrams, NextHeader;
  }

  lemma {:induction false} WriteHeld(n: Node, payload: bytes)
    requires Good(n) && n.ch.Some? && |payload| <= n.e.config.maxPacketSize
    ensures var w, w' := n.ch.value.window, WritePacket(n, payload).ch.value.window;
      && w'.At(Wrap16(|n.log.written|)).buf == Retained(n.e.config, Protocol.Write(NextHeader(n.e), payload))
      && forall s: u16 :: s != Wrap16(|n.log.written|) && w'.Has(s) ==> w.Has(s) && w'.At(s) == w.At(s)
  {
    hide HeadersOk, RecvOk, TransmittedOk, AcksOk, Coupled, Buffered, Sequential, Rem, Datagrams, NextHeader,
      TransmitAll;
    DatagramsNonEmpty(n.e.config, NextHeader(n.e), payload);
    TransmitHolds(Assign(n, payload), n.e.sn, Datagrams(n.e.config, NextHeader(n.e), payload));
  }

  // ---------------------------------------------------------------- acknowledging

  /** A change of channel fields other than the window, or the removal of a number. */
  lemma {:induction false} ChannelChange(n: Node, m: Node)
    requires GoodExact(n) && Good(m) && n.ch.Some? && m.ch.Some? && m == n.(ch := m.ch)
    requires forall s: u16 :: m.ch.value.window.Has(s) ==>
      n.ch.value.window.Has(s) && m.ch.value.window.At(s).buf == n.ch.value.window.At(s).buf
    ensures GoodExact(m)
  {
    hide Good, Rem;
    SameWrites(n, m);
  }

  lemma {:induction false} FlushExact(n: Node, k: nat)
    requires GoodExact(n) && n.ch.Some?
    ensures GoodExact(Flush(n, k))
    decreases k
  {
    hide Core, Exact, WritePacket, Rem;
    var c := n.ch.value;
    if k > 0 && c.queue != [] {
      var m := n.(ch := Some(c.(queue := c.queue[1..])));
      ChannelOnly(n, m);
      ChannelChange(n, m);
      WritePacketExact(m, c.queue[0]);
      FlushExact(WritePacket(m, c.queue[0]), k - 1);
    }
  }

  lemma {:induction false} AdvanceExact(n: Node)
    requires GoodExact(n) && n.ch.Some?
    ensures GoodExact(Advance(n))
  {
    hide Core, Exact, Flush, Rem;
    var c := n.ch.value;
    var k := NextHeld(c.window, c.oldestUnacked, 1, n.e.config.recvPacketBufferSize);
    var m := n.(ch := Some(c.(oldestUnacked := Ahead(c.oldestUnacked, k), oldest := c.oldest + k)));
    ChannelOnly(n, m);
    ChannelChange(n, m);
    FlushExact(m, k);
  }

  lemma {:induction false} ChannelACKExact(n: Node, sn: u16)
    requires Core(n) && n.ch.Some? && n.ch.value.window.latest == n.e.sn && n.ch.value.window.Has(sn)
    requires n.e.sent.At(sn).acked && MirroredBut(n.ch.value.window, n.e.sent, n.e.sent.IndexOf(sn)) && Buffered(n)
    requires Exact(n)
    ensures GoodExact(ChannelACK(n, sn))
  {
    hide AcksOk, TransmittedOk, RecvOk, HeadersOk, SentOk, Buffered, Keeps, Advance, Rem;
    var c := n.ch.value;
    var m := n.(ch := Some(c.(window := c.window.Remove(sn))));
    ChannelOnly(n, m);
    SameWrites(n, m);
    assert Good(m);
    if sn == c.oldestUnacked {
      AdvanceExact(m);
    }
  }

  lemma {:induction false} AckOneExact(n: Node, sn: u16)
    requires GoodExact(n)
    ensures GoodExact(AckOne(n, sn))
  {
    hide Core, ChannelACK, Keeps, Rem;
    if n.e.sent.Has(sn) && !n.e.sent.At(sn).acked {
      AckOneKeeps(n, sn);
      MarkKeeps(n, sn);
      if n.ch.Some? {
        ChannelACKExact(MarkAcked(n, sn), sn);
      }
    }
  }

  lemma {:induction false} AckAllExact(n: Node, numbers: seq<u16>)
    requires GoodExact(n)
    ensures GoodExact(AckAll(n, numbers))
    decreases |numbers|
  {
    hide GoodExact, AckOne;
    if numbers != [] {
      AckOneExact(n, numbers[0]);
      AckAllExact(AckOne(n, numbers[0]), numbers[1..]);
    }
  }

  // ---------------------------------------------------------------- receiving

  lemma {:induction false} RecvCompactExact(n: Node, buf: bytes)
    requires GoodExact(n)
    ensures GoodExact(RecvCompact(n, buf).0)
  {
    hide Core, Coupled, Buffered, Keeps, Decode, ProcessACKs, AckAll, Visited, Rem;
    var d := Decode(buf);
    if d.ok && !n.e.recv.IsOutdated(d.header.sn) {
      var m := Record(n, d.header.sn, d.leftover);
      RecordKeeps(n, d.header.sn, d.leftover);
      LoopVisits(m, d.header.ack, d.header.acks, 0);
      AckAllExact(m, Visited(d.header.ack, d.header.acks, 0));
    }
  }

  lemma AssemblerExact(n: Node, m: Node)
    requires GoodExact(n) && m == n.(e := n.e.(assembler := m.e.assembler)) && m.Shape()
    ensures GoodExact(m)
  {
    hide Core, Coupled, Buffered, Keeps, Rem;
    AssemblerOnly(n, m);
  }

  lemma {:induction false} ReadPacketExact(n: Node, buf: bytes, pooled: bytes)
    requires GoodExact(n) && 0 < |buf|
    ensures GoodExact(ReadPacket(n, buf, pooled).0)
  {
    hide GoodExact, Decode, OpenFragment, RecvCompact, FileFragment, OpenEntry;
    if Toggled(buf[0], FLAG_FRAGMENT) {
      var (h, phb, data, outcome) := OpenFragment(buf, n.e.config.maxFragments);
      if outcome.Accepted? && !(!n.e.assembler.Has(h.sn) && n.e.assembler.IsOutdated(h.sn)) {
        AssemblerExact(n, OpenEntry(n, h, pooled));
        FileFragmentExact(OpenEntry(n, h, pooled), h, phb, data);
      }
    } else {
      RecvCompactExact(n, buf);
    }
  }

  lemma {:induction false} FileFragmentExact(m: Node, h: FragmentHeader, phb: bytes, data: bytes)
    requires GoodExact(m) && |phb| <= MAX_PACKET_HEADER_SIZE && h.id <= h.total
    ensures GoodExact(FileFragment(m, h, phb, data).0)
  {
    hide GoodExact, RecvCompact, StoreFragment, Deliver, Marked;
    var f := m.e.assembler.At(h.sn);
    EntryShape(m.e.assembler, m.e.config.fragmentSize, h.sn);
    if h.total + 1 == f.total && !Marked(f.marked, h.id) {
      AssemblerExact(m, StoreFragment(m, h, phb, data));
      DeliverExact(StoreFragment(m, h, phb, data), h.sn);
    }
  }

  lemma {:induction false} DeliverExact(n: Node, sn: u16)
    requires GoodExact(n)
    ensures GoodExact(Deliver(n, sn).0)
  {
    hide GoodExact, RecvCompact, Assembled;
    var g := n.e.assembler.At(sn);
    EntryShape(n.e.assembler, n.e.config.fragmentSize, sn);
    if g.recv == g.total && Fits(g) {
      var m := RecvCompact(n, Assembled(g)).0;
      RecvCompactExact(n, Assembled(g));
      AssemblerExact(m, m.(e := m.e.(assembler := m.e.assembler.Remove(sn))));
    }
  }

  // ---------------------------------------------------------------- local operations and runs

  lemma {:induction false} PerformExact(n: Node, op: Op)
    requires GoodExact(n) && Enabled(n, op)
    ensures GoodExact(Perform(n, op))
  {
    hide Core, Exact, WritePacket, EmitUpTo, Rem;
    match op
    case Write(payload) => WritePacketExact(n, payload);
    case Tick(time) =>
      TimeOnly(n, time);
      TickExact(n, time);
    case Queue(payload) =>
      var c' := n.ch.value.(taken := n.ch.value.taken + [payload]);
      QueueExact(n, c');
      QueueExact(n, c'.(queue := c'.queue + [payload]));
      WritePacketExact(n.(ch := Some(c')), payload);
    case Resend(time) => ResendExact(n, time);
    case Idle(time) =>
      var c' := n.ch.value.(keepalives := n.ch.value.keepalives + {|n.log.written|});
      QueueExact(n, c');
      WritePacketExact(n.(ch := Some(c')), []);
  }

  lemma TickExact(n: Node, time: real)
    requires n.Shape() && Exact(n)
    ensures Exact(Protocol.Tick(n, time))
  {
    hide Keeps, Rem;
  }

  lemma {:induction false} QueueExact(n: Node, c: ChannelState)
    requires GoodExact(n) && n.ch.Some? && c.window == n.ch.value.window && c.out == n.ch.value.out
    ensures GoodExact(n.(ch := Some(c)))
  {
    hide Core, Exact, Rem;
    ChannelOnly(n, n.(ch := Some(c)));
    ChannelChange(n, n.(ch := Some(c)));
  }

  lemma {:induction false} ResendExact(n: Node, time: real)
    requires GoodExact(n) && n.ch.Some?
    ensures GoodExact(Retransmit(n, time))
  {
    hide Good, Exact, EmitUpTo, Rem;
    RetransmitKeeps(n, time);
    EmitKeepsSlots(n.ch.value, time, n.e.config.recvPacketBufferSize + 1);
    ChannelChange(n, Retransmit(n, time));
  }

  /** In every state of every run, whatever arrives: what a window holds under a number is the
      datagram transmitted last for the payload most recently given that number. */
  lemma {:induction false} WindowBytesExact(
    config: Config, channel: bool, states: seq<Node>, events: seq<Event>, i: nat)
    requires IsNodeRun(config, channel, states, events) && i < |states|
    ensures GoodExact(states[i])
  {
    hide GoodExact, Exact, React, Possible;
    if i == 0 {
      StartExact(config, channel);
    } else {
      WindowBytesExact(config, channel, states, events, i - 1);
      ReactExact(states[i - 1], events[i - 1]);
    }
  }

  lemma StartExact(config: Config, channel: bool)
    requires config.Valid()
    ensures GoodExact(NewNode(config, channel))
  {
    hide Good, Keeps;
    NewNodeGood(config, channel);
  }

  lemma {:induction false} ReactExact(n: Node, event: Event)
    requires GoodExact(n) && Possible(n, event)
    ensures GoodExact(React(n, event))
  {
    hide GoodExact, ReadPacket, Perform, Enabled;
    match event
    case Receive(buf, pooled) => ReadPacketExact(n, buf, pooled);
    case Local(op) => PerformExact(n, op);
  }

  /** The window keeps all that was transmitted for a payload exactly when that was one datagram; of
      a payload that took several fragments all but the last are gone. */
  lemma {:induction false} RetainedIsAllIff(config: Config, w: Protocol.Write)
    requires config.Valid()
    ensures DatagramsOf(config, w) == [Retained(config, w)] <==>
      |w.payload| <= config.fragmentAbove || |w.payload| <= config.fragmentSize
    ensures |w.payload| <= config.fragmentAbove ==> Retained(config, w) == Encode(w.header) + w.payload
  {
    hide Encode, FragmentDatagram;
    DatagramsNonEmpty(config, w.header, w.payload);
    if |w.payload| > config.fragmentAbove {
      NumFragmentsBounds(|w.payload|, config.fragmentSize);
    }
  }
}
