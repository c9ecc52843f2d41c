/** Oldest moves on only past packets that were acknowledged; so one that never is blocks the channel. */
module HeadOfLine {
  import opened Words
  import opened Rings
  import opened Headers
  import opened Reassembly
  import opened Protocol
  import opened History
  import opened Acknowledge
  import opened Network
  import opened Sliding
  import opened Updates
  import opened UpdateRuns

  /** History only grows, and oldest moves on only once its own packet was acknowledged, and past packets that
      were, as far as they had been written. */
  ghost predicate Passes(n: Node, r: Node)
    requires n.ch.Some?
  {
    && r.ch.Some? && n.log.acked <= r.log.acked && n.log.written <= r.log.written
    && n.ch.value.oldest <= r.ch.value.oldest
    && (r.ch.value.oldest == n.ch.value.oldest || n.ch.value.oldest in AckedSet(r.log.acked))
    && forall k: nat :: n.ch.value.oldest <= k < r.ch.value.oldest && k < |n.log.written| ==> k in AckedSet(r.log.acked)
  }

  /** ... and no payload is taken from the write queue. */
  ghost predicate Waits(n: Node, r: Node)
    requires n.ch.Some?
  {
    Passes(n, r) && r.ch.value.taken == n.ch.value.taken
  }

  lemma {:induction false} AckedMore(acked: seq<Ack>, more: seq<Ack>)
    requires acked <= more
    ensures AckedSet(acked) <= AckedSet(more)
  {
    hide AckCounter;
    if acked != more {
      AckedMore(acked, more[..|more| - 1]);
    }
  }

  lemma WaitsOn(a: Node, b: Node, c: Node)
    requires a.ch.Some? && Waits(a, b) && Waits(b, c)
    ensures Waits(a, c)
  {
    hide Passes;
    PassesOn(a, b, c);
  }

  lemma PassesOn(a: Node, b: Node, c: Node)
    requires a.ch.Some? && Passes(a, b) && Passes(b, c)
    ensures Passes(a, c)
  {
    hide AckedSet;
    AckedMore(b.log.acked, c.log.acked);
  }

  lemma WaitsStill(n: Node, r: Node)
    requires n.ch.Some? && r.ch.Some? && r.log.acked == n.log.acked && r.ch.value.oldest == n.ch.value.oldest
    requires n.log.written <= r.log.written && r.ch.value.taken == n.ch.value.taken
    ensures Waits(n, r)
  {
    hide AckedSet;
  }

  lemma {:induction false} AckOneWaits(n: Node, sn: u16)
    requires Sound(n)
    ensures Waits(n, AckOne(n, sn))
  {
    hide Good, Windowed, ChannelACK, Waits, Grows, MirroredBut, Core, Buffered;
    if n.e.sent.Has(sn) && !n.e.sent.At(sn).acked {
      MarkKeeps(n, sn);
      if n.ch.value.window.Has(sn) {
        RemovedWaits(n, sn);
      }
    } else {
      WaitsStill(n, n);
    }
  }

  /** The ACK call for a packet just marked acknowledged. */
  lemma {:induction false} RemovedWaits(n: Node, sn: u16)
    requires Sound(n) && n.e.sent.Has(sn) && !n.e.sent.At(sn).acked && n.ch.value.window.Has(sn)
    ensures Waits(n, ChannelACK(MarkAcked(n, sn), sn))
  {
    hide Good, Core, Buffered, MirroredBut, Accounted, Advance, Waits, Grows, Rem, AckedSet;
    var a := MarkAcked(n, sn);
    var c := a.ch.value;
    var m := a.(ch := Some(c.(window := c.window.Remove(sn))));
    MarkKeeps(n, sn);
    RemovedGood(a, sn);
    MarkedGrows(n, sn);
    if sn == c.oldestUnacked {
      OldestHeld(n);
      AdvanceWaits(n, m);
    } else {
      WaitsGrow(n, m);
    }
  }

  lemma MarkedGrows(n: Node, sn: u16)
    requires n.Shape() && n.ch.Some?
    ensures var a := MarkAcked(n, sn);
      && n.log.acked <= a.log.acked && a.log.written == n.log.written && a.ch == n.ch && a.e.config == n.e.config
  {
  }

  lemma WaitsGrow(n: Node, r: Node)
    requires n.ch.Some? && r.ch.Some? && n.log.acked <= r.log.acked && n.log.written <= r.log.written
    requires r.ch.value.oldest == n.ch.value.oldest && r.ch.value.taken == n.ch.value.taken
    ensures Waits(n, r)
  {
    hide AckedSet;
  }

  /** Oldest moves on over numbers no longer held, the first of them its own. */
  lemma {:induction false} AdvanceWaits(n: Node, m: Node)
    requires Sound(n) && Good(m) && m.ch.Some? && m.e.config == n.e.config
    requires n.log.acked <= m.log.acked && m.log.written == n.log.written
    requires m.ch.value.taken == n.ch.value.taken
    requires m.ch.value.oldest == n.ch.value.oldest && m.ch.value.oldestUnacked == n.ch.value.oldestUnacked
    requires !m.ch.value.window.Has(m.ch.value.oldestUnacked) && n.ch.value.oldest < |n.log.written|
    ensures Waits(n, Advance(m))
  {
    hide Good, Advance, AckedSet, Accounted, Rem;
    var c := m.ch.value;
    var k := AdvanceMoves(m);
    AdvanceKeeps(m);
    AckedMore(m.log.acked, Advance(m).log.acked);
    forall x: nat | c.oldest <= x < c.oldest + k && x < |n.log.written|
      ensures x in AckedSet(Advance(m).log.acked)
    {
      WrapSum(c.oldest, x - c.oldest);
      assert !c.window.Has(Ahead(c.oldestUnacked, x - c.oldest));
      NothingUnackedLost(m, x);
    }
    assert c.oldest in AckedSet(Advance(m).log.acked);
  }

  /** When the oldest packet is acknowledged, oldest moves to the first number held among the R - 1 after it,
      or R on when none is; and as many payloads of the backlog are written, in order. */
  lemma {:induction false} AdvanceMoves(n: Node) returns (k: nat)
    requires Good(n) && n.ch.Some?
    ensures var c, r, limit := n.ch.value, Advance(n), n.e.config.recvPacketBufferSize;
      && 1 <= k <= limit && r.ch.value.oldest == c.oldest + k && r.ch.value.oldestUnacked == Ahead(c.oldestUnacked, k)
      && (k < limit ==> c.window.Has(Ahead(c.oldestUnacked, k)))
      && (forall j :: 1 <= j < k ==> !c.window.Has(Ahead(c.oldestUnacked, j)))
      && r.ch.value.queue == c.queue[Least(k, |c.queue|)..]
      && r.ch.value == c.(window := r.ch.value.window, queue := r.ch.value.queue,
                          oldest := r.ch.value.oldest, oldestUnacked := r.ch.value.oldestUnacked)
      && ((forall p :: p in c.queue ==> |p| <= n.e.config.maxPacketSize) ==>
            Payloads(r.log.written) == Payloads(n.log.written) + c.queue[..Least(k, |c.queue|)])
  {
    hide Good, Rem, Flush, Ahead, Payloads;
    var c := n.ch.value;
    k := NextHeld(c.window, c.oldestUnacked, 1, n.e.config.recvPacketBufferSize);
    NextHeldIs(c.window, c.oldestUnacked, 1, n.e.config.recvPacketBufferSize);
    var m := n.(ch := Some(c.(oldestUnacked := Ahead(c.oldestUnacked, k), oldest := c.oldest + k)));
    OldestMoves(n, k);
    FlushTakes(m, k);
    if forall p :: p in c.queue ==> |p| <= n.e.config.maxPacketSize {
      FlushWrites(m, k);
    }
  }

  /** Flushing takes payloads from the front of the backlog and moves nothing else of the channel. */
  lemma {:induction false} FlushTakes(n: Node, k: nat)
    requires Good(n) && n.ch.Some?
    ensures var r, c := Flush(n, k), n.ch.value;
      r.ch.value == c.(window := r.ch.value.window, queue := c.queue[Least(k, |c.queue|)..])
    decreases k
  {
    hide Good, WritePacket, Rem, NextHeader, Grows;
    var c := n.ch.value;
    if k > 0 && c.queue != [] {
      var m := n.(ch := Some(c.(queue := c.queue[1..])));
      DropQueue(n, c.queue[1..]);
      WritePacketKeeps(m, c.queue[0]);
      FlushTakes(WritePacket(m, c.queue[0]), k - 1);
    }
  }

  /** What it takes is written, each payload once and in order. */
  lemma {:induction false} FlushWrites(n: Node, k: nat)
    requires Good(n) && n.ch.Some? && forall p :: p in n.ch.value.queue ==> |p| <= n.e.config.maxPacketSize
    ensures Payloads(Flush(n, k).log.written) ==
      Payloads(n.log.written) + n.ch.value.queue[..Least(k, |n.ch.value.queue|)]
    decreases k
  {
    hide Good, WritePacket, Payloads, Node.Shape;
    var c := n.ch.value;
    if k > 0 && c.queue != [] {
      var m, rest := n.(ch := Some(c.(queue := c.queue[1..]))), c.queue[1..];
      DropQueue(n, rest);
      WritesOne(m, c.queue[0]);
      FlushWrites(WritePacket(m, c.queue[0]), k - 1);
      assert [c.queue[0]] + rest[..Least(k - 1, |rest|)] == c.queue[..Least(k, |c.queue|)];
    }
  }

  lemma WritesOne(n: Node, payload: bytes)
    requires Good(n) && n.ch.Some? && |payload| <= n.e.config.maxPacketSize
    ensures var r := WritePacket(n, payload);
      && Good(r) && r.ch.Some? && r.ch.value.queue == n.ch.value.queue && r.e.config == n.e.config
      && Payloads(r.log.written) == Payloads(n.log.written) + [payload]
  {
    hide Good, WritePacket, NextHeader, Payloads;
    WritePacketKeeps(n, payload);
    PayloadsMore(n.log.written, Protocol.Write(NextHeader(n.e), payload));
  }

  function Payloads(written: seq<Protocol.Write>): seq<bytes> {
    seq(|written|, i requires 0 <= i < |written| => written[i].payload)
  }

  lemma PayloadsMore(written: seq<Protocol.Write>, w: Protocol.Write)
    ensures Payloads(written + [w]) == Payloads(written) + [w.payload]
  {
  }

  lemma LastAcked(acked: seq<Ack>)
    requires acked != []
    ensures AckCounter(acked[|acked| - 1]) in AckedSet(acked)
  {
    hide AckCounter;
  }

  lemma {:induction false} AckAllWaits(n: Node, numbers: seq<u16>)
    requires Sound(n)
    ensures Waits(n, AckAll(n, numbers))
    decreases |numbers|
  {
    hide Sound, AckOne, Waits;
    if numbers == [] {
      WaitsStill(n, n);
    } else {
      AckOneWaits(n, numbers[0]);
      AckOneSound(n, numbers[0]);
      AckAllWaits(AckOne(n, numbers[0]), numbers[1..]);
      WaitsOn(n, AckOne(n, numbers[0]), AckAll(n, numbers));
    }
  }

  lemma {:induction false} RecvCompactWaits(n: Node, buf: bytes)
    requires Sound(n)
    ensures Waits(n, RecvCompact(n, buf).0)
  {
    hide Core, Coupled, Buffered, Windowed, Decode, ProcessACKs, AckAll, Visited, Waits, Rem;
    WaitsStill(n, n);
    var d := Decode(buf);
    if d.ok && !n.e.recv.IsOutdated(d.header.sn) {
      var m := Record(n, d.header.sn, d.leftover);
      RecordKeeps(n, d.header.sn, d.leftover);
      LoopVisits(m, d.header.ack, d.header.acks, 0);
      AckAllWaits(m, Visited(d.header.ack, d.header.acks, 0));
      WaitsStill(n, m);
      WaitsOn(n, m, RecvCompact(n, buf).0);
    }
  }

  lemma {:induction false} DeliverWaits(n: Node, sn: u16)
    requires Sound(n)
    ensures Waits(n, Deliver(n, sn).0)
  {
    hide Sound, RecvCompact, Assembled, Waits;
    WaitsStill(n, n);
    var g := n.e.assembler.At(sn);
    EntryShape(n.e.assembler, n.e.config.fragmentSize, sn);
    if g.recv == g.total && Fits(g) {
      var m := RecvCompact(n, Assembled(g)).0;
      RecvCompactWaits(n, Assembled(g));
      WaitsStill(m, Deliver(n, sn).0);
      WaitsOn(n, m, Deliver(n, sn).0);
    }
  }

  lemma {:induction false} FileFragmentWaits(n: Node, h: FragmentHeader, phb: bytes, data: bytes)
    requires Sound(n) && |phb| <= MAX_PACKET_HEADER_SIZE && h.id <= h.total
    ensures Waits(n, FileFragment(n, h, phb, data).0)
  {
    hide Sound, RecvCompact, StoreFragment, Deliver, Marked, Waits;
    WaitsStill(n, n);
    var f := n.e.assembler.At(h.sn);
    EntryShape(n.e.assembler, n.e.config.fragmentSize, h.sn);
    if h.total + 1 == f.total && !Marked(f.marked, h.id) {
      var p := StoreFragment(n, h, phb, data);
      AssemblerSound(n, p);
      WaitsStill(n, p);
      DeliverWaits(p, h.sn);
      WaitsOn(n, p, Deliver(p, h.sn).0);
    }
  }

  lemma {:induction false} ReadPacketWaits(n: Node, buf: bytes, pooled: bytes)
    requires Sound(n) && 0 < |buf|
    ensures Waits(n, ReadPacket(n, buf, pooled).0)
  {
    hide Sound, Decode, OpenFragment, RecvCompact, FileFragment, OpenEntry, Waits;
    WaitsStill(n, n);
    if Toggled(buf[0], FLAG_FRAGMENT) {
      var (h, phb, data, outcome) := OpenFragment(buf, n.e.config.maxFragments);
      if outcome.Accepted? && !(!n.e.assembler.Has(h.sn) && n.e.assembler.IsOutdated(h.sn)) {
        var m := OpenEntry(n, h, pooled);
        AssemblerSound(n, m);
        WaitsStill(n, m);
        FileFragmentWaits(m, h, phb, data);
        WaitsOn(n, m, FileFragment(m, h, phb, data).0);
      }
    } else {
      RecvCompactWaits(n, buf);
    }
  }

  lemma {:induction false} ReadAllWaits(n: Node, incoming: seq<bytes>, pooled: seq<bytes>)
    requires Sound(n) && |pooled| == |incoming| && forall b :: b in incoming ==> 0 < |b|
    ensures Waits(n, ReadAll(n, incoming, pooled).0)
  {
    hide Sound, ReadPacket, Waits;
    if incoming == [] {
      WaitsStill(n, n);
    } else {
      var before, others := incoming[..|incoming| - 1], pooled[..|incoming| - 1];
      ReadAllWaits(n, before, others);
      ReadAllSound(n, before, others);
      var (m, _, ok) := ReadAll(n, before, others);
      if ok {
        ReadPacketWaits(m, incoming[|incoming| - 1], pooled[|incoming| - 1]);
        WaitsOn(n, m, ReadAll(n, incoming, pooled).0);
      }
    }
  }

  lemma {:induction false} SubmitAllPasses(n: Node, outgoing: seq<bytes>)
    requires GoodChannel(n)
    ensures GoodChannel(SubmitAll(n, outgoing)) && Passes(n, SubmitAll(n, outgoing))
    ensures SubmitAll(n, outgoing).ch.value.taken == n.ch.value.taken + outgoing
  {
    hide GoodChannel, Submit, Passes;
    ChannelOf(n);
    if outgoing == [] {
      WaitsStill(n, n);
      WaitsIs(n, n);
    } else {
      var m := SubmitAll(n, outgoing[..|outgoing| - 1]);
      SubmitAllPasses(n, outgoing[..|outgoing| - 1]);
      SubmitPasses(m, outgoing[|outgoing| - 1]);
      PassesOn(n, m, SubmitAll(n, outgoing));
    }
  }

  ghost predicate GoodChannel(n: Node)
    ensures GoodChannel(n) ==> n.Shape() && n.ch.Some?
  {
    Good(n) && n.ch.Some?
  }

  lemma ChannelOf(n: Node)
    requires GoodChannel(n)
    ensures Good(n) && n.ch.Some?
  {
    hide Good;
  }

  lemma {:induction false} SubmitPasses(n: Node, payload: bytes)
    requires GoodChannel(n)
    ensures GoodChannel(Submit(n, payload)) && Passes(n, Submit(n, payload))
    ensures Submit(n, payload).ch.value.taken == n.ch.value.taken + [payload]
  {
    hide Good, WritePacket, AckedSet;
    TakenOnly(n, payload);
    var m := n.(ch := Some(n.ch.value.(taken := n.ch.value.taken + [payload])));
    WritePacketKeeps(m, payload);
  }

  lemma {:induction false} KeepaliveWaits(n: Node, time: real)
    requires GoodChannel(n)
    ensures Waits(n, Keepalive(n, time))
  {
    hide Good, WritePacket, AckedSet;
    KeepaliveCounted(n);
    WritePacketKeeps(n.(ch := Some(n.ch.value.(keepalives := n.ch.value.keepalives + {|n.log.written|}))), []);
  }

  lemma SoundChannel(n: Node)
    requires Sound(n)
    ensures GoodChannel(n)
  {
    hide Good, Windowed;
  }

  lemma {:induction false} AnswerPasses(n: Node, call: Call)
    requires Sound(n) && Legal(n.e.config, call)
    ensures Passes(n, Answer(n, call).0)
    ensures Answer(n, call).0.ch.value.taken == n.ch.value.taken + if Answer(n, call).2 then call.outgoing else []
  {
    hide Sound, Waits, Passes, GoodChannel, Answer, ReadAll, SubmitAll, Retransmit, Keepalive;
    var a, b := AfterReading(n, call).0, BeforeSending(n, call);
    AnswerIs(n, call);
    ReadingWaits(n, call);
    WaitsIs(n, a);
    if Answer(n, call).2 {
      BeforeSendingSound(n, call);
      SoundChannel(a);
      SubmitAllPasses(a, call.outgoing);
      PassesOn(n, a, b);
      SendingWaits(b, call.time);
      WaitsIs(b, Answer(n, call).0);
      PassesOn(n, b, Answer(n, call).0);
    }
  }

  lemma WaitsIs(n: Node, r: Node)
    requires n.ch.Some? && Waits(n, r)
    ensures Passes(n, r) && r.ch.Some? && r.ch.value.taken == n.ch.value.taken
  {
  }

  lemma {:induction false} ReadingWaits(n: Node, call: Call)
    requires Sound(n) && Legal(n.e.config, call)
    ensures Waits(n, AfterReading(n, call).0)
  {
    hide Sound, Waits, ReadAll;
    var m := Protocol.Tick(n, call.time);
    TickSound(n, call.time);
    WaitsStill(n, m);
    ReadAllWaits(m, call.incoming, call.pooled);
    WaitsOn(n, m, AfterReading(n, call).0);
  }

  lemma {:induction false} SendingWaits(n: Node, time: real)
    requires Sound(n)
    ensures Waits(n, Keepalive(Retransmit(n, time), time))
  {
    hide Sound, Waits, GoodChannel, Retransmit, Keepalive;
    var s := Retransmit(n, time);
    RetransmitBeside(n, time);
    RetransmitSound(n, time);
    WaitsStill(n, s);
    SoundChannel(s);
    KeepaliveWaits(s, time);
    WaitsOn(n, s, Keepalive(s, time));
  }

  lemma TickSound(n: Node, time: real)
    requires Sound(n)
    ensures Sound(Protocol.Tick(n, time))
  {
    hide Good, Windowed;
    TimeOnly(n, time);
  }

  lemma {:induction false} RunPasses(config: Config, states: seq<Node>, calls: seq<Call>, i: nat, j: nat)
    requires IsUpdateRun(config, states, calls) && i <= j < |states|
    ensures Passes(states[i], states[j])
  {
    hide Sound, Passes, Answer, Legal, ClockForward;
    if i == j {
      WaitsStill(states[i], states[j]);
      WaitsIs(states[i], states[j]);
    } else {
      RunPasses(config, states, calls, i, j - 1);
      RunSound(config, states, calls, j - 1);
      AnswerPasses(states[j - 1], calls[j - 1]);
      PassesOn(states[i], states[j - 1], states[j]);
    }
  }

  /** The payloads handed to those of the first i calls that accepted what they read. */
  function HandedOver(config: Config, states: seq<Node>, calls: seq<Call>, i: nat): seq<bytes>
    requires IsCalled(config, states, calls) && i < |states|
  {
    if i == 0 then []
    else
      var call := calls[i - 1];
      HandedOver(config, states, calls, i - 1) + if Answer(states[i - 1], call).2 then call.outgoing else []
  }

  /** Nothing handed over is lost, repeated or put out of order: what has been written, keepalives aside,
      followed by the backlog, is all that was handed to accepted calls. A call that stops at a refused packet
      takes nothing. */
  lemma {:induction false} NothingHandedOverIsLost(config: Config, states: seq<Node>, calls: seq<Call>, i: nat)
    requires IsUpdateRun(config, states, calls) && i < |states|
    ensures AppWrites(states[i].log.written, states[i].ch.value.keepalives) + states[i].ch.value.queue ==
      HandedOver(config, states, calls, i)
  {
    hide Answer, Legal, ClockForward, AppWrites, AckedSet;
    SlidingWindowSafe(config, states, calls, i);
    TakenIs(config, states, calls, i);
  }

  lemma {:induction false} TakenIs(config: Config, states: seq<Node>, calls: seq<Call>, i: nat)
    requires IsUpdateRun(config, states, calls) && i < |states|
    ensures states[i].ch.value.taken == HandedOver(config, states, calls, i)
  {
    hide Sound, Passes, Answer, Legal, ClockForward;
    if i > 0 {
      TakenIs(config, states, calls, i - 1);
      RunSound(config, states, calls, i - 1);
      AnswerPasses(states[i - 1], calls[i - 1]);
    }
  }

  /** Oldest never moves past a written packet whose acknowledgement has not come: between any two states,
      every packet written by the first and passed over since has been acknowledged. What lies below oldest
      without an acknowledgement was written after oldest had passed its number. */
  lemma {:induction false} PassesOnlyAcked(
    config: Config, states: seq<Node>, calls: seq<Call>, i: nat, j: nat, k: nat)
    requires IsUpdateRun(config, states, calls) && i <= j < |states|
    requires states[i].ch.value.oldest <= k < states[j].ch.value.oldest && k < |states[i].log.written|
    ensures k in AckedSet(states[j].log.acked)
  {
    hide Answer, Legal, ClockForward, AckedSet;
    RunPasses(config, states, calls, i, j);
  }

  /** As long as the packet at the head is not acknowledged, oldest stays at it and at most R payloads,
      it included, are ever written: everything taken after those stays in the backlog. */
  lemma {:induction false} HeadBlocks(config: Config, states: seq<Node>, calls: seq<Call>, i: nat, j: nat)
    requires IsUpdateRun(config, states, calls) && i <= j < |states|
    requires states[i].ch.value.oldest !in AckedSet(states[j].log.acked)
    ensures states[j].ch.value.oldest == states[i].ch.value.oldest
    ensures |states[j].log.written| <= states[i].ch.value.oldest + config.recvPacketBufferSize
    ensures AppWrites(states[j].log.written, states[j].ch.value.keepalives) + states[j].ch.value.queue
      == states[j].ch.value.taken
  {
    hide Good, Answer, Legal, ClockForward, AckedSet, AppWrites;
    RunPasses(config, states, calls, i, j);
    SlidingWindowSafe(config, states, calls, j);
  }
}
