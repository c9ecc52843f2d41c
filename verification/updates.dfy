/** Runs of Channel.Update under a clock that does not go back: the send window is safe without any
    care on the caller's part, the head of the window is always on its way, and a packet that the
    fallback of ACK has passed over is never sent. */
module Updates {
  import opened Words
  import opened Headers
  import opened Reassembly
  import opened Protocol
  import opened History
  import opened Network
  import opened Sliding
  import opened Retransmission

  // ---------------------------------------------------------------- what all but the send loop keep

  /** Channel d follows c with nothing sent in between: whatever it holds as sent, c held just so. */
  ghost predicate NothingSent(c: ChannelState, d: ChannelState)
    requires c.window.WellFormed() && d.window.WellFormed()
  {
    && d.lastSent == c.lastSent && d.out == c.out && c.oldest <= d.oldest
    && forall s: u16 :: d.window.Has(s) && d.window.At(s).written ==>
         c.window.Has(s) && d.window.At(s) == c.window.At(s)
  }

  ghost predicate Follows(n: Node, r: Node)
    requires n.Shape() && n.ch.Some?
    ensures Follows(n, r) ==> r.Shape() && r.ch.Some?
  {
    && r.Shape() && r.ch.Some? && r.e.config == n.e.config && n.log.written <= r.log.written
    && NothingSent(n.ch.value, r.ch.value)
  }

  lemma FollowsOn(a: Node, b: Node, c: Node)
    requires a.Shape() && a.ch.Some? && Follows(a, b) && Follows(b, c)
    ensures Follows(a, c)
  {
    hide Rem, Node.Shape;
  }

  lemma FollowsSelf(n: Node)
    requires n.Shape() && n.ch.Some?
    ensures Follows(n, n)
  {
    hide Rem, Node.Shape;
  }

  /** Channel and log are the same, or differ in what Follows does not look at. */
  lemma FollowsBeside(n: Node, r: Node)
    requires n.Shape() && n.ch.Some? && r.Shape() && r.ch.Some? && r.e.config == n.e.config
    requires n.log.written <= r.log.written
    requires r.ch.value.window == n.ch.value.window && r.ch.value.lastSent == n.ch.value.lastSent
    requires r.ch.value.out == n.ch.value.out
    requires r.ch.value.oldest >= n.ch.value.oldest
    ensures Follows(n, r)
  {
    hide Rem, Node.Shape;
  }

  lemma TransmitFollows(n: Node, sn: u16, buf: bytes)
    requires n.Shape() && n.ch.Some?
    ensures Follows(n, Transmit(n, sn, buf))
  {
    hide Rem;
    var c, d := n.ch.value, Transmit(n, sn, buf).ch.value;
    forall s: u16 | d.window.Has(s) && d.window.At(s).written
      ensures c.window.Has(s) && d.window.At(s) == c.window.At(s)
    {
      if s != sn {
        InsertedElsewhere(c.window, sn, s);
      }
    }
  }

  lemma {:induction false} TransmitAllFollows(n: Node, sn: u16, datagrams: seq<bytes>)
    requires n.Shape() && n.ch.Some?
    ensures Follows(n, TransmitAll(n, sn, datagrams))
  {
    hide Transmit, Follows;
    if datagrams == [] {
      FollowsSelf(n);
    } else {
      var before := TransmitAll(n, sn, datagrams[..|datagrams| - 1]);
      TransmitAllFollows(n, sn, datagrams[..|datagrams| - 1]);
      TransmitFollows(before, sn, datagrams[|datagrams| - 1]);
      FollowsOn(n, before, TransmitAll(n, sn, datagrams));
    }
  }

  lemma AssignFollows(n: Node, payload: bytes)
    requires n.Shape() && n.ch.Some?
    ensures Follows(n, Assign(n, payload))
  {
    hide Rem, NextHeader, Node.Shape;
    FollowsBeside(n, Assign(n, payload));
  }

  lemma {:induction false} WriteFollows(n: Node, payload: bytes)
    requires n.Shape() && n.ch.Some?
    ensures Follows(n, WritePacket(n, payload))
  {
    hide Follows, Assign, TransmitAll, Datagrams, NextHeader;
    if |payload| > n.e.config.maxPacketSize {
      FollowsSelf(n);
    } else {
      AssignFollows(n, payload);
      var a, datagrams := Assign(n, payload), Datagrams(n.e.config, NextHeader(n.e), payload);
      TransmitAllFollows(a, n.e.sn, datagrams);
      FollowsOn(n, a, WritePacket(n, payload));
    }
  }

  lemma {:induction false} FlushFollows(n: Node, k: nat)
    requires n.Shape() && n.ch.Some?
    ensures Follows(n, Flush(n, k))
    decreases k
  {
    hide Follows, WritePacket;
    var c := n.ch.value;
    if k == 0 || c.queue == [] {
      FollowsSelf(n);
    } else {
      var m := n.(ch := Some(c.(queue := c.queue[1..])));
      FollowsBeside(n, m);
      WriteFollows(m, c.queue[0]);
      FlushFollows(WritePacket(m, c.queue[0]), k - 1);
      FollowsOn(n, m, WritePacket(m, c.queue[0]));
      FollowsOn(n, WritePacket(m, c.queue[0]), Flush(n, k));
    }
  }

  lemma {:induction false} AdvanceFollows(n: Node)
    requires n.Shape() && n.ch.Some?
    ensures Follows(n, Advance(n))
  {
    hide Follows, Flush;
    var c := n.ch.value;
    var k := NextHeld(c.window, c.oldestUnacked, 1, n.e.config.recvPacketBufferSize);
    var m := n.(ch := Some(c.(oldestUnacked := Ahead(c.oldestUnacked, k), oldest := c.oldest + k)));
    FollowsBeside(n, m);
    FlushFollows(m, k);
    FollowsOn(n, m, Advance(n));
  }

  lemma RemoveFollows(n: Node, sn: u16)
    requires n.Shape() && n.ch.Some?
    ensures Follows(n, n.(ch := Some(n.ch.value.(window := n.ch.value.window.Remove(sn)))))
  {
    hide Rem;
  }

  lemma {:induction false} ChannelACKFollows(n: Node, sn: u16)
    requires n.Shape() && n.ch.Some?
    ensures Follows(n, ChannelACK(n, sn))
  {
    hide Follows, Advance;
    FollowsSelf(n);
    if n.ch.value.window.Has(sn) {
      var m := n.(ch := Some(n.ch.value.(window := n.ch.value.window.Remove(sn))));
      RemoveFollows(n, sn);
      if sn == n.ch.value.oldestUnacked {
        AdvanceFollows(m);
        FollowsOn(n, m, Advance(m));
      }
    }
  }

  lemma {:induction false} AckOneFollows(n: Node, sn: u16)
    requires n.Shape() && n.ch.Some?
    ensures Follows(n, AckOne(n, sn))
  {
    hide Follows, ChannelACK;
    FollowsSelf(n);
    if n.e.sent.Has(sn) && !n.e.sent.At(sn).acked {
      FollowsBeside(n, MarkAcked(n, sn));
      ChannelACKFollows(MarkAcked(n, sn), sn);
      FollowsOn(n, MarkAcked(n, sn), AckOne(n, sn));
    }
  }

  lemma {:induction false} ProcessFollows(n: Node, ack: u16, bitset: u32, i: nat)
    requires n.Shape() && n.ch.Some? && i <= 32
    ensures Follows(n, ProcessACKs(n, ack, bitset, i))
    decreases 32 - i
  {
    hide Follows, AckOne, Node.Shape;
    FollowsSelf(n);
    if i < 32 {
      var m := if bitset % 2 == 0 then n else AckOne(n, Back(ack, i));
      AckOneFollows(n, Back(ack, i));
      ProcessFollows(m, ack, bitset / 2, i + 1);
      FollowsOn(n, m, ProcessACKs(n, ack, bitset, i));
    }
  }

  lemma {:induction false} RecvCompactFollows(n: Node, buf: bytes)
    requires n.Shape() && n.ch.Some?
    ensures Follows(n, RecvCompact(n, buf).0)
  {
    hide Follows, ProcessACKs, Decode, Rem;
    FollowsSelf(n);
    var d := Decode(buf);
    if d.ok && !n.e.recv.IsOutdated(d.header.sn) {
      var m := Record(n, d.header.sn, d.leftover);
      FollowsBeside(n, m);
      ProcessFollows(m, d.header.ack, d.header.acks, 0);
      FollowsOn(n, m, RecvCompact(n, buf).0);
    }
  }

  lemma {:induction false} DeliverFollows(n: Node, sn: u16)
    requires n.Shape() && n.ch.Some?
    ensures Follows(n, Deliver(n, sn).0)
  {
    hide Follows, RecvCompact, Assembled;
    FollowsSelf(n);
    var g := n.e.assembler.At(sn);
    EntryShape(n.e.assembler, n.e.config.fragmentSize, sn);
    if g.recv == g.total && Fits(g) {
      var m := RecvCompact(n, Assembled(g)).0;
      RecvCompactFollows(n, Assembled(g));
      FollowsBeside(m, Deliver(n, sn).0);
      FollowsOn(n, m, Deliver(n, sn).0);
    }
  }

  lemma {:induction false} FileFragmentFollows(n: Node, h: FragmentHeader, phb: bytes, data: bytes)
    requires n.Shape() && n.ch.Some? && |phb| <= MAX_PACKET_HEADER_SIZE && h.id <= h.total
    ensures Follows(n, FileFragment(n, h, phb, data).0)
  {
    hide Follows, Deliver, StoreFragment, Marked;
    FollowsSelf(n);
    var f := n.e.assembler.At(h.sn);
    EntryShape(n.e.assembler, n.e.config.fragmentSize, h.sn);
    if h.total + 1 == f.total && !Marked(f.marked, h.id) {
      var p := StoreFragment(n, h, phb, data);
      FollowsBeside(n, p);
      DeliverFollows(p, h.sn);
      FollowsOn(n, p, Deliver(p, h.sn).0);
    }
  }

  lemma {:induction false} ReadPacketFollows(n: Node, buf: bytes, pooled: bytes)
    requires n.Shape() && n.ch.Some? && 0 < |buf|
    ensures Follows(n, ReadPacket(n, buf, pooled).0)
  {
    hide Follows, RecvCompact, FileFragment, OpenFragment, OpenEntry;
    FollowsSelf(n);
    if Toggled(buf[0], FLAG_FRAGMENT) {
      var (h, phb, data, outcome) := OpenFragment(buf, n.e.config.maxFragments);
      if outcome.Accepted? && !(!n.e.assembler.Has(h.sn) && n.e.assembler.IsOutdated(h.sn)) {
        var m := OpenEntry(n, h, pooled);
        FollowsBeside(n, m);
        FileFragmentFollows(m, h, phb, data);
        FollowsOn(n, m, FileFragment(m, h, phb, data).0);
      }
    } else {
      RecvCompactFollows(n, buf);
    }
  }

  lemma {:induction false} ReadAllFollows(n: Node, incoming: seq<bytes>, pooled: seq<bytes>)
    requires n.Shape() && n.ch.Some? && |pooled| == |incoming| && forall b :: b in incoming ==> 0 < |b|
    ensures Follows(n, ReadAll(n, incoming, pooled).0)
  {
    hide Follows, ReadPacket, Node.Shape;
    if incoming == [] {
      FollowsSelf(n);
    } else {
      var before, others := incoming[..|incoming| - 1], pooled[..|incoming| - 1];
      ReadAllFollows(n, before, others);
      var (m, _, ok) := ReadAll(n, before, others);
      if ok {
        ReadPacketFollows(m, incoming[|incoming| - 1], pooled[|incoming| - 1]);
        FollowsOn(n, m, ReadAll(n, incoming, pooled).0);
      }
    }
  }

  lemma {:induction false} SubmitFollows(n: Node, payload: bytes)
    requires n.Shape() && n.ch.Some?
    ensures Follows(n, Submit(n, payload))
  {
    hide Follows, WritePacket;
    var c := n.ch.value;
    var m := n.(ch := Some(c.(taken := c.taken + [payload])));
    FollowsBeside(n, m);
    FollowsBeside(n, n.(ch := Some(c.(taken := c.taken + [payload], queue := c.queue + [payload]))));
    WriteFollows(m, payload);
    FollowsOn(n, m, WritePacket(m, payload));
  }

  lemma {:induction false} SubmitAllFollows(n: Node, outgoing: seq<bytes>)
    requires n.Shape() && n.ch.Some?
    ensures Follows(n, SubmitAll(n, outgoing))
  {
    hide Follows, Submit, Node.Shape;
    if outgoing == [] {
      FollowsSelf(n);
    } else {
      var m := SubmitAll(n, outgoing[..|outgoing| - 1]);
      SubmitAllFollows(n, outgoing[..|outgoing| - 1]);
      SubmitFollows(m, outgoing[|outgoing| - 1]);
      FollowsOn(n, m, SubmitAll(n, outgoing));
    }
  }

  lemma {:induction false} KeepaliveFollows(n: Node, time: real)
    requires n.Shape() && n.ch.Some?
    ensures Follows(n, Keepalive(n, time))
  {
    hide Follows, WritePacket;
    FollowsSelf(n);
    var m := n.(ch := Some(n.ch.value.(keepalives := n.ch.value.keepalives + {|n.log.written|})));
    FollowsBeside(n, m);
    WriteFollows(m, []);
    FollowsOn(n, m, WritePacket(m, []));
  }

  // ---------------------------------------------------------------- the clock

  /** Nothing held was sent later than the last sending, or than time t. */
  ghost predicate Timely(n: Node, t: real)
    requires n.Shape() && n.ch.Some?
  {
    forall s: u16 :: n.ch.value.window.Has(s) && n.ch.value.window.At(s).written ==>
      n.ch.value.window.At(s).time <= n.ch.value.lastSent && n.ch.value.window.At(s).time <= t
  }

  lemma FollowsTimely(n: Node, r: Node, t: real, t': real)
    requires n.Shape() && n.ch.Some? && Follows(n, r) && Timely(n, t) && t <= t'
    ensures Timely(r, t')
  {
    hide Rem, Node.Shape;
  }

  /** Something due among the first k numbers means something to send. */
  lemma {:induction false} DueSome(c: ChannelState, time: real, k: nat, s: u16)
    requires c.window.WellFormed() && k <= 0x1_0000 && Distance(c, s) < k && Due(c, time, s)
    ensures DueBuffers(c, time, k) != []
  {
    hide Due, Ahead, Distance;
    DistanceAhead(c, k - 1);
    if Distance(c, s) < k - 1 {
      DueSome(c, time, k - 1, s);
    } else {
      DistanceInjective(c, s, Ahead(c.oldestUnacked, k - 1));
    }
  }

  lemma {:induction false} RetransmitTimely(n: Node, time: real)
    requires n.Shape() && n.ch.Some? && Timely(n, time)
    ensures Timely(Retransmit(n, time), time)
  {
    hide Rem, DueBuffers, EmitUpTo, Distance;
    var c, turns := n.ch.value, n.e.config.recvPacketBufferSize + 1;
    var d := EmitUpTo(c, time, turns);
    EmitExact(c, time, turns);
    forall s: u16 | d.window.Has(s) && d.window.At(s).written
      ensures d.window.At(s).time <= d.lastSent && d.window.At(s).time <= time
    {
      assert c.window.Has(s);
      if Distance(c, s) < turns && Due(c, time, s) {
        DueSome(c, time, turns, s);
      }
    }
  }

  /** While anything from oldest on is written, the loop leaves too little silence for a keepalive. */
  lemma {:induction false} NoSilence(n: Node, time: real)
    requires Sound(n) && Timely(n, time) && n.ch.value.oldest < |n.log.written|
    ensures time - Retransmit(n, time).ch.value.lastSent < 0.1
  {
    hide Good, Rem, Retransmit, Windowed;
    RetransmitTimely(n, time);
    HeadIsSent(n, time);
  }

  // ---------------------------------------------------------------- one call of Update

  ghost predicate Legal(config: Config, call: Call) {
    && |call.pooled| == |call.incoming| && (forall b :: b in call.incoming ==> 0 < |b|)
    && forall p :: p in call.outgoing ==> |p| <= config.maxPacketSize
  }

  /** A call of Update with these contents of the input queues. */
  datatype Call = Call(time: real, incoming: seq<bytes>, pooled: seq<bytes>, outgoing: seq<bytes>)

  function Answer(n: Node, call: Call): (r: (Node, nat, bool))
    requires n.Shape() && n.ch.Some? && Legal(n.e.config, call)
    ensures r.0.Shape() && r.0.ch.Some?
  {
    Update(n, call.time, call.incoming, call.pooled, call.outgoing)
  }

  /** The node after reading, and the node before the retransmit loop. */
  function AfterReading(n: Node, call: Call): (r: (Node, nat, bool))
    requires n.Shape() && n.ch.Some? && Legal(n.e.config, call)
    ensures r.0.Shape() && r.0.ch.Some?
  {
    ReadAll(Protocol.Tick(n, call.time), call.incoming, call.pooled)
  }

  function BeforeSending(n: Node, call: Call): (r: Node)
    requires n.Shape() && n.ch.Some? && Legal(n.e.config, call)
    ensures r.Shape() && r.ch.Some?
  {
    SubmitAll(AfterReading(n, call).0, call.outgoing)
  }

  lemma AnswerIs(n: Node, call: Call)
    requires n.Shape() && n.ch.Some? && Legal(n.e.config, call)
    ensures Answer(n, call).2 == AfterReading(n, call).2
    ensures Answer(n, call).0 ==
      if Answer(n, call).2 then Keepalive(Retransmit(BeforeSending(n, call), call.time), call.time)
      else AfterReading(n, call).0
  {
    hide ReadAll, SubmitAll, Retransmit, Keepalive, Node.Shape;
  }

  /** The nodes that reading one packet after the other leads through. */
  ghost predicate ReadingPath(stages: seq<Node>, bufs: seq<bytes>, pooled: seq<bytes>)
    requires |pooled| == |bufs| && forall b :: b in bufs ==> 0 < |b|
    ensures ReadingPath(stages, bufs, pooled) ==>
      0 < |stages| <= |bufs| + 1 && forall i :: 0 <= i < |stages| ==> stages[i].Shape()
  {
    && 0 < |stages| <= |bufs| + 1 && (forall i :: 0 <= i < |stages| ==> stages[i].Shape())
    && forall i :: 0 <= i < |stages| - 1 ==> stages[i + 1] == ReadPacket(stages[i], bufs[i], pooled[i]).0
  }

  /** Packets are read in order, up to and including the first one refused, which ends the call. */
  lemma {:induction false} ReadsInTurn(n: Node, bufs: seq<bytes>, pooled: seq<bytes>) returns (stages: seq<Node>)
    requires n.Shape() && n.ch.Some? && |pooled| == |bufs| && forall b :: b in bufs ==> 0 < |b|
    ensures ReadingPath(stages, bufs, pooled) && stages[0] == n
    ensures var (r, k, ok) := ReadAll(n, bufs, pooled);
      && |stages| == k + 1 && r == stages[k] && (ok ==> k == |bufs|) && (!ok ==> 0 < k)
      && forall i :: 0 <= i < k ==>
           (ReadPacket(stages[i], bufs[i], pooled[i]).1.Accepted? <==> (ok || i < k - 1))
  {
    hide ReadPacket, Node.Shape;
    stages := [n];
    if bufs != [] {
      var before, others := bufs[..|bufs| - 1], pooled[..|bufs| - 1];
      stages := ReadsInTurn(n, before, others);
      var (m, k, ok) := ReadAll(n, before, others);
      if ok {
        stages := stages + [ReadPacket(m, bufs[k], pooled[k]).0];
      }
    }
  }

  lemma {:induction false} BeforeSendingSound(n: Node, call: Call)
    requires Sound(n) && Legal(n.e.config, call)
    ensures Sound(AfterReading(n, call).0) && AfterReading(n, call).0.e.config == n.e.config
    ensures Sound(BeforeSending(n, call)) && BeforeSending(n, call).e.config == n.e.config
  {
    hide Good, Windowed, ReadAll, SubmitAll;
    TimeOnly(n, call.time);
    ReadAllSound(Protocol.Tick(n, call.time), call.incoming, call.pooled);
    SubmitAllSound(AfterReading(n, call).0, call.outgoing);
  }

  lemma {:induction false} BeforeSendingFollows(n: Node, call: Call)
    requires n.Shape() && n.ch.Some? && Legal(n.e.config, call)
    ensures Follows(n, AfterReading(n, call).0) && Follows(n, BeforeSending(n, call))
  {
    hide Follows, ReadAll, SubmitAll;
    var m := Protocol.Tick(n, call.time);
    FollowsBeside(n, m);
    ReadAllFollows(m, call.incoming, call.pooled);
    FollowsOn(n, m, AfterReading(n, call).0);
    SubmitAllFollows(AfterReading(n, call).0, call.outgoing);
    FollowsOn(n, AfterReading(n, call).0, BeforeSending(n, call));
  }

  /** Update keeps the window invariant, whatever arrives, as long as its clock has not gone back: the
      retransmit loop before it sees to it that no keepalive meets a full window. */
  lemma {:induction false} UpdateSound(n: Node, t: real, call: Call)
    requires Sound(n) && Timely(n, t) && t <= call.time && Legal(n.e.config, call)
    ensures var r := Answer(n, call).0;
      Sound(r) && Timely(r, call.time) && r.e.config == n.e.config
  {
    hide Good, Windowed, Timely, Follows, Answer, AfterReading, BeforeSending, Retransmit, Keepalive;
    AnswerIs(n, call);
    BeforeSendingSound(n, call);
    BeforeSendingFollows(n, call);
    FollowsTimely(n, AfterReading(n, call).0, t, call.time);
    FollowsTimely(n, BeforeSending(n, call), t, call.time);
    if Answer(n, call).2 {
      SendingSound(BeforeSending(n, call), call.time);
    }
  }

  /** The second half of Update: the retransmit loop and the keepalive. */
  lemma {:induction false} SendingSound(n: Node, time: real)
    requires Sound(n) && Timely(n, time)
    ensures var r := Keepalive(Retransmit(n, time), time);
      Sound(r) && Timely(r, time) && r.e.config == n.e.config
  {
    hide Good, Timely, Follows, Retransmit, Keepalive, Accounted;
    var m := Retransmit(n, time);
    RetransmitSound(n, time);
    RetransmitTimely(n, time);
    RetransmitBeside(n, time);
    FullIs(m);
    if n.ch.value.oldest < |n.log.written| {
      NoSilence(n, time);
    }
    KeepaliveSoundIff(m, time);
    KeepaliveFollows(m, time);
    FollowsTimely(m, Keepalive(m, time), time, time);
    FollowsConfig(m, Keepalive(m, time));
  }

  lemma FollowsConfig(n: Node, r: Node)
    requires n.Shape() && n.ch.Some? && Follows(n, r)
    ensures r.e.config == n.e.config
  {
  }

  lemma RetransmitBeside(n: Node, time: real)
    requires n.Shape() && n.ch.Some?
    ensures var c, r := n.ch.value, Retransmit(n, time);
      && r.e == n.e && r.log == n.log
      && r.ch.value == c.(window := r.ch.value.window, lastSent := r.ch.value.lastSent, out := r.ch.value.out)
  {
    hide EmitUpTo;
    EmitKeepsRest(n.ch.value, time, n.e.config.recvPacketBufferSize + 1);
  }

  /** A keepalive is written only when nothing from oldest on is left to acknowledge. */
  lemma {:induction false} KeepaliveOnlyWhenIdle(n: Node, time: real)
    requires Sound(n) && Timely(n, time)
    ensures var m := Retransmit(n, time);
      Keepalive(m, time) != m ==> |m.log.written| <= m.ch.value.oldest
  {
    hide Good, Timely, Retransmit, Windowed, WritePacket;
    RetransmitBeside(n, time);
    if n.ch.value.oldest < |n.log.written| {
      NoSilence(n, time);
    }
  }
}
