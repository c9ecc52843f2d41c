/** Two channels and payloads that take several fragments: the window keeps only the last of them
    (channel.go:115-123), so only that is ever sent, and such a payload never arrives. */
module FragmentedPayloads {
  import opened Words
  import opened Rings
  import opened Headers
  import opened Reassembly
  import opened Protocol
  import opened History
  import opened Acknowledge
  import opened Network
  import opened WindowBytes
  import opened Updates
  import opened Emissions

  /** What is transmitted for the payload is one datagram. */
  predicate OneDatagram(config: Config, w: Protocol.Write) {
    |w.payload| <= config.fragmentAbove || |w.payload| <= config.fragmentSize
  }

  /** Some write with number sn went out as one datagram. */
  ghost predicate WholeAs(config: Config, written: seq<Protocol.Write>, sn: u16) {
    exists k :: 0 <= k < |written| && Wrap16(k) == sn && OneDatagram(config, written[k])
  }

  /** A reassembly entry that has got nothing but the last fragment. */
  ghost predicate TailOnly(f: Fragment) {
    |f.marked| == 4 && (f.recv == 0 || (f.recv == 1 && 1 <= f.total <= 256 && Marked(f.marked, f.total - 1)))
  }

  ghost predicate TailsOnly(assembler: Ring<Fragment>)
    requires assembler.WellFormed()
  {
    forall s: u16 :: assembler.Has(s) ==> TailOnly(assembler.At(s))
  }

  /** What the channel of n has put out are datagrams its window keeps. */
  ghost predicate KeptOut(n: Node)
    requires n.Shape() && n.ch.Some?
  {
    forall b :: b in n.ch.value.out ==> FromOldestOn(n.e.config, n.log.written, 0, b)
  }

  /** What a channel's sending has left at its peer. */
  ghost predicate Received(config: Config, written: seq<Protocol.Write>, y: Node)
    requires y.Shape()
  {
    TailsOnly(y.e.assembler) && forall d :: d in y.log.processed ==> WholeAs(config, written, d.sn)
  }

  // ---------------------------------------------------------------- the sender

  lemma {:induction false} KeptMore(n: Node, r: Node)
    requires n.Shape() && n.ch.Some? && KeptOut(n) && r.Shape() && r.ch.Some?
    requires r.e.config == n.e.config && n.log.written <= r.log.written && r.ch.value.out == n.ch.value.out
    ensures KeptOut(r)
  {
    hide FromOldestOn, Rem;
    forall b | b in r.ch.value.out ensures FromOldestOn(r.e.config, r.log.written, 0, b) {
      FromMore(n.e.config, n.log.written, r.log.written, 0, b);
    }
  }

  lemma {:induction false} ResendKept(n: Node, time: real)
    requires n.Shape() && n.ch.Some? && KeptOut(n) && Exact(n)
    ensures KeptOut(Retransmit(n, time))
  {
    hide EmitUpTo, Retained, CounterOf, Rem;
    var r := Retransmit(n, time);
    EmitKeepsSlots(n.ch.value, time, n.e.config.recvPacketBufferSize + 1);
    forall b | b in r.ch.value.out ensures FromOldestOn(r.e.config, r.log.written, 0, b) {
      if b in n.ch.value.out {
        assert FromOldestOn(n.e.config, n.log.written, 0, b);
      } else {
        var s: u16 :| n.ch.value.window.Has(s) && n.ch.value.window.At(s).buf == b;
        assert Keeps(n.e.config, n.log.written, s, b);
      }
    }
  }

  lemma {:induction false} PerformKept(n: Node, op: Op)
    requires GoodExact(n) && n.ch.Some? && KeptOut(n) && Enabled(n, op)
    ensures KeptOut(Perform(n, op))
  {
    hide Exact, Good, KeptOut, Follows, WritePacket, Submit, Retransmit, Keepalive;
    match op
    case Resend(time) =>
      ExactOf(n);
      ResendKept(n, time);
    case _ =>
      PerformFollows(n, op);
      FollowsOut(n, Perform(n, op));
      KeptMore(n, Perform(n, op));
  }

  lemma {:induction false} PerformFollows(n: Node, op: Op)
    requires n.Shape() && n.ch.Some? && Enabled(n, op) && !op.Resend?
    ensures Follows(n, Perform(n, op))
  {
    hide Follows, WritePacket, Submit, Keepalive;
    match op
    case Write(payload) => WriteFollows(n, payload);
    case Tick(time) => FollowsBeside(n, Protocol.Tick(n, time));
    case Queue(payload) => SubmitFollows(n, payload);
    case Idle(time) => KeepaliveFollows(n, time);
    case Resend(_) =>
  }

  lemma {:induction false} ReadKept(n: Node, t: bytes, pooled: bytes)
    requires n.Shape() && n.ch.Some? && KeptOut(n) && 0 < |t|
    ensures KeptOut(ReadPacket(n, t, pooled).0)
  {
    hide KeptOut, Follows, ReadPacket;
    ReadPacketFollows(n, t, pooled);
    FollowsOut(n, ReadPacket(n, t, pooled).0);
    KeptMore(n, ReadPacket(n, t, pooled).0);
  }

  // ---------------------------------------------------------------- the receiver

  lemma {:induction false} ReceivedMore(
    config: Config, written: seq<Protocol.Write>, more: seq<Protocol.Write>, y: Node)
    requires y.Shape() && Received(config, written, y) && written <= more
    ensures Received(config, more, y)
  {
    hide OneDatagram, TailsOnly, Node.Shape;
    forall d | d in y.log.processed ensures WholeAs(config, more, d.sn) {
      assert WholeAs(config, written, d.sn);
      var k :| 0 <= k < |written| && Wrap16(k) == d.sn && OneDatagram(config, written[k]);
      assert more[k] == written[k];
    }
  }

  lemma {:induction false} OpenTails(y: Node, h: FragmentHeader, pooled: bytes)
    requires y.Shape() && TailsOnly(y.e.assembler)
    ensures var r := OpenEntry(y, h, pooled); TailsOnly(r.e.assembler) && r.e.assembler.Has(h.sn)
  {
    hide Rem, Marked, ExtendSlice;
    var r := OpenEntry(y, h, pooled);
    if !y.e.assembler.Has(h.sn) {
      forall s: u16 | r.e.assembler.Has(s) ensures TailOnly(r.e.assembler.At(s)) {
        if s != h.sn {
          InsertedElsewhere(y.e.assembler, h.sn, s);
        }
      }
    }
  }

  lemma {:induction false} StoreTails(n: Node, h: FragmentHeader, phb: bytes, data: bytes)
    requires n.Shape() && |phb| <= MAX_PACKET_HEADER_SIZE && h.id == h.total && n.e.assembler.Has(h.sn)
    requires TailsOnly(n.e.assembler) && h.total + 1 == n.e.assembler.At(h.sn).total
    requires !Marked(n.e.assembler.At(h.sn).marked, h.id)
    ensures var r := StoreFragment(n, h, phb, data);
      TailsOnly(r.e.assembler) && r.e.assembler.Has(h.sn) && r.e.assembler.At(h.sn).recv == 1
      && r.e.assembler.At(h.sn).total == h.total + 1
  {
    hide Rem, Marked, Mark, CopyAt, Times;
    var f := n.e.assembler.At(h.sn);
    MarkMarks(f.marked, h.id, h.id);
    EntryShape(n.e.assembler, n.e.config.fragmentSize, h.sn);
    TimesMonotone(h.id, f.total, n.e.config.fragmentSize);
    var r := StoreFragment(n, h, phb, data);
    forall s: u16 | r.e.assembler.Has(s) ensures TailOnly(r.e.assembler.At(s)) {
      if s != h.sn {
        assert n.e.assembler.Has(s);
      }
    }
  }

  /** The one fragment there is completes a payload only if it is all of it. */
  lemma {:induction false} DeliverTails(x: Node, p: Node, k: nat, sn: u16)
    requires Good(p) && p.e.config == x.e.config && k < |x.log.written| && Wrap16(k) == sn
    requires HeadersOk(x) && EntriesOk(x.log.written, p.e.config.fragmentSize, p.e.assembler)
    requires Received(x.e.config, x.log.written, p) && p.e.assembler.Has(sn) && p.e.assembler.At(sn).recv == 1
    requires p.e.assembler.At(sn).total == 1 ==> OneDatagram(x.e.config, x.log.written[k])
    ensures Received(x.e.config, x.log.written, Deliver(p, sn).0)
  {
    hide Good, Rem, RecvCompact, Decode, Visited, EntryOk, Assembled, TailOnly, OneDatagram, HeaderOk;
    var g := p.e.assembler.At(sn);
    EntryShape(p.e.assembler, p.e.config.fragmentSize, sn);
    if g.recv == g.total && Fits(g) {
      assert EntryOk(x.log.written, p.e.config.fragmentSize, sn, g);
      var j, _ := CompletedIs(x.log.written, p.e.config.fragmentSize, sn, g);
      assert x.log.written[j].header.sn == sn by { NumberOf(x, j); }
      RecvCompactKeeps(p, Assembled(g));
      assert WholeAs(x.e.config, x.log.written, sn);
      assert forall s: u16 :: p.e.assembler.Remove(sn).Has(s) ==> p.e.assembler.Has(s);
    }
  }

  lemma NumberOf(x: Node, k: nat)
    requires HeadersOk(x) && k < |x.log.written|
    ensures x.log.written[k].header.sn == Wrap16(k)
  {
    assert HeaderOk(x.log, k, x.e.config.maxPacketSize);
  }

  lemma {:induction false} CompactReceived(x: Node, y: Node, k: nat, pooled: bytes)
    requires HeadersOk(x) && Good(y) && k < |x.log.written| && Received(x.e.config, x.log.written, y)
    requires |x.log.written[k].payload| <= x.e.config.fragmentAbove
    ensures var w := x.log.written[k];
      0 < |Encode(w.header) + w.payload|
      && Received(x.e.config, x.log.written, ReadPacket(y, Encode(w.header) + w.payload, pooled).0)
  {
    hide Good, HeadersOk, Encode, Decode, RecvCompact, RecvFragmented, Visited, TailsOnly;
    var w := x.log.written[k];
    EncodeSize(w.header);
    HeaderRoundTrip(w.header, w.payload);
    NumberOf(x, k);
    RecvCompactKeeps(y, Encode(w.header) + w.payload);
    assert WholeAs(x.e.config, x.log.written, w.header.sn);
  }

  lemma {:induction false} TailReceived(x: Node, y: Node, k: nat, total: nat, pooled: bytes)
    requires Good(x) && Good(y) && Link(x, y) && x.e.config == y.e.config && k < |x.log.written|
    requires Received(x.e.config, x.log.written, y) && x.e.config.fragmentAbove < |x.log.written[k].payload|
    requires total == NumFragments(|x.log.written[k].payload|, x.e.config.fragmentSize)
    ensures 0 < total
    ensures var w := x.log.written[k];
      var t := FragmentDatagram(x.e.config, w.header, w.payload, total, total - 1);
      0 < |t| && Received(x.e.config, x.log.written, ReadPacket(y, t, pooled).0)
  {
    hide Good, FragmentDatagram, Toggled, ReadPacket, OpenFragment, FileFragment, OpenEntry, Received,
      EntriesOk, DeliveriesOk, FiredOk, HeaderBytes, Chunk, SourceOf;
    var w, config := x.log.written[k], x.e.config;
    HeaderOf(x, k);
    NumFragmentsBounds(|w.payload|, config.fragmentSize);
    NumFragmentsAtMost(|w.payload|, config.fragmentSize, Least(config.maxFragments, 256));
    FragmentOpens(config, w, total, total - 1);
    var t := FragmentDatagram(config, w.header, w.payload, total, total - 1);
    var (h, phb, data, outcome) := OpenFragment(t, config.maxFragments);
    FragmentRead(y, t, pooled);
    if outcome.Accepted? && (y.e.assembler.Has(h.sn) || !y.e.assembler.IsOutdated(h.sn)) {
      TailFiled(x, y, k, h, pooled);
    }
  }

  lemma FragmentRead(y: Node, t: bytes, pooled: bytes)
    requires y.Shape() && 0 < |t| && Toggled(t[0], FLAG_FRAGMENT)
    ensures var (h, phb, data, outcome) := OpenFragment(t, y.e.config.maxFragments);
      ReadPacket(y, t, pooled).0 ==
        if outcome.Accepted? && (y.e.assembler.Has(h.sn) || !y.e.assembler.IsOutdated(h.sn))
        then FileFragment(OpenEntry(y, h, pooled), h, phb, data).0 else y
  {
    hide Toggled, OpenFragment, FileFragment, OpenEntry;
  }

  lemma {:induction false} TailFiled(x: Node, y: Node, k: nat, h: FragmentHeader, pooled: bytes)
    requires Good(x) && Good(y) && Link(x, y) && x.e.config == y.e.config && k < |x.log.written|
    requires Received(x.e.config, x.log.written, y) && 0 < |x.log.written[k].payload|
    requires h == FragmentHeader(Wrap16(k), h.total, h.total)
    requires h.total + 1 == NumFragments(|x.log.written[k].payload|, x.e.config.fragmentSize)
    requires |HeaderBytes(SourceOf(x.log.written[k]), h.total)| <= MAX_PACKET_HEADER_SIZE
    ensures var w, fs := x.log.written[k], x.e.config.fragmentSize;
      var phb, data := HeaderBytes(SourceOf(w), h.total), Chunk(w.payload, fs, h.total);
      Received(x.e.config, x.log.written, FileFragment(OpenEntry(y, h, pooled), h, phb, data).0)
  {
    hide Good, Rem, RecvCompact, Deliver, EntriesOk, DeliveriesOk, FiredOk, OpenEntry, StoreFragment,
      Chunk, HeaderBytes, NumFragments, SourceOf, Marked, TailsOnly, HeadersOk;
    var w, fs := x.log.written[k], x.e.config.fragmentSize;
    var phb, data := HeaderBytes(SourceOf(w), h.total), Chunk(w.payload, fs, h.total);
    var m := OpenEntry(y, h, pooled);
    EntryOpens(x, y, h, pooled);
    OpenTails(y, h, pooled);
    AssemblerOnly(y, m);
    var f := m.e.assembler.At(h.sn);
    EntryShape(m.e.assembler, fs, h.sn);
    if h.total + 1 == f.total && !Marked(f.marked, h.id) {
      assert Genuine(x.log.written, h.sn, SourceOf(w));
      StoreKeepsEntries(x, m, w, h.total, h);
      StoreTails(m, h, phb, data);
      AssemblerOnly(m, StoreFragment(m, h, phb, data));
      HeadersOf(x);
      if h.total == 0 {
        OneFragment(|w.payload|, fs);
      }
      DeliverTails(x, StoreFragment(m, h, phb, data), k, h.sn);
    }
  }

  lemma HeadersOf(x: Node)
    requires Good(x)
    ensures HeadersOk(x)
  {
  }

  lemma {:induction false} OneFragment(size: nat, fs: nat)
    requires 0 < fs && 0 < size && NumFragments(size, fs) == 1
    ensures size <= fs
  {
    NumFragmentsBounds(size, fs);
  }

  /** Whatever the channel of x has put out arrives at y, at any time: no payload of several fragments
      is completed by it. */
  lemma {:induction false} KeptArrives(x: Node, y: Node, t: bytes, pooled: bytes)
    requires Good(x) && Good(y) && Link(x, y) && x.e.config == y.e.config && x.ch.Some?
    requires KeptOut(x) && t in x.ch.value.out && Received(x.e.config, x.log.written, y)
    ensures 0 < |t| && Received(x.e.config, x.log.written, ReadPacket(y, t, pooled).0)
  {
    hide Good, Received, ReadPacket, FragmentDatagram, Encode, Link, Rem;
    var config := x.e.config;
    assert FromOldestOn(config, x.log.written, 0, t);
    var k :| 0 <= k < |x.log.written| && t == Retained(config, x.log.written[k]);
    var w := x.log.written[k];
    HeadersOf(x);
    if |w.payload| <= config.fragmentAbove {
      RetainedIsAllIff(config, w);
      CompactReceived(x, y, k, pooled);
    } else {
      TailReceived(x, y, k, NumFragments(|w.payload|, config.fragmentSize), pooled);
    }
  }

  // ---------------------------------------------------------------- whole runs

  /** From channel x to its peer y. */
  ghost predicate Tailed(x: Node, y: Node)
    requires x.Shape() && y.Shape()
  {
    x.ch.Some? && Exact(x) && KeptOut(x) && Received(x.e.config, x.log.written, y)
  }

  lemma {:induction false} SenderActs(x: Node, y: Node, op: Op)
    requires Good(x) && y.Shape() && Tailed(x, y) && Enabled(x, op)
    ensures Tailed(Perform(x, op), y)
  {
    hide Good, Exact, KeptOut, Received, Perform, Enabled;
    BothExact(x);
    PerformExact(x, op);
    ExactOf(Perform(x, op));
    PerformKept(x, op);
    PerformKeeps(x, op);
    ReceivedMore(x.e.config, x.log.written, Perform(x, op).log.written, y);
  }

  lemma {:induction false} SenderReads(x: Node, y: Node, t: bytes, pooled: bytes)
    requires Good(x) && y.Shape() && Tailed(x, y) && 0 < |t|
    ensures Tailed(ReadPacket(x, t, pooled).0, y)
  {
    hide Good, Exact, KeptOut, Received, ReadPacket;
    BothExact(x);
    ReadPacketExact(x, t, pooled);
    ExactOf(ReadPacket(x, t, pooled).0);
    ReadKept(x, t, pooled);
    ReadPacketKeeps(x, t, pooled);
    ReceivedMore(x.e.config, x.log.written, ReadPacket(x, t, pooled).0.log.written, y);
  }

  lemma {:induction false} ReceiverActs(x: Node, y: Node, op: Op)
    requires x.Shape() && Good(y) && Tailed(x, y) && Enabled(y, op)
    ensures Tailed(x, Perform(y, op))
  {
    hide Good, Exact, KeptOut, Perform, Enabled, TailsOnly;
    PerformKeeps(y, op);
  }

  lemma {:induction false} NextTailed(s: System, step: Step, s': System)
    requires Network.Inv(s) && Network.Next(s, step, s') && Network.Inv(s')
    ensures s.a.ch.Some? && Tailed(s.a, s.b) ==> Tailed(s'.a, s'.b)
    ensures s.b.ch.Some? && Tailed(s.b, s.a) ==> Tailed(s'.b, s'.a)
  {
    hide Good, Exact, KeptOut, Received, ReadPacket, Perform, Enabled, Link;
    if s.a.ch.Some? && Tailed(s.a, s.b) {
      match step
      case LocalA(op) => SenderActs(s.a, s.b, op);
      case LocalB(op) => ReceiverActs(s.a, s.b, op);
      case ArriveA(t, pooled) => SenderReads(s.a, s.b, t, pooled);
      case ArriveB(t, pooled) => KeptArrives(s.a, s.b, t, pooled);
    }
    if s.b.ch.Some? && Tailed(s.b, s.a) {
      match step
      case LocalA(op) => ReceiverActs(s.b, s.a, op);
      case LocalB(op) => SenderActs(s.b, s.a, op);
      case ArriveA(t, pooled) => KeptArrives(s.b, s.a, t, pooled);
      case ArriveB(t, pooled) => SenderReads(s.b, s.a, t, pooled);
    }
  }

  lemma StartTailed(config: Config, channel: bool)
    requires config.Valid()
    ensures Tailed(NewNode(config, true), NewNode(config, channel))
  {
    hide Good;
    StartExact(config, true);
  }

  lemma {:induction false} RunTailed(
    config: Config, states: seq<System>, steps: seq<Step>, channelA: bool, channelB: bool, i: nat)
    requires Network.IsRun(config, states, steps, channelA, channelB) && i < |states|
    ensures channelA ==> Tailed(states[i].a, states[i].b)
    ensures channelB ==> Tailed(states[i].b, states[i].a)
  {
    hide Network.Next, Network.Inv, Tailed;
    if i == 0 {
      StartTailed(config, channelB);
      StartTailed(config, channelA);
    } else {
      RunTailed(config, states, steps, channelA, channelB, i - 1);
      Network.RunKeeps(config, states, steps, channelA, channelB, i - 1);
      Network.RunKeeps(config, states, steps, channelA, channelB, i);
      NextTailed(states[i - 1], steps[i - 1], states[i]);
      if channelA {
        TailedChannel(states[i - 1].a, states[i - 1].b);
      }
      if channelB {
        TailedChannel(states[i - 1].b, states[i - 1].a);
      }
    }
  }

  lemma TailedChannel(x: Node, y: Node)
    requires x.Shape() && y.Shape() && Tailed(x, y)
    ensures x.ch.Some?
  {
  }

  /** Payload k of x, which took several fragments, was not processed at y and x has no acknowledgement
      of it. */
  ghost predicate NeverArrives(x: Log, y: Log, k: nat) {
    && (forall d :: d in y.processed ==> d.sn != Wrap16(k))
    && k !in AckedSet(x.acked)
  }

  lemma {:induction false} SeveralNever(x: Node, y: Node, k: nat)
    requires x.Shape() && y.Shape() && Tailed(x, y) && AcksSound(x.log, y.log)
    requires k < |x.log.written| <= 0x1_0000 && !OneDatagram(x.e.config, x.log.written[k])
    ensures NeverArrives(x.log, y.log, k)
  {
    hide Exact, KeptOut, TailsOnly, OneDatagram, AckedSet, AckCounter, Node.Shape;
    forall d | d in y.log.processed ensures d.sn != Wrap16(k) {
      assert WholeAs(x.e.config, x.log.written, d.sn);
    }
    if k in AckedSet(x.log.acked) {
      var a := AckOf(x.log.acked, k);
      assert Processed(y.log, a.sn);
      AckNumber(a, k);
    }
  }

  lemma {:induction false} AckOf(acked: seq<Ack>, k: nat) returns (a: Ack)
    requires k in AckedSet(acked)
    ensures a in acked && AckCounter(a) == k
  {
    hide AckCounter;
    a := acked[|acked| - 1];
    if AckCounter(a) != k {
      a := AckOf(acked[..|acked| - 1], k);
    }
  }

  lemma AckNumber(a: Ack, k: nat)
    requires AckCounter(a) == k
    ensures a.sn == Wrap16(k)
  {
    CounterWraps(a.at, a.sn);
  }

  /** Between two channels, over a network that loses, duplicates and reorders: as long as no more than
      65536 payloads are written, one that takes several fragments is never processed by the peer and
      never acknowledged, however often its channel resends. */
  lemma {:induction false} SeveralFragmentsNeverArrive(
    config: Config, states: seq<System>, steps: seq<Step>, channelA: bool, channelB: bool, i: nat, k: nat)
    requires Network.IsRun(config, states, steps, channelA, channelB) && i < |states|
    ensures var x, y := states[i].a, states[i].b;
      channelA && k < |x.log.written| <= 0x1_0000 && !OneDatagram(x.e.config, x.log.written[k]) ==>
        NeverArrives(x.log, y.log, k)
    ensures var x, y := states[i].b, states[i].a;
      channelB && k < |x.log.written| <= 0x1_0000 && !OneDatagram(x.e.config, x.log.written[k]) ==>
        NeverArrives(x.log, y.log, k)
  {
    hide Network.Next, Tailed, OneDatagram, NeverArrives, AcksSound;
    RunTailed(config, states, steps, channelA, channelB, i);
    AckSoundness(config, states, steps, channelA, channelB, i);
    var a, b := states[i].a, states[i].b;
    if channelA && k < |a.log.written| <= 0x1_0000 && !OneDatagram(a.e.config, a.log.written[k]) {
      SeveralNever(a, b, k);
    }
    if channelB && k < |b.log.written| <= 0x1_0000 && !OneDatagram(b.e.config, b.log.written[k]) {
      SeveralNever(b, a, k);
    }
  }
}
