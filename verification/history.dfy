/** What every reachable node keeps, for any datagrams received and any number of writes: the
    exact record of what was sent, acknowledgements that fire at most once, acknowledgement sets
    that name only packets processed, and a window that mirrors the sent buffer. */
module History {
  import opened Words
  import opened Bits
  import opened Rings
  import opened Headers
  import opened Reassembly
  import opened Protocol

  // ---------------------------------------------------------------- the invariant

  ghost predicate Processed(log: Log, sn: u16) {
    exists k :: 0 <= k < |log.processed| && log.processed[k].sn == sn
  }

  /** Write number k carries the wire number of k and acknowledges only what was processed. */
  ghost predicate HeaderOk(log: Log, k: nat, max: nat)
    requires k < |log.written|
  {
    var h := log.written[k].header;
    && h.sn == Wrap16(k) && |log.written[k].payload| <= max
    && forall i :: 0 <= i < 32 && Bit(h.acks, i) ==> Processed(log, Back(h.ack, i))
  }

  ghost predicate HeadersOk(n: Node) {
    forall k :: 0 <= k < |n.log.written| ==> HeaderOk(n.log, k, n.e.config.maxPacketSize)
  }

  ghost predicate SentOk(n: Node)
    requires n.Shape()
  {
    n.e.sn == Wrap16(|n.log.written|) && Sequential(n.e.sent, |n.log.written|)
  }

  ghost predicate RecvOk(n: Node)
    requires n.Shape()
  {
    forall s: u16 :: n.e.recv.Has(s) ==> Processed(n.log, s)
  }

  function DatagramsOf(config: Config, w: Write): seq<bytes>
    requires config.Valid()
  {
    Datagrams(config, w.header, w.payload)
  }

  /** Every datagram handed to the dispatcher belongs to some accepted write. */
  ghost predicate TransmittedOk(n: Node)
    requires n.Shape()
  {
    forall t :: t in n.log.transmitted ==> SentBy(n.e.config, n.log.written, t)
  }

  ghost predicate SentBy(config: Config, written: seq<Write>, t: bytes)
    requires config.Valid()
  {
    exists w :: w in written && t in DatagramsOf(config, w)
  }

  /** The counter that an ACK call is about. */
  function AckCounter(a: Ack): int {
    CounterOf(a.at, a.sn)
  }

  function AckedSet(acked: seq<Ack>): set<int> {
    if acked == [] then {} else AckedSet(acked[..|acked| - 1]) + {AckCounter(acked[|acked| - 1])}
  }

  /** Each call was about a number among the last cap sent, and about a new one. */
  ghost predicate FiredOnce(acked: seq<Ack>, cap: nat, now: nat) {
    acked == [] ||
      var before, a := acked[..|acked| - 1], acked[|acked| - 1];
      && FiredOnce(before, cap, a.at)
      && a.at <= now && 0 <= AckCounter(a) && a.at - cap <= AckCounter(a)
      && AckCounter(a) !in AckedSet(before)
  }

  ghost predicate AcksOk(n: Node)
    requires n.Shape()
  {
    var written, cap := |n.log.written|, n.e.sent.Cap();
    && FiredOnce(n.log.acked, cap, written)
    && forall c {:trigger c in AckedSet(n.log.acked)} :: 0 <= c < written && written - cap <= c ==>
      (n.e.sent.entries[Rem(c, cap)].acked <==> c in AckedSet(n.log.acked))
  }

  /** What the window holds in slot i when it mirrors the sent buffer there. */
  function Mirror(sent: Ring<SentPacket>, i: nat): u32
    requires sent.WellFormed() && i < sent.Cap()
  {
    if sent.slots[i] != EMPTY && !sent.entries[i].acked then sent.slots[i] else EMPTY
  }

  ghost predicate MirroredBut(window: Ring<BufferedPacket>, sent: Ring<SentPacket>, hole: int)
    requires window.WellFormed() && sent.WellFormed() && window.Cap() == sent.Cap()
  {
    forall i :: 0 <= i < window.Cap() && i != hole ==> window.slots[i] == Mirror(sent, i)
  }

  ghost predicate Coupled(n: Node)
    requires n.Shape()
  {
    n.ch.Some? ==> n.ch.value.window.latest == n.e.sn && MirroredBut(n.ch.value.window, n.e.sent, -1)
  }

  /** A channel buffers and puts out only datagrams that were transmitted to it. */
  ghost predicate Buffered(n: Node)
    requires n.Shape()
  {
    n.ch.Some? ==>
      && (forall s: u16 :: n.ch.value.window.Has(s) ==> n.ch.value.window.At(s).buf in n.log.transmitted)
      && forall b :: b in n.ch.value.out ==> b in n.log.transmitted
  }

  /** All parts but the coupling, which is broken for a moment inside WritePacket and ACK. */
  ghost predicate Core(n: Node)
    ensures Core(n) ==> n.Shape()
  {
    n.Shape() && SentOk(n) && HeadersOk(n) && RecvOk(n) && TransmittedOk(n) && AcksOk(n)
  }

  ghost predicate Good(n: Node)
    ensures Good(n) ==> n.Shape()
  {
    Core(n) && Coupled(n) && Buffered(n)
  }

  /** What writing and acknowledging leave alone, and what they only extend. */
  ghost predicate Grows(n: Node, r: Node) {
    && r.e.config == n.e.config && r.e.time == n.e.time && r.e.recv == n.e.recv && r.e.assembler == n.e.assembler
    && r.ch.Some? == n.ch.Some? && r.log.processed == n.log.processed
    && n.log.written <= r.log.written && n.log.transmitted <= r.log.transmitted && n.log.acked <= r.log.acked
  }

  lemma GrowsOn(a: Node, b: Node, c: Node)
    requires Grows(a, b) && Grows(b, c)
    ensures Grows(a, c)
  {
  }

  lemma {:induction false} NewNodeGood(config: Config, channel: bool)
    requires config.Valid()
    ensures Good(NewNode(config, channel))
  {
    var n := NewNode(config, channel);
    SequentialStart(config.sentPacketBufferSize, SentPacket(0.0, false, 0));
    assert n.e.sent == EmptyRing(config.sentPacketBufferSize, SentPacket(0.0, false, 0));
  }

  // ---------------------------------------------------------------- writing

  lemma {:induction false} AssignKeeps(n: Node, payload: bytes)
    requires Core(n) && |payload| <= n.e.config.maxPacketSize
    ensures Core(Assign(n, payload)) && Grows(n, Assign(n, payload))
  {
    hide NextHeader, HeaderOk, Rem, DatagramsOf, Processed, AckedSet, FiredOnce, IsCap;
    var r := Assign(n, payload);
    assert SentOk(r) by { AssignSent(n, payload); }
    assert HeadersOk(r) by { AssignHeaders(n, payload); }
    assert AcksOk(r) by { AssignAcks(n, payload); }
    forall t | t in r.log.transmitted ensures SentBy(r.e.config, r.log.written, t) {
      assert SentBy(n.e.config, n.log.written, t);
    }
    assert forall s: u16 :: r.e.recv.Has(s) ==> Processed(n.log, s);
    ProcessedSame(n.log, r.log);
  }

  lemma ProcessedSame(log: Log, log': Log)
    requires log.processed == log'.processed
    ensures forall s: u16 :: Processed(log, s) <==> Processed(log', s)
  {
  }

  lemma {:induction false} AssignSent(n: Node, payload: bytes)
    requires n.Shape() && SentOk(n)
    ensures SentOk(Assign(n, payload))
    ensures !n.e.sent.IsOutdated(n.e.sn)
  {
    hide NextHeader, SlotAfter;
    SequentialStep(n.e.sent, |n.log.written|);
    WrapSum(|n.log.written|, 1);
  }

  lemma {:induction false} AssignHeaders(n: Node, payload: bytes)
    requires n.Shape() && SentOk(n) && HeadersOk(n) && RecvOk(n) && |payload| <= n.e.config.maxPacketSize
    ensures HeadersOk(Assign(n, payload))
  {
    hide NextHeader, Sequential, Rem, Bit;
    var r, max := Assign(n, payload), n.e.config.maxPacketSize;
    forall k | 0 <= k < |r.log.written| ensures HeaderOk(r.log, k, max) {
      if k < |n.log.written| {
        assert HeaderOk(n.log, k, max);
        ProcessedSame(n.log, r.log);
      } else {
        NextHeaderOk(n);
        ProcessedSame(n.log, r.log);
      }
    }
  }

  lemma {:induction false} NextHeaderOk(n: Node)
    requires n.Shape() && RecvOk(n)
    ensures var h := NextHeader(n.e);
      && h.sn == n.e.sn
      && forall i :: 0 <= i < 32 && Bit(h.acks, i) ==> Processed(n.log, Back(h.ack, i))
  {
    hide Bit, Processed, AckBits;
    var h := NextHeader(n.e);
    forall i | 0 <= i < 32 && Bit(h.acks, i) ensures Processed(n.log, Back(h.ack, i)) {
      AckBitsExact(n.e.recv, h.ack, 32, i);
    }
  }

  lemma {:induction false} AssignAcks(n: Node, payload: bytes)
    requires n.Shape() && SentOk(n) && AcksOk(n)
    ensures AcksOk(Assign(n, payload))
  {
    hide NextHeader, Sequential, Rem;
    var r := Assign(n, payload);
    var written, cap, acked := |n.log.written|, n.e.sent.Cap(), n.log.acked;
    FiredLater(acked, cap, written, written + 1);
    FiredBelow(acked, cap, written);
    RemOfWrap(written, cap);
    forall c {:trigger c in AckedSet(r.log.acked)} | 0 <= c < written + 1 && written + 1 - cap <= c
      ensures r.e.sent.entries[Rem(c, cap)].acked <==> c in AckedSet(acked)
    {
      if c < written && Rem(c, cap) == Rem(written, cap) {
        RemUnique(c, written, cap);
      }
    }
  }

  lemma FiredLater(acked: seq<Ack>, cap: nat, now: nat, later: nat)
    requires FiredOnce(acked, cap, now) && now <= later
    ensures FiredOnce(acked, cap, later)
  {
  }

  lemma {:induction false} FiredBelow(acked: seq<Ack>, cap: nat, now: nat)
    requires FiredOnce(acked, cap, now)
    ensures forall c :: c in AckedSet(acked) ==> 0 <= c < now
  {
    if acked != [] {
      FiredBelow(acked[..|acked| - 1], cap, acked[|acked| - 1].at);
    }
  }

  /** The window just before the first datagram of write number c, and between its datagrams. */
  ghost predicate Transmitting(n: Node, c: nat, started: bool)
    requires n.Shape()
  {
    n.ch.Some? ==>
      var w := n.ch.value.window;
      && w.latest == (if started then Wrap16(c + 1) else Wrap16(c))
      && MirroredBut(w, n.e.sent, Rem(Wrap16(c), w.Cap()))
      && (started ==> w.slots[Rem(Wrap16(c), w.Cap())] == Wrap16(c))
  }

  lemma {:induction false} TransmitKeeps(n: Node, c: nat, started: bool, buf: bytes)
    requires n.Shape() && Transmitting(n, c, started)
    ensures Transmitting(Transmit(n, Wrap16(c), buf), c, true)
    ensures n.ch.Some? ==> !n.ch.value.window.IsOutdated(Wrap16(c))
  {
    if n.ch.Some? {
      hide Rem, Mirror;
      if started {
        InsertAgain(n.ch.value.window, c);
      } else {
        InsertNext(n.ch.value.window, c);
      }
    }
  }

  lemma {:induction false} TransmitAllKeeps(n: Node, c: nat, datagrams: seq<bytes>)
    requires n.Shape() && Transmitting(n, c, false)
    ensures var r := TransmitAll(n, Wrap16(c), datagrams);
      && Transmitting(r, c, datagrams != [])
      && r.log == n.log.(transmitted := n.log.transmitted + datagrams)
      && (n.ch.Some? ==> r.ch.value == n.ch.value.(window := r.ch.value.window))
      && (Buffered(n) ==> Buffered(r))
  {
    hide Rem, Transmitting, Wrap16, Transmit, Buffered;
    if datagrams == [] {
      assert n.log.transmitted + datagrams == n.log.transmitted;
    } else {
      var before, last := datagrams[..|datagrams| - 1], datagrams[|datagrams| - 1];
      var m := TransmitAll(n, Wrap16(c), before);
      TransmitAllKeeps(n, c, before);
      TransmitKeeps(m, c, before != [], last);
      TransmitRecords(m, Wrap16(c), last);
      if Buffered(n) {
        TransmitBuffers(m, Wrap16(c), last);
      }
      assert n.log.transmitted + datagrams == n.log.transmitted + before + [last];
    }
  }

  lemma {:induction false} TransmitBuffers(n: Node, sn: u16, buf: bytes)
    requires n.Shape() && Buffered(n)
    ensures Buffered(Transmit(n, sn, buf))
  {
    hide Rem;
    var r := Transmit(n, sn, buf);
    if n.ch.Some? {
      forall s: u16 | r.ch.value.window.Has(s) ensures r.ch.value.window.At(s).buf in r.log.transmitted {
        if s != sn {
          InsertedElsewhere(n.ch.value.window, sn, s);
        }
      }
    }
  }

  /** Inserting sn leaves the slots of other recorded numbers apart from the one of sn. */
  lemma InsertedElsewhere<T>(r: Ring<T>, sn: u16, s: u16)
    requires r.WellFormed() && r.Insert(sn).Has(s) && s != sn
    ensures r.Has(s) && r.IndexOf(s) != r.IndexOf(sn)
  {
    hide Rem;
  }

  lemma TransmitRecords(n: Node, sn: u16, buf: bytes)
    requires n.Shape()
    ensures var r := Transmit(n, sn, buf);
      && r.log == n.log.(transmitted := n.log.transmitted + [buf])
      && (n.ch.Some? ==> r.ch.value == n.ch.value.(window := r.ch.value.window))
  {
  }

  /** Once its datagrams are out, a write leaves the window mirroring the sent buffer again. */
  lemma {:induction false} TransmittedCoupled(n: Node, c: nat)
    requires n.Shape() && Transmitting(n, c, true)
    requires n.e.sn == Wrap16(c + 1) && n.e.sent.slots[Rem(Wrap16(c), n.e.sent.Cap())] == Wrap16(c)
    requires !n.e.sent.At(Wrap16(c)).acked
    ensures Coupled(n)
  {
    hide Rem;
  }

  lemma {:induction false} WritePacketKeeps(n: Node, payload: bytes)
    requires Good(n)
    ensures var r := WritePacket(n, payload);
      && Good(r) && Grows(n, r) && r.log.acked == n.log.acked
      && r.log.written == n.log.written +
        (if |payload| <= n.e.config.maxPacketSize then [Write(NextHeader(n.e), payload)] else [])
      && (n.ch.Some? ==> r.ch.value == n.ch.value.(window := r.ch.value.window))
  {
    if |payload| <= n.e.config.maxPacketSize {
      var c, h := |n.log.written|, NextHeader(n.e);
      var a, datagrams := Assign(n, payload), Datagrams(n.e.config, h, payload);
      AssignKeeps(n, payload);
      AssignTransmitting(n, payload);
      TransmitAllKeeps(a, c, datagrams);
      DatagramsNonEmpty(n.e.config, h, payload);
      var r := TransmitAll(a, Wrap16(c), datagrams);
      hide Transmitting, Datagrams, NextHeader, Sequential, Rem;
      assert Buffered(a);
      TransmittedCoupled(r, c);
      TransmittedKeeps(a, r, Write(h, payload));
      CoreKept(a, r);
    }
  }

  lemma {:induction false} AssignTransmitting(n: Node, payload: bytes)
    requires Core(n) && Coupled(n)
    ensures var r := Assign(n, payload);
      && Transmitting(r, |n.log.written|, false)
      && r.e.sn == Wrap16(|n.log.written| + 1)
      && r.e.sent.slots[Rem(n.e.sn, n.e.sent.Cap())] == n.e.sn
      && !r.e.sent.At(n.e.sn).acked
  {
    hide Rem, Sequential, NextHeader, HeadersOk, RecvOk, TransmittedOk, AcksOk;
    InsertNextOf(n);
    WrapSum(|n.log.written|, 1);
  }

  lemma InsertNextOf(n: Node)
    requires n.Shape() && SentOk(n)
    ensures n.e.sent.Insert(n.e.sn) ==
      Ring(Wrap16(|n.log.written| + 1), n.e.sent.slots[Rem(n.e.sn, n.e.sent.Cap()) := n.e.sn], n.e.sent.entries)
  {
    hide Rem, SlotAfter;
    InsertNext(n.e.sent, |n.log.written|);
  }

  lemma DatagramsNonEmpty(config: Config, h: PacketHeader, payload: bytes)
    requires config.Valid()
    ensures Datagrams(config, h, payload) != []
  {
    hide Encode, FragmentDatagram;
    if |payload| > config.fragmentAbove {
      NumFragmentsBounds(|payload|, config.fragmentSize);
    }
  }

  lemma {:induction false} TransmittedKeeps(a: Node, r: Node, w: Write)
    requires a.Shape() && r.Shape() && TransmittedOk(a) && r.e == a.e && w in a.log.written
    requires r.log == a.log.(transmitted := a.log.transmitted + DatagramsOf(a.e.config, w))
    ensures TransmittedOk(r)
  {
    hide DatagramsOf;
    forall t | t in r.log.transmitted ensures SentBy(r.e.config, r.log.written, t) {
      if t in a.log.transmitted {
        assert SentBy(a.e.config, a.log.written, t);
      }
    }
  }

  lemma CoreKept(a: Node, r: Node)
    requires Core(a) && r.Shape() && r.e == a.e && TransmittedOk(r)
    requires r.log == a.log.(transmitted := r.log.transmitted)
    ensures Core(r)
  {
    hide HeaderOk, Processed, Sequential;
    assert forall k :: 0 <= k < |r.log.written| ==> HeaderOk(a.log, k, a.e.config.maxPacketSize);
    HeadersSame(a.log, r.log, a.e.config.maxPacketSize);
    ProcessedSame(a.log, r.log);
  }

  lemma HeadersSame(log: Log, log': Log, max: nat)
    requires log.processed == log'.processed && log.written == log'.written
    ensures forall k :: 0 <= k < |log.written| && HeaderOk(log, k, max) ==> HeaderOk(log', k, max)
  {
    hide Bit;
    ProcessedSame(log, log');
  }
}
