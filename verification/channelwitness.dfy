/** Two runs of a channel that reach what its invariants warn of: a packet passed over for ever, and,
    with a clock that goes back, a keepalive sent into a full window. */
module ChannelWitnesses {
  import opened Words
  import opened Rings
  import opened Headers
  import opened Protocol
  import opened History
  import opened Acknowledge
  import opened Network
  import opened Sliding
  import opened Retransmission
  import opened WindowBytes
  import opened Updates
  import opened UpdateRuns

  /** What a peer that has received just number ack sends as its first packet. */
  function AckDatagram(ack: u16): (r: bytes)
    ensures 0 < |r|
  {
    EncodeSize(PacketHeader(0, ack, 1));
    Encode(PacketHeader(0, ack, 1))
  }

  /** written payloads, none acknowledged but perhaps some of them, nothing received, no backlog. */
  ghost predicate Young(config: Config, n: Node, written: nat, lastSent: real) {
    && Sound(n) && n.e.config == config && |n.log.written| == written
    && n.e.recv == EmptyRing(config.recvPacketBufferSize, RecvPacket(0.0, 0))
    && n.ch.value.oldest == 0 && n.ch.value.queue == [] && n.ch.value.lastSent == lastSent
  }

  // ---------------------------------------------------------------- writing and sending

  /** Writing into a window with room: one more number is held, not sent yet. */
  lemma {:induction false} OneMore(config: Config, n: Node, written: nat, lastSent: real)
    requires Young(config, n, written, lastSent) && written < config.recvPacketBufferSize
    ensures var r := SubmitAll(n, [[]]);
      && Young(config, r, written + 1, lastSent)
      && r.ch.value.window.Has(Wrap16(written)) && !r.ch.value.window.At(Wrap16(written)).written
      && forall s: u16 :: s != Wrap16(written) && r.ch.value.window.Has(s) ==>
           n.ch.value.window.Has(s) && r.ch.value.window.At(s) == n.ch.value.window.At(s)
  {
    hide Good, WritePacket, AppWrites, Rem, EmptyRing;
    OneTurn(n, []);
    FullIs(n);
    SubmitSoundIff(n, []);
    var m := n.(ch := Some(n.ch.value.(taken := n.ch.value.taken + [[]])));
    TakenOnly(n, []);
    assert Submit(n, []) == WritePacket(m, []);
    WrittenFresh(m, []);
  }

  lemma OneTurn(n: Node, payload: bytes)
    requires n.Shape() && n.ch.Some?
    ensures SubmitAll(n, [payload]) == Submit(n, payload)
  {
    hide Submit, Node.Shape;
    var none := [payload][..0];
    assert none == [] && SubmitAll(n, none) == n;
  }

  lemma {:induction false} WrittenFresh(n: Node, payload: bytes)
    requires Good(n) && n.ch.Some? && |payload| <= n.e.config.maxPacketSize
    ensures var r, s := WritePacket(n, payload), Wrap16(|n.log.written|);
      && |r.log.written| == |n.log.written| + 1 && r.e.recv == n.e.recv && r.e.config == n.e.config
      && r.ch.Some? && r.ch.value == n.ch.value.(window := r.ch.value.window)
      && r.ch.value.window.Has(s) && !r.ch.value.window.At(s).written
      && forall x: u16 :: x != s && r.ch.value.window.Has(x) ==>
           n.ch.value.window.Has(x) && r.ch.value.window.At(x) == n.ch.value.window.At(x)
  {
    hide Core, Coupled, Buffered, Rem, Datagrams, NextHeader, TransmitAll;
    WritePacketKeeps(n, payload);
    WriteHolds(n, payload, |n.log.written|);
    DatagramsNonEmpty(n.e.config, NextHeader(n.e), payload);
    NumberIs(n);
    TransmitHolds(Assign(n, payload), n.e.sn, Datagrams(n.e.config, NextHeader(n.e), payload));
  }

  /** The send loop with something due leaves its time as that of the last sending; due entries are
      sent and the others stay. */
  lemma {:induction false} SendDue(config: Config, n: Node, written: nat, lastSent: real, time: real, s: u16)
    requires Young(config, n, written, lastSent) && s < written <= config.recvPacketBufferSize
    requires Due(n.ch.value, time, s)
    ensures var r := Keepalive(Retransmit(n, time), time);
      && Young(config, r, written, time)
      && r.ch.value.window.slots == n.ch.value.window.slots
      && r.ch.value.window.At(s).written && r.ch.value.window.At(s).time == time
      && forall x: u16 :: n.ch.value.window.Has(x) && !Due(n.ch.value, time, x) ==>
           r.ch.value.window.At(x) == n.ch.value.window.At(x)
  {
    hide Good, AppWrites, Rem, EmptyRing, EmitUpTo, DueBuffers;
    var c, turns := n.ch.value, config.recvPacketBufferSize + 1;
    EmitExact(c, time, turns);
    DueSome(c, time, turns, s);
    RetransmitSound(n, time);
    RetransmitBeside(n, time);
  }

  /** Nothing due: the send loop does nothing. */
  lemma {:induction false} SendNothing(n: Node, time: real, k: nat)
    requires n.Shape() && n.ch.Some?
    requires forall x: u16 :: !Due(n.ch.value, time, x)
    ensures EmitUpTo(n.ch.value, time, k) == n.ch.value
  {
    hide Ahead, Rem;
    if k > 0 {
      SendNothing(n, time, k - 1);
      assert !Due(n.ch.value, time, Ahead(n.ch.value.oldestUnacked, k - 1));
    }
  }

  lemma NoInput(n: Node)
    requires n.Shape() && n.ch.Some?
    ensures ReadAll(n, [], []) == (n, 0, true) && SubmitAll(n, []) == n
  {
  }

  lemma TickYoung(config: Config, n: Node, written: nat, lastSent: real, time: real)
    requires Young(config, n, written, lastSent)
    ensures Young(config, Protocol.Tick(n, time), written, lastSent)
  {
    hide Good, AppWrites, Rem, EmptyRing;
    TimeOnly(n, time);
  }

  /** Written and then sent: what was held and not due stays as it was. */
  lemma {:induction false} WriteAndSend(config: Config, n: Node, written: nat, lastSent: real, time: real)
    requires Young(config, n, written, lastSent) && written < config.recvPacketBufferSize
    ensures var r := Keepalive(Retransmit(SubmitAll(n, [[]]), time), time);
      && Young(config, r, written + 1, time)
      && r.ch.value.window.Has(written)
      && r.ch.value.window.At(written).written && r.ch.value.window.At(written).time == time
      && forall x: u16 :: r.ch.value.window.Has(x) && x != written && !Due(n.ch.value, time, x) ==>
           n.ch.value.window.Has(x) && r.ch.value.window.At(x) == n.ch.value.window.At(x)
  {
    hide Young, SubmitAll, Retransmit, Keepalive, Rem;
    YoungSound(config, n, written, lastSent);
    OneMore(config, n, written, lastSent);
    var b := SubmitAll(n, [[]]);
    SendDue(config, b, written + 1, lastSent, time, written);
    HasBySlots(b.ch.value, Keepalive(Retransmit(b, time), time).ch.value);
  }

  /** A call that only writes: its payload is sent at once. */
  lemma {:induction false} WritingCall(config: Config, n: Node, written: nat, lastSent: real, time: real)
    requires Young(config, n, written, lastSent) && written < config.recvPacketBufferSize
    ensures Legal(config, Call(time, [], [], [[]]))
    ensures Answer(n, Call(time, [], [], [[]])).0 ==
      Keepalive(Retransmit(SubmitAll(Protocol.Tick(n, time), [[]]), time), time)
    ensures Young(config, Protocol.Tick(n, time), written, lastSent)
  {
    hide Young, SubmitAll, ReadAll, Retransmit, Keepalive;
    YoungSound(config, n, written, lastSent);
    AnswerIs(n, Call(time, [], [], [[]]));
    TickYoung(config, n, written, lastSent, time);
    NoInput(Protocol.Tick(n, time));
  }

  lemma YoungSound(config: Config, n: Node, written: nat, lastSent: real)
    requires Young(config, n, written, lastSent)
    ensures Sound(n) && n.e.config == config && written == |n.log.written|
  {
  }

  lemma HasBySlots(b: ChannelState, c: ChannelState)
    requires b.window.WellFormed() && c.window.WellFormed() && b.window.slots == c.window.slots
    ensures forall s: u16 :: b.window.Has(s) <==> c.window.Has(s)
  {
  }

  lemma StartYoung(config: Config)
    requires config.Valid() && config.recvPacketBufferSize <= config.sentPacketBufferSize
    ensures Young(config, NewNode(config, true), 0, 0.0)
  {
    hide Sound, IsCap;
    StartSound(config);
  }

  // ---------------------------------------------------------------- acknowledgements

  lemma {:induction false} EmptySet(n: Node, ack: u16, i: nat)
    requires n.Shape() && i <= 32
    ensures ProcessACKs(n, ack, 0, i) == n
    decreases 32 - i
  {
    hide Node.Shape;
    if i < 32 {
      EmptySet(n, ack, i + 1);
    }
  }

  /** The peer's packet arrives: its empty payload is recorded, then the one number acknowledged. */
  lemma {:induction false} AckArrives(config: Config, n: Node, written: nat, lastSent: real, ack: u16)
    requires Young(config, n, written, lastSent)
    ensures ReadAll(n, [AckDatagram(ack)], [[]]) == (AckOne(Record(n, 0, []), ack), 1, true)
  {
    hide Good, Encode, Decode, AckOne, AppWrites, Rem;
    var h := PacketHeader(0, ack, 1);
    EncodeSize(h);
    HeaderRoundTrip(h, []);
    assert AckDatagram(ack) + [] == AckDatagram(ack);
    FreshAccepts(config);
    var m := Record(n, 0, []);
    EmptySet(AckOne(m, ack), ack, 1);
    assert ProcessACKs(m, ack, 1, 0) == AckOne(m, ack);
    OneRead(n, AckDatagram(ack), []);
  }

  lemma OneRead(n: Node, b: bytes, p: bytes)
    requires n.Shape() && n.ch.Some? && 0 < |b|
    ensures ReadAll(n, [b], [p]) == (ReadPacket(n, b, p).0, 1, ReadPacket(n, b, p).1.Accepted?)
  {
    hide ReadPacket, Node.Shape;
    var none, others := [b][..0], [p][..0];
    assert none == [] && others == [] && ReadAll(n, none, others) == (n, 0, true);
  }

  lemma FreshAccepts(config: Config)
    requires config.Valid()
    ensures !EmptyRing(config.recvPacketBufferSize, RecvPacket(0.0, 0)).IsOutdated(0)
  {
  }

  lemma {:induction false} RecordSound(n: Node)
    requires Sound(n)
    ensures Sound(Record(n, 0, []))
  {
    hide Core, Coupled, Buffered, Windowed, Rem;
    RecordKeeps(n, 0, []);
  }

  /** The only packet written is acknowledged: oldest jumps R ahead. */
  lemma {:induction false} HeadAcked(config: Config, n: Node)
    requires Sound(n) && n.e.config == config && |n.log.written| == 1
    requires n.ch.value.oldest == 0 && n.ch.value.queue == []
    ensures var r, c := AckOne(n, 0), n.ch.value;
      && Sound(r) && r.e.config == config && |r.log.written| == 1 && r.e.recv == n.e.recv
      && r.ch.value.oldest == config.recvPacketBufferSize && r.ch.value.queue == []
      && r.ch.value.lastSent == c.lastSent
  {
    hide Good, AppWrites, Rem, Ahead;
    AckOneSound(n, 0);
    WindowMirrorsSent(n, 0);
    var c, r := n.ch.value, config.recvPacketBufferSize;
    var m := MarkAcked(n, 0);
    var window := c.window.Remove(0);
    NextHeldIs(window, 0, 1, r);
    var k := NextHeld(window, 0, 1, r);
    if k < r {
      StillHeld(c.window, 0, Ahead(0, k));
      NoneAhead(n, k);
    }
  }

  lemma StillHeld(window: Ring<BufferedPacket>, sn: u16, s: u16)
    requires window.WellFormed() && window.Remove(sn).Has(s)
    ensures window.Has(s)
  {
  }

  lemma {:induction false} NoneAhead(n: Node, k: nat)
    requires Good(n) && n.ch.Some? && |n.log.written| == 1 && 1 <= k < 0x8000
    ensures !n.ch.value.window.Has(Ahead(0, k))
  {
    hide Good, CounterOf, Rem;
    if n.ch.value.window.Has(Ahead(0, k)) {
      HeldCounter(n, Ahead(0, k));
    }
  }

  // ---------------------------------------------------------------- a packet passed over

  /** For every configuration: a payload is sent and acknowledged, and the next one, written before
      anything else, lies below oldest, held and never sent. */
  lemma {:induction false} PassedOverRun(config: Config) returns (states: seq<Node>, calls: seq<Call>)
    requires config.Valid() && config.recvPacketBufferSize <= config.sentPacketBufferSize
    ensures IsUpdateRun(config, states, calls) && PassedOver(states[|calls|], 1)
  {
    hide Young, Answer, Legal, Sound, IsCap, NewNode, IsUpdateRun, PassedOver;
    var first, second := Call(0.0, [], [], [[]]), Call(0.0, [AckDatagram(0)], [[]], [[]]);
    FirstCall(config, 0.0);
    var n1 := Answer(NewNode(config, true), first).0;
    YoungSound(config, n1, 1, 0.0);
    SecondCall(config, n1);
    var n2 := Answer(n1, second).0;
    TwoCalls(config, n1, n2, first, second);
    states, calls := [NewNode(config, true), n1, n2], [first, second];
  }

  lemma {:induction false} FirstCall(config: Config, time: real)
    requires config.Valid() && config.recvPacketBufferSize <= config.sentPacketBufferSize
    ensures var n, call := NewNode(config, true), Call(time, [], [], [[]]);
      && n.e.config == config && n.ch.Some? && Legal(config, call)
      && var r := Answer(n, call).0;
      && Young(config, r, 1, time)
      && r.ch.value.window.Has(0) && r.ch.value.window.At(0).written && r.ch.value.window.At(0).time == time
  {
    hide Young, SubmitAll, Answer, Retransmit, Keepalive, IsCap;
    var n := NewNode(config, true);
    StartYoung(config);
    YoungSound(config, n, 0, 0.0);
    WritingCall(config, n, 0, 0.0, time);
    WriteAndSend(config, Protocol.Tick(n, time), 0, 0.0, time);
  }

  lemma TwoCalls(config: Config, n1: Node, n2: Node, first: Call, second: Call)
    requires config.Valid() && config.recvPacketBufferSize <= config.sentPacketBufferSize
    requires Legal(config, first) && Legal(config, second) && first.time <= second.time
    requires n1 == Answer(NewNode(config, true), first).0 && n1.e.config == config
    requires n2 == Answer(n1, second).0 && n2.e.config == config
    ensures IsUpdateRun(config, [NewNode(config, true), n1, n2], [first, second])
  {
    hide Answer, Legal, IsCap, Node.Shape;
    var states := [NewNode(config, true), n1, n2];
    assert forall i :: 0 <= i < 3 ==> states[i].Shape() && states[i].ch.Some? && states[i].e.config == config;
  }

  lemma {:induction false} SecondCall(config: Config, n: Node)
    requires Young(config, n, 1, 0.0)
    ensures var call := Call(0.0, [AckDatagram(0)], [[]], [[]]);
      Legal(config, call) &&
      var r := Answer(n, call).0;
      r.e.config == config && PassedOver(r, 1)
  {
    hide Young, AckOne, ReadAll, SubmitAll, Submit, Retransmit, Keepalive, Sound, Record;
    var call := Call(0.0, [AckDatagram(0)], [[]], [[]]);
    YoungSound(config, n, 1, 0.0);
    AnswerIs(n, call);
    var m := Protocol.Tick(n, 0.0);
    TickYoung(config, n, 1, 0.0, 0.0);
    AckArrives(config, m, 1, 0.0, 0);
    AckedThenWritten(config, m);
    OneTurn(AckOne(Record(m, 0, []), 0), []);
  }

  lemma {:induction false} AckedThenWritten(config: Config, n: Node)
    requires Young(config, n, 1, 0.0)
    ensures var m := Submit(AckOne(Record(n, 0, []), 0), []);
      var r := Keepalive(Retransmit(m, 0.0), 0.0);
      r.e.config == config && PassedOver(r, 1)
  {
    hide Good, AckOne, WritePacket, Retransmit, AppWrites, Rem, EmptyRing, DueBuffers, Distance, CounterOf;
    RecordSound(n);
    HeadAcked(config, Record(n, 0, []));
    var a := AckOne(Record(n, 0, []), 0);
    FullIs(a);
    SubmitSoundIff(a, []);
    var b := a.(ch := Some(a.ch.value.(taken := a.ch.value.taken + [[]])));
    TakenOnly(a, []);
    WrittenFresh(b, []);
    var m := Submit(a, []);
    assert m == WritePacket(b, []);
    CounterUnique(2, 1);
    BelowOldestNotSent(m, 0.0, 1);
    RetransmitExact(m, 0.0);
    RetransmitBeside(m, 0.0);
    HasBySlots(m.ch.value, Retransmit(m, 0.0).ch.value);
  }

  // ---------------------------------------------------------------- a clock that goes back

  /** Why the clock must not go back: with R = 2 the first packet is sent at 10 s, the second at 0 s and
      acknowledged alone; at 0.1 s the first is not due for another 10 s, and a keepalive is written
      into the full window. */
  lemma {:induction false} ClockBackRun(config: Config) returns (states: seq<Node>, calls: seq<Call>)
    requires config.Valid() && config.recvPacketBufferSize == 2
    ensures IsCalled(config, states, calls) && !ClockForward(calls)
    ensures var n := states[|calls|]; |n.log.written| == n.ch.value.oldest + config.recvPacketBufferSize + 1
  {
    hide Young, Answer, Legal, Sound, NewNode, IsCalled, Rem;
    calls := [Call(10.0, [], [], [[]]), Call(0.0, [], [], [[]]), Call(0.1, [AckDatagram(1)], [[]], [])];
    assert calls[1].time < calls[0].time;
    FirstCall(config, 10.0);
    var n1 := Answer(NewNode(config, true), calls[0]).0;
    YoungSound(config, n1, 1, 10.0);
    EarlierCall(config, n1);
    var n2 := Answer(n1, calls[1]).0;
    YoungSound(config, n2, 2, 0.0);
    FullCall(config, n2);
    states := [NewNode(config, true), n1, n2, Answer(n2, calls[2]).0];
    assert IsCalled(config, states, calls) by { ThreeCalls(config, states, calls); }
  }

  lemma ThreeCalls(config: Config, states: seq<Node>, calls: seq<Call>)
    requires config.Valid() && config.recvPacketBufferSize == 2 <= config.sentPacketBufferSize
    requires |calls| == 3 && |states| == 4 && states[0] == NewNode(config, true)
    requires forall i :: 0 <= i < 4 ==> states[i].Shape() && states[i].ch.Some? && states[i].e.config == config
    requires Legal(config, calls[0]) && Legal(config, calls[1]) && Legal(config, calls[2])
    requires states[1] == Answer(states[0], calls[0]).0 && states[2] == Answer(states[1], calls[1]).0
    requires states[3] == Answer(states[2], calls[2]).0
    ensures IsCalled(config, states, calls)
  {
    hide Answer, Legal, IsCap, Node.Shape;
  }

  /** The head was sent at 10 s. */
  ghost predicate HeadAhead(n: Node)
    requires n.Shape() && n.ch.Some?
  {
    n.ch.value.window.Has(0) && n.ch.value.window.At(0).written && n.ch.value.window.At(0).time == 10.0
  }

  lemma {:induction false} EarlierCall(config: Config, n: Node)
    requires Young(config, n, 1, 10.0) && config.recvPacketBufferSize == 2 && HeadAhead(n)
    ensures var call := Call(0.0, [], [], [[]]);
      Legal(config, call) &&
      var r := Answer(n, call).0;
      Young(config, r, 2, 0.0) && HeadAhead(r) && r.ch.value.window.Has(1)
  {
    hide Young, SubmitAll, Answer, Retransmit, Keepalive, Rem, Sound;
    YoungSound(config, n, 1, 10.0);
    WritingCall(config, n, 1, 10.0, 0.0);
    var m := Protocol.Tick(n, 0.0);
    YoungSound(config, m, 1, 10.0);
    WriteAndSend(config, m, 1, 10.0, 0.0);
    HeadHeld(config, Answer(n, Call(0.0, [], [], [[]])).0, 2, 0.0);
  }

  lemma HeadHeld(config: Config, n: Node, written: nat, lastSent: real)
    requires Young(config, n, written, lastSent) && 0 < written
    ensures n.ch.value.window.Has(0)
  {
    hide Good, AppWrites, Rem, EmptyRing;
  }

  lemma {:induction false} FullCall(config: Config, n: Node)
    requires Young(config, n, 2, 0.0) && config.recvPacketBufferSize == 2
    requires HeadAhead(n) && n.ch.value.window.Has(1)
    ensures var call := Call(0.1, [AckDatagram(1)], [[]], []);
      Legal(config, call) &&
      var r := Answer(n, call).0;
      && r.Shape() && r.ch.Some? && r.e.config == config
      && |r.log.written| == r.ch.value.oldest + config.recvPacketBufferSize + 1
  {
    hide Young, AckOne, ReadAll, SubmitAll, Retransmit, Keepalive, Sound, Record;
    var call := Call(0.1, [AckDatagram(1)], [[]], []);
    YoungSound(config, n, 2, 0.0);
    AnswerIs(n, call);
    var m := Protocol.Tick(n, 0.1);
    TickYoung(config, n, 2, 0.0, 0.1);
    AckArrives(config, m, 2, 0.0, 1);
    SecondAckedThenIdle(config, m);
    NoInput(AckOne(Record(m, 0, []), 1));
  }

  lemma {:induction false} SecondAckedThenIdle(config: Config, n: Node)
    requires Young(config, n, 2, 0.0) && config.recvPacketBufferSize == 2
    requires HeadAhead(n) && n.ch.value.window.Has(1)
    ensures var a := AckOne(Record(n, 0, []), 1);
      var r := Keepalive(Retransmit(a, 0.1), 0.1);
      && r.e.config == config && r.ch.Some?
      && |r.log.written| == r.ch.value.oldest + config.recvPacketBufferSize + 1
  {
    hide Good, WritePacket, EmitUpTo, AppWrites, Rem, EmptyRing, Windowed, AckOne;
    RecordSound(n);
    SecondAcked(config, Record(n, 0, []));
    var a := AckOne(Record(n, 0, []), 1);
    forall x: u16 ensures !Due(a.ch.value, 0.1, x) {
      if a.ch.value.window.Has(x) {
        HeldOfTwo(a, x);
      }
    }
    SendNothing(a, 0.1, 3);
    assert Retransmit(a, 0.1) == a;
    KeepaliveWrites(a, 0.1);
    ConfigOfKeepalive(a, 0.1);
  }

  lemma ConfigOfKeepalive(n: Node, time: real)
    requires n.Shape() && n.ch.Some?
    ensures Keepalive(n, time).e.config == n.e.config
  {
    hide Follows, Keepalive;
    KeepaliveFollows(n, time);
    FollowsConfig(n, Keepalive(n, time));
  }

  lemma {:induction false} HeldOfTwo(n: Node, x: u16)
    requires Good(n) && n.ch.Some? && |n.log.written| == 2 && n.ch.value.window.Has(x)
    ensures x < 2
  {
    hide Good, CounterOf, Rem;
    HeldCounter(n, x);
  }

  /** The second of two packets is acknowledged alone: it leaves the window and nothing moves. */
  lemma {:induction false} SecondAcked(config: Config, n: Node)
    requires Sound(n) && n.e.config == config && |n.log.written| == 2
    requires n.ch.value.oldest == 0 && n.ch.value.window.Has(1) && n.ch.value.lastSent == 0.0
    requires HeadAhead(n)
    ensures var r, c := AckOne(n, 1), n.ch.value;
      && Sound(r) && r.e.config == config && |r.log.written| == 2
      && r.ch.value.oldest == 0 && r.ch.value.lastSent == 0.0
      && HeadAhead(r) && !r.ch.value.window.Has(1)
  {
    hide Good, AppWrites, Rem, Accounted;
    AckOneSound(n, 1);
    WindowMirrorsSent(n, 1);
    assert n.ch.value.oldestUnacked == 0;
    var m := MarkAcked(n, 1);
    assert AckOne(n, 1) == m.(ch := Some(n.ch.value.(window := n.ch.value.window.Remove(1))));
    OthersStay(n.ch.value.window, 1, 0);
  }

  lemma OthersStay(window: Ring<BufferedPacket>, sn: u16, s: u16)
    requires window.WellFormed() && window.Has(sn) && window.Has(s) && s != sn
    ensures window.Remove(sn).Has(s) && !window.Remove(sn).Has(sn)
  {
    hide Rem;
  }
}
