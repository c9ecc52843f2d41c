/** What holds in every state of every run of Channel.Update, whatever arrives: the send window, its
    head, and the packets that are never sent. */
module UpdateRuns {
  import opened Words
  import opened Rings
  import opened Protocol
  import opened History
  import opened Sliding
  import opened Retransmission
  import opened Updates

  /** A run of a fresh channel: states[i + 1] is what calls[i] makes of states[i]. */
  ghost predicate IsCalled(config: Config, states: seq<Node>, calls: seq<Call>)
    ensures IsCalled(config, states, calls) ==>
      |states| == |calls| + 1 && forall i :: 0 <= i < |states| ==> states[i].Shape() && states[i].ch.Some?
  {
    && config.Valid() && config.recvPacketBufferSize <= config.sentPacketBufferSize
    && |states| == |calls| + 1 && states[0] == NewNode(config, true)
    && (forall i :: 0 <= i < |states| ==>
          states[i].Shape() && states[i].ch.Some? && states[i].e.config == config)
    && forall i :: 0 <= i < |calls| ==> Legal(config, calls[i]) && states[i + 1] == Answer(states[i], calls[i]).0
  }

  ghost predicate ClockForward(calls: seq<Call>) {
    forall i, j :: 0 <= i < j < |calls| ==> calls[i].time <= calls[j].time
  }

  /** ... by a caller whose clock does not go back. */
  ghost predicate IsUpdateRun(config: Config, states: seq<Node>, calls: seq<Call>)
    ensures IsUpdateRun(config, states, calls) ==> IsCalled(config, states, calls)
  {
    IsCalled(config, states, calls) && ClockForward(calls)
  }

  lemma StartTimely(config: Config, t: real)
    requires config.Valid()
    ensures Timely(NewNode(config, true), t)
  {
    hide IsCap;
  }

  lemma {:induction false} StartSound(config: Config)
    requires config.Valid() && config.recvPacketBufferSize <= config.sentPacketBufferSize
    ensures Sound(NewNode(config, true))
  {
    hide Good;
    NewNodeGood(config, true);
  }

  lemma {:induction false} RunSound(config: Config, states: seq<Node>, calls: seq<Call>, i: nat)
    requires IsUpdateRun(config, states, calls) && i < |states|
    ensures Sound(states[i])
    ensures i < |calls| ==> Timely(states[i], calls[i].time)
  {
    hide Sound, Timely, Answer, Legal;
    if i == 0 {
      StartSound(config);
      if 0 < |calls| {
        StartTimely(config, calls[0].time);
      }
    } else {
      RunSound(config, states, calls, i - 1);
      var n, r := states[i - 1], states[i];
      UpdateSound(n, calls[i - 1].time, calls[i - 1]);
      if i < |calls| {
        TimelyLater(r, calls[i - 1].time, calls[i].time);
      }
    }
  }

  lemma TimelyLater(n: Node, t: real, t': real)
    requires n.Shape() && n.ch.Some? && Timely(n, t) && t <= t'
    ensures Timely(n, t')
  {
    hide Rem, Node.Shape;
  }

  /** The distance from oldest stays in (-R, R]; a backlog means a full window; no unacknowledged
      number from oldest on has left the window, and the oldest is there if it was written; the
      payloads taken have been written, in the order taken and each once, up to the backlog. */
  lemma {:induction false} SlidingWindowSafe(config: Config, states: seq<Node>, calls: seq<Call>, i: nat)
    requires IsUpdateRun(config, states, calls) && i < |states|
    ensures var n, c, r := states[i], states[i].ch.value, config.recvPacketBufferSize;
      && -1 * r < |n.log.written| - c.oldest <= r
      && (c.queue != [] ==> |n.log.written| == c.oldest + r)
      && (c.oldest < |n.log.written| ==> c.window.Has(c.oldestUnacked))
      && (forall k: nat :: c.oldest <= k < |n.log.written| ==>
            (c.window.Has(Wrap16(k)) <==> k !in AckedSet(n.log.acked)))
      && AppWrites(n.log.written, c.keepalives) + c.queue == c.taken
  {
    hide Good, AppWrites, Rem, AckedSet, Answer, Legal;
    RunSound(config, states, calls, i);
    var n := states[i];
    forall k: nat | n.ch.value.oldest <= k < |n.log.written|
      ensures n.ch.value.window.Has(Wrap16(k)) <==> k !in AckedSet(n.log.acked)
    {
      NothingUnackedLost(n, k);
    }
  }

  /** After every call that accepted what it read, as long as anything from oldest on is written, the
      oldest packet is held and was sent less than 0.1 s ago, or is a keepalive that this call wrote
      because there was nothing else. */
  lemma {:induction false} HeadOfWindow(config: Config, states: seq<Node>, calls: seq<Call>, i: nat)
    requires IsUpdateRun(config, states, calls) && i < |calls|
    requires Answer(states[i], calls[i]).2
    ensures var n, c := states[i + 1], states[i + 1].ch.value;
      c.oldest < |n.log.written| ==>
        && c.window.Has(c.oldestUnacked)
        && (|| (c.window.At(c.oldestUnacked).written && calls[i].time - c.window.At(c.oldestUnacked).time < 0.1)
            || (c.oldest == |n.log.written| - 1 && c.oldest in c.keepalives - states[i].ch.value.keepalives))
  {
    hide Sound, Timely, Answer, Legal, Follows, BeforeSending, AfterReading, ClockForward;
    RunSound(config, states, calls, i);
    AnswerIs(states[i], calls[i]);
    BeforeSendingSound(states[i], calls[i]);
    BeforeSendingFollows(states[i], calls[i]);
    FollowsTimely(states[i], BeforeSending(states[i], calls[i]), calls[i].time, calls[i].time);
    HeadAfterSending(BeforeSending(states[i], calls[i]), calls[i].time);
    KeepalivesWritten(states[i]);
    FollowsWritten(states[i], BeforeSending(states[i], calls[i]));
  }

  lemma KeepalivesWritten(n: Node)
    requires Sound(n)
    ensures KeepalivesEmpty(n.log.written, n.ch.value.keepalives)
  {
    hide Good, AppWrites, Rem;
  }

  /** A keepalive carries nothing: the peer's application is handed no bytes it was not sent. */
  lemma {:induction false} KeepalivesCarryNothing(
    config: Config, states: seq<Node>, calls: seq<Call>, i: nat, k: nat)
    requires IsUpdateRun(config, states, calls) && i < |states| && k in states[i].ch.value.keepalives
    ensures k < |states[i].log.written| && states[i].log.written[k].payload == []
  {
    hide Sound, Answer, Legal, ClockForward;
    RunSound(config, states, calls, i);
    KeepalivesWritten(states[i]);
  }

  lemma FollowsWritten(n: Node, r: Node)
    requires n.Shape() && n.ch.Some? && Follows(n, r)
    ensures |n.log.written| <= |r.log.written|
  {
    hide Node.Shape;
  }

  lemma {:induction false} HeadAfterSending(n: Node, time: real)
    requires Sound(n) && Timely(n, time)
    ensures var r := Keepalive(Retransmit(n, time), time);
      var c := r.ch.value;
      c.oldest < |r.log.written| ==>
        && c.window.Has(c.oldestUnacked)
        && (|| (c.window.At(c.oldestUnacked).written && time - c.window.At(c.oldestUnacked).time < 0.1)
            || (c.oldest == |n.log.written| == |r.log.written| - 1 && c.oldest in c.keepalives))
  {
    hide Good, Timely, Retransmit, WritePacket, AppWrites, Rem;
    var m := Retransmit(n, time);
    SendingSound(n, time);
    RetransmitBeside(n, time);
    if n.ch.value.oldest < |n.log.written| {
      HeadIsSent(n, time);
      NoSilence(n, time);
    } else if time - m.ch.value.lastSent >= 0.1 {
      RetransmitSound(n, time);
      KeepaliveWrites(m, time);
    }
  }

  /** After 0.1 s without a sending one empty packet is written, and counted as a keepalive; before, nothing
      happens at all. */
  lemma {:induction false} KeepaliveWrites(n: Node, time: real)
    requires Good(n) && n.ch.Some?
    ensures var r, written := Keepalive(n, time), |n.log.written|;
      if time - n.ch.value.lastSent < 0.1 then r == n
      else
        && |r.log.written| == written + 1 && r.log.written[..written] == n.log.written
        && r.log.written[written].payload == [] && r.log.processed == n.log.processed
        && r.ch.value == n.ch.value.(window := r.ch.value.window, keepalives := n.ch.value.keepalives + {written})
  {
    hide Good, WritePacket, NextHeader;
    if time - n.ch.value.lastSent >= 0.1 {
      KeepaliveCounted(n);
      WritePacketKeeps(n.(ch := Some(n.ch.value.(keepalives := n.ch.value.keepalives + {|n.log.written|}))), []);
    }
  }

  // ---------------------------------------------------------------- packets that are never sent

  /** Write number c lies below oldest, and has not been sent as far as it is still held under s. */
  ghost predicate Unsent(n: Node, s: u16, c: nat)
    requires n.Shape() && n.ch.Some?
  {
    && c < |n.log.written| && c < n.ch.value.oldest
    && (n.ch.value.window.Has(s) && CounterOf(|n.log.written|, s) == c ==> !n.ch.value.window.At(s).written)
  }

  /** A counter named after more writes was already named when it had been written. */
  lemma {:induction false} CounterBefore(early: nat, late: nat, s: u16, c: nat)
    requires c < early <= late && CounterOf(late, s) == c
    ensures CounterOf(early, s) == c
  {
    hide Last;
    CounterWraps(late, s);
    CounterUnique(early, c);
  }

  lemma {:induction false} UnsentFollows(n: Node, r: Node, s: u16, c: nat)
    requires n.Shape() && n.ch.Some? && Follows(n, r) && Unsent(n, s, c)
    ensures Unsent(r, s, c)
  {
    hide CounterOf, Rem, Node.Shape;
    if CounterOf(|r.log.written|, s) == c {
      CounterBefore(|n.log.written|, |r.log.written|, s, c);
    }
  }

  lemma {:induction false} UnsentRetransmit(n: Node, time: real, s: u16, c: nat)
    requires Sound(n) && Unsent(n, s, c)
    ensures Unsent(Retransmit(n, time), s, c)
  {
    hide Good, Windowed, CounterOf, Rem, Retransmit, Distance, DueBuffers;
    RetransmitBeside(n, time);
    RetransmitExact(n, time);
    if n.ch.value.window.Has(s) && CounterOf(|n.log.written|, s) == c {
      BelowOldestNotSent(n, time, s);
    }
  }

  lemma {:induction false} UnsentAnswer(n: Node, call: Call, s: u16, c: nat)
    requires Sound(n) && Legal(n.e.config, call) && Unsent(n, s, c)
    ensures Unsent(Answer(n, call).0, s, c)
  {
    hide Sound, Unsent, Follows, Answer, AfterReading, BeforeSending, Retransmit, Keepalive, Legal;
    AnswerIs(n, call);
    BeforeSendingSound(n, call);
    BeforeSendingFollows(n, call);
    UnsentFollows(n, AfterReading(n, call).0, s, c);
    UnsentFollows(n, BeforeSending(n, call), s, c);
    if Answer(n, call).2 {
      var m := Retransmit(BeforeSending(n, call), call.time);
      UnsentRetransmit(BeforeSending(n, call), call.time, s, c);
      KeepaliveFollows(m, call.time);
      UnsentFollows(m, Answer(n, call).0, s, c);
    }
  }

  lemma {:induction false} StaysUnsent(
    config: Config, states: seq<Node>, calls: seq<Call>, i: nat, j: nat, s: u16, c: nat)
    requires IsUpdateRun(config, states, calls) && i <= j < |states| && Unsent(states[i], s, c)
    ensures Unsent(states[j], s, c)
  {
    hide Unsent, Answer, Legal, ClockForward, Sound;
    if i < j {
      StaysUnsent(config, states, calls, i, j - 1, s, c);
      RunSound(config, states, calls, j - 1);
      UnsentAnswer(states[j - 1], calls[j - 1], s, c);
    }
  }

  /** Write number c lies below oldest, and is held and not sent yet. */
  ghost predicate PassedOver(n: Node, c: nat)
    requires n.Shape() && n.ch.Some?
  {
    && c < |n.log.written| && c < n.ch.value.oldest && CounterOf(|n.log.written|, Wrap16(c)) == c
    && n.ch.value.window.Has(Wrap16(c)) && !n.ch.value.window.At(Wrap16(c)).written
  }
}
