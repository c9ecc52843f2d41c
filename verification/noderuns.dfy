/** One node on its own, whatever arrives: runs of local operations and of arbitrary bytes received,
    forged or garbled ones included. */
module NodeRuns {
  import opened Words
  import opened Rings
  import opened Protocol
  import opened History
  import opened Acknowledge
  import opened Network
  import opened Sliding

  datatype Event = Receive(buf: bytes, pooled: bytes) | Local(op: Op)

  ghost predicate Possible(n: Node, event: Event)
    requires n.Shape()
  {
    match event
    case Receive(buf, _) => 0 < |buf|
    case Local(op) => Enabled(n, op)
  }

  function React(n: Node, event: Event): (r: Node)
    requires n.Shape() && Possible(n, event)
    ensures r.Shape() && r.ch.Some? == n.ch.Some?
  {
    match event
    case Receive(buf, pooled) => ReadPacket(n, buf, pooled).0
    case Local(op) => Perform(n, op)
  }

  /** The states that these events lead through. */
  ghost predicate Path(states: seq<Node>, events: seq<Event>)
    ensures Path(states, events) ==> |states| == |events| + 1 && forall i :: 0 <= i < |states| ==> states[i].Shape()
  {
    && |states| == |events| + 1 && (forall i :: 0 <= i < |states| ==> states[i].Shape())
    && forall i :: 0 <= i < |events| ==> Possible(states[i], events[i]) && states[i + 1] == React(states[i], events[i])
  }

  ghost predicate IsNodeRun(config: Config, channel: bool, states: seq<Node>, events: seq<Event>) {
    config.Valid() && Path(states, events) && states[0] == NewNode(config, channel)
  }

  lemma {:induction false} ReactKeeps(n: Node, event: Event)
    requires Good(n) && Possible(n, event)
    ensures Good(React(n, event)) && React(n, event).e.config == n.e.config
  {
    hide Good, ReadPacket, Perform, Enabled;
    match event
    case Receive(buf, pooled) => ReadPacketKeeps(n, buf, pooled);
    case Local(op) => PerformKeeps(n, op);
  }

  lemma {:induction false} NodeRunGood(config: Config, channel: bool, states: seq<Node>, events: seq<Event>, i: nat)
    requires IsNodeRun(config, channel, states, events) && i < |states|
    ensures Good(states[i]) && states[i].e.config == config && states[i].ch.Some? == channel
  {
    hide Good, React, Possible;
    if i == 0 {
      NewNodeGood(config, channel);
    } else {
      NodeRunGood(config, channel, states, events, i - 1);
      ReactKeeps(states[i - 1], events[i - 1]);
    }
  }

  // ---------------------------------------------------------------- what holds in every state

  /** ACK calls are about distinct writes, each among the last cap when it fired; and a write still
      in the sent buffer is marked acknowledged exactly when its call was made. */
  ghost predicate AckedOnce(n: Node)
    requires n.Shape()
  {
    var acked, written := n.log.acked, |n.log.written|;
    && (forall k :: 0 <= k < |acked| ==>
          acked[k].at <= written && 0 <= AckCounter(acked[k]) && acked[k].at - n.e.sent.Cap() <= AckCounter(acked[k]))
    && (forall j, k :: 0 <= j < k < |acked| ==> AckCounter(acked[j]) != AckCounter(acked[k]))
    && forall s: u16 :: n.e.sent.Has(s) ==>
         (n.e.sent.At(s).acked <==> exists k :: 0 <= k < |acked| && AckCounter(acked[k]) == CounterOf(written, s))
  }

  /** At most once per write, whatever acknowledgements arrive. */
  lemma {:induction false} AckAtMostOnce(config: Config, channel: bool, states: seq<Node>, events: seq<Event>, i: nat)
    requires IsNodeRun(config, channel, states, events) && i < |states|
    ensures AckedOnce(states[i])
  {
    hide Good, React;
    NodeRunGood(config, channel, states, events, i);
    GoodAckedOnce(states[i]);
  }

  lemma {:induction false} GoodAckedOnce(n: Node)
    requires Good(n)
    ensures AckedOnce(n)
  {
    hide AckCounter, CounterOf, Sequential, Rem;
    var acked, written := n.log.acked, |n.log.written|;
    FiredDistinct(acked, n.e.sent.Cap(), written);
    forall s: u16 | n.e.sent.Has(s)
      ensures n.e.sent.At(s).acked <==> exists k :: 0 <= k < |acked| && AckCounter(acked[k]) == CounterOf(written, s)
    {
      SequentialFind(n.e.sent, written, s);
      AckedSetIs(acked, CounterOf(written, s));
    }
  }

  lemma {:induction false} AckedSetIs(acked: seq<Ack>, c: int)
    ensures c in AckedSet(acked) <==> exists k :: 0 <= k < |acked| && AckCounter(acked[k]) == c
  {
    hide AckCounter;
    if acked != [] {
      var before := acked[..|acked| - 1];
      AckedSetIs(before, c);
      if k :| 0 <= k < |before| && AckCounter(before[k]) == c {
        assert AckCounter(acked[k]) == c;
      }
      if k :| 0 <= k < |acked| && AckCounter(acked[k]) == c {
        assert k == |acked| - 1 || AckCounter(before[k]) == c;
      }
    }
  }

  lemma {:induction false} FiredDistinct(acked: seq<Ack>, cap: nat, now: nat)
    requires FiredOnce(acked, cap, now)
    ensures forall k :: 0 <= k < |acked| ==>
      acked[k].at <= now && 0 <= AckCounter(acked[k]) && acked[k].at - cap <= AckCounter(acked[k])
    ensures forall j, k :: 0 <= j < k < |acked| ==> AckCounter(acked[j]) != AckCounter(acked[k])
  {
    hide AckCounter;
    if acked != [] {
      var before, a := acked[..|acked| - 1], acked[|acked| - 1];
      FiredDistinct(before, cap, a.at);
      AckedSetIs(before, AckCounter(a));
      forall k | 0 <= k < |before| ensures acked[k] == before[k] && AckCounter(acked[k]) != AckCounter(a) {
      }
    }
  }

  /** After n accepted writes the sent buffer holds exactly the last min(n, cap) of them, for any n,
      and the next insert is not refused. */
  lemma {:induction false} SentHistoryExact(
    config: Config, channel: bool, states: seq<Node>, events: seq<Event>, i: nat, s: u16)
    requires IsNodeRun(config, channel, states, events) && i < |states|
    ensures var a, n := states[i], |states[i].log.written|;
      && !a.e.sent.IsOutdated(a.e.sn)
      && (a.e.sent.Has(s) <==> exists c :: 0 <= c < n && n - a.e.sent.Cap() <= c && Wrap16(c) == s)
  {
    hide Sequential, Rem, Last, React;
    NodeRunGood(config, channel, states, events, i);
    var a, n := states[i], |states[i].log.written|;
    SequentialStep(a.e.sent, n);
    SequentialFind(a.e.sent, n, s);
    if CounterOf(n, s) >= 0 {
      CounterWraps(n, s);
    }
    forall c | 0 <= c < n && n - a.e.sent.Cap() <= c && Wrap16(c) == s ensures c == CounterOf(n, s) {
      CounterUnique(n, c);
    }
  }

  /** The window mirrors the sent buffer: it holds what is there and not acknowledged. */
  lemma {:induction false} WindowMirrored(config: Config, states: seq<Node>, events: seq<Event>, i: nat, s: u16)
    requires IsNodeRun(config, true, states, events) && i < |states|
    ensures var n := states[i];
      && n.ch.Some? && n.ch.value.window.latest == n.e.sent.latest == n.e.sn
      && (n.ch.value.window.Has(s) <==> n.e.sent.Has(s) && !n.e.sent.At(s).acked)
  {
    hide Good, React;
    NodeRunGood(config, true, states, events, i);
    WindowMirrorsSent(states[i], s);
  }
}
