/** What the calls of Update put out, over whole runs: nothing but the datagrams kept for payloads from
    oldest on; so a packet that oldest has passed is never sent. */
module Emissions {
  import opened Words
  import opened Rings
  import opened Headers
  import opened Protocol
  import opened Reassembly
  import opened History
  import opened Network
  import opened Sliding
  import opened Retransmission
  import opened WindowBytes
  import opened Updates
  import opened UpdateRuns

  // ---------------------------------------------------------------- the window's bytes over runs of Update

  lemma {:induction false} ReadAllExact(n: Node, incoming: seq<bytes>, pooled: seq<bytes>)
    requires GoodExact(n) && n.ch.Some? && |pooled| == |incoming| && forall b :: b in incoming ==> 0 < |b|
    ensures GoodExact(ReadAll(n, incoming, pooled).0)
  {
    hide GoodExact, ReadPacket;
    if incoming != [] {
      var before, others := incoming[..|incoming| - 1], pooled[..|incoming| - 1];
      ReadAllExact(n, before, others);
      ReadPacketExact(ReadAll(n, before, others).0, incoming[|incoming| - 1], pooled[|incoming| - 1]);
    }
  }

  lemma {:induction false} SubmitAllExact(n: Node, outgoing: seq<bytes>)
    requires GoodExact(n) && n.ch.Some?
    ensures GoodExact(SubmitAll(n, outgoing))
  {
    hide GoodExact, Submit;
    if outgoing != [] {
      SubmitAllExact(n, outgoing[..|outgoing| - 1]);
      PerformExact(SubmitAll(n, outgoing[..|outgoing| - 1]), Queue(outgoing[|outgoing| - 1]));
    }
  }

  lemma {:induction false} AnswerExact(n: Node, call: Call)
    requires GoodExact(n) && n.ch.Some? && Legal(n.e.config, call)
    ensures GoodExact(BeforeSending(n, call)) && GoodExact(Answer(n, call).0)
  {
    hide GoodExact, ReadAll, SubmitAll, Retransmit, Keepalive, Answer;
    AnswerIs(n, call);
    PerformExact(n, Tick(call.time));
    ReadAllExact(Protocol.Tick(n, call.time), call.incoming, call.pooled);
    SubmitAllExact(AfterReading(n, call).0, call.outgoing);
    PerformExact(BeforeSending(n, call), Resend(call.time));
    PerformExact(Retransmit(BeforeSending(n, call), call.time), Idle(call.time));
  }

  lemma {:induction false} RunExact(config: Config, states: seq<Node>, calls: seq<Call>, i: nat)
    requires IsCalled(config, states, calls) && i < |states|
    ensures GoodExact(states[i])
  {
    hide GoodExact, Answer, Legal;
    if i == 0 {
      StartExact(config, true);
    } else {
      RunExact(config, states, calls, i - 1);
      AnswerExact(states[i - 1], calls[i - 1]);
    }
  }

  // ---------------------------------------------------------------- what a call sends

  /** The datagram kept for a payload from oldest on. */
  ghost predicate FromOldestOn(config: Config, written: seq<Protocol.Write>, oldest: nat, b: bytes)
    requires config.Valid()
  {
    exists k :: oldest <= k < |written| && b == Retained(config, written[k])
  }

  lemma {:induction false} DueIs(n: Node, time: real, k: nat, b: bytes)
    requires Sound(n) && Exact(n) && k <= n.e.config.recvPacketBufferSize + 1
    requires b in DueBuffers(n.ch.value, time, k)
    ensures FromOldestOn(n.e.config, n.log.written, n.ch.value.oldest, b)
  {
    hide Good, Rem, Retained, AppWrites, CounterOf, Distance, Ahead;
    var c, s := n.ch.value, Ahead(n.ch.value.oldestUnacked, k - 1);
    if Due(c, time, s) && b == c.window.At(s).buf {
      HeldCounter(n, s);
      DistanceAhead(c, k - 1);
      var counter := CounterOf(|n.log.written|, s);
      assert Keeps(n.e.config, n.log.written, s, b);
      if counter < c.oldest {
        BelowIsFar(c, counter, n.e.config.recvPacketBufferSize);
      }
    } else {
      DueIs(n, time, k - 1, b);
    }
  }

  /** A call puts out, behind what it has put out before, only datagrams kept for payloads from oldest
      on. */
  lemma {:induction false} CallSends(n: Node, call: Call)
    requires Sound(n) && Exact(n) && Legal(n.e.config, call)
    ensures var r := Answer(n, call).0;
      && n.ch.value.out <= r.ch.value.out && r.e.config == n.e.config && n.log.written <= r.log.written
      && forall b :: b in r.ch.value.out[|n.ch.value.out|..] ==>
           FromOldestOn(n.e.config, r.log.written, r.ch.value.oldest, b)
  {
    hide Sound, Exact, Follows, FromOldestOn, Answer, AfterReading, BeforeSending, Retransmit, Keepalive, Legal,
      DueBuffers, Distance;
    AnswerIs(n, call);
    BeforeSendingFollows(n, call);
    FollowsOut(n, AfterReading(n, call).0);
    FollowsOut(n, BeforeSending(n, call));
    if Answer(n, call).2 {
      var m := BeforeSending(n, call);
      var sent := DueBuffers(m.ch.value, call.time, m.e.config.recvPacketBufferSize + 1);
      BeforeSendingSound(n, call);
      GoodOf(n);
      BothExact(n);
      AnswerExact(n, call);
      ExactOf(m);
      RetransmitExact(m, call.time);
      RetransmitBeside(m, call.time);
      KeepaliveFollows(Retransmit(m, call.time), call.time);
      KeepaliveStays(Retransmit(m, call.time), call.time);
      FollowsOut(Retransmit(m, call.time), Answer(n, call).0);
      assert Answer(n, call).0.ch.value.out[|n.ch.value.out|..] == sent;
      forall b | b in sent
        ensures FromOldestOn(n.e.config, Answer(n, call).0.log.written, Answer(n, call).0.ch.value.oldest, b)
      {
        DueIs(m, call.time, m.e.config.recvPacketBufferSize + 1, b);
        FromMore(n.e.config, m.log.written, Answer(n, call).0.log.written, m.ch.value.oldest, b);
      }
    }
  }

  lemma BothExact(n: Node)
    requires Good(n) && Exact(n)
    ensures GoodExact(n)
  {
    hide Good, Exact;
  }

  lemma ExactOf(n: Node)
    requires GoodExact(n)
    ensures Exact(n)
  {
    hide Good, Exact;
  }

  lemma FollowsOut(n: Node, r: Node)
    requires n.Shape() && n.ch.Some? && Follows(n, r)
    ensures r.ch.value.out == n.ch.value.out && r.e.config == n.e.config && n.log.written <= r.log.written
  {
    hide Node.Shape;
  }

  lemma {:induction false} KeepaliveStays(n: Node, time: real)
    requires n.Shape() && n.ch.Some?
    ensures Keepalive(n, time).ch.value.oldest == n.ch.value.oldest
  {
    hide WritePacket;
    WriteMoves(n.(ch := Some(n.ch.value.(keepalives := n.ch.value.keepalives + {|n.log.written|}))), []);
  }

  lemma FromMore(config: Config, written: seq<Protocol.Write>, more: seq<Protocol.Write>, oldest: nat, b: bytes)
    requires config.Valid() && written <= more && FromOldestOn(config, written, oldest, b)
    ensures FromOldestOn(config, more, oldest, b)
  {
    hide Retained;
    var k :| oldest <= k < |written| && b == Retained(config, written[k]);
    assert more[k] == written[k];
  }

  // ---------------------------------------------------------------- packets that are never sent

  /** The wire number of a datagram: both formats have it behind the first byte. */
  function WireNumber(b: bytes): u16
    requires 3 <= |b|
  {
    Join16(b[1], b[2])
  }

  lemma {:induction false} RetainedNumber(config: Config, w: Protocol.Write)
    requires config.Valid()
    ensures 3 <= |Retained(config, w)| && WireNumber(Retained(config, w)) == w.header.sn
  {
    hide NumFragments, Chunk;
    DatagramsNonEmpty(config, w.header, w.payload);
    EncodeParts(w.header);
    AckRecovered(w.header);
  }

  /** b is no datagram of number c, as long as c's wire number has not been given to a later one. */
  ghost predicate NotOf(b: bytes, c: nat, written: nat) {
    written <= c + 0x1_0000 ==> 3 <= |b| && WireNumber(b) != Wrap16(c)
  }

  ghost predicate NoneOf(sent: seq<bytes>, c: nat, written: nat) {
    forall b :: b in sent ==> NotOf(b, c, written)
  }

  lemma {:induction false} OthersNumber(n: Node, b: bytes, c: nat)
    requires Good(n) && n.ch.Some? && c < n.ch.value.oldest
    requires FromOldestOn(n.e.config, n.log.written, n.ch.value.oldest, b)
    ensures NotOf(b, c, |n.log.written|)
  {
    hide Rem, SentOk, RecvOk, TransmittedOk, AcksOk, Coupled, Buffered, Retained, WireNumber;
    var k :| n.ch.value.oldest <= k < |n.log.written| && b == Retained(n.e.config, n.log.written[k]);
    RetainedNumber(n.e.config, n.log.written[k]);
    assert HeaderOk(n.log, k, n.e.config.maxPacketSize);
  }

  /** In every run each call sends only datagrams kept for payloads from oldest on. */
  lemma {:induction false} SendsFromOldestOn(config: Config, states: seq<Node>, calls: seq<Call>, i: nat)
    requires IsUpdateRun(config, states, calls) && i < |calls|
    ensures var n, r := states[i], states[i + 1];
      && n.ch.value.out <= r.ch.value.out
      && forall b :: b in r.ch.value.out[|n.ch.value.out|..] ==>
           FromOldestOn(config, r.log.written, r.ch.value.oldest, b)
  {
    hide Sound, GoodExact, Exact, Answer, Legal, ClockForward, FromOldestOn;
    RunSound(config, states, calls, i);
    RunExact(config, states, calls, i);
    ExactOf(states[i]);
    CallSends(states[i], calls[i]);
  }

  /** An accepted payload that is held and not yet sent when oldest has passed it is lost in silence. In
      every later state it is still held and still not sent, or an acknowledgement of it has come, or it
      has been pushed out by S later writes; and nothing put out in between is a datagram of it, as long
      as its wire number has not been given to a later one. */
  lemma {:induction false} PassedOverIsNeverSent(
    config: Config, states: seq<Node>, calls: seq<Call>, i: nat, j: nat, c: nat)
    requires IsUpdateRun(config, states, calls) && i <= j < |states|
    requires PassedOver(states[i], c)
    ensures PassedOver(states[j], c)
      || c in AckedSet(states[j].log.acked)
      || c < |states[j].log.written| - config.sentPacketBufferSize
    ensures states[i].ch.value.out <= states[j].ch.value.out
    ensures NoneOf(states[j].ch.value.out[|states[i].ch.value.out|..], c, |states[j].log.written|)
  {
    hide Sound, Answer, Legal, ClockForward, PassedOver, Unsent, NotOf, AckedSet;
    PassedUnsent(states[i], c);
    StaysUnsent(config, states, calls, i, j, Wrap16(c), c);
    RunSound(config, states, calls, j);
    UnsentFate(states[j], c);
    if i < j {
      PassedOverIsNeverSent(config, states, calls, i, j - 1, c);
      StaysUnsent(config, states, calls, i, j - 1, Wrap16(c), c);
      NothingOfIt(config, states, calls, j - 1, |states[i].ch.value.out|, c);
    }
  }

  lemma PassedUnsent(n: Node, c: nat)
    requires n.Shape() && n.ch.Some? && PassedOver(n, c)
    ensures Unsent(n, Wrap16(c), c)
  {
    hide Node.Shape, CounterOf, Rem;
  }

  lemma {:induction false} UnsentFate(n: Node, c: nat)
    requires Sound(n) && Unsent(n, Wrap16(c), c)
    ensures PassedOver(n, c) || c in AckedSet(n.log.acked) || c < |n.log.written| - n.e.config.sentPacketBufferSize
    ensures c < n.ch.value.oldest
  {
    hide Good, Windowed, CounterOf, Rem, AckedSet;
    if |n.log.written| - n.e.config.sentPacketBufferSize <= c {
      NothingUnackedLost(n, c);
      CounterUnique(|n.log.written|, c);
    }
  }

  /** One more call: if nothing of it was among what was put out since position from, nothing is now. */
  lemma {:induction false} NothingOfIt(
    config: Config, states: seq<Node>, calls: seq<Call>, i: nat, from: nat, c: nat)
    requires IsUpdateRun(config, states, calls) && i < |calls|
    requires Unsent(states[i + 1], Wrap16(c), c) && from <= |states[i].ch.value.out|
    requires NoneOf(states[i].ch.value.out[from..], c, |states[i].log.written|)
    ensures states[i].ch.value.out <= states[i + 1].ch.value.out
    ensures NoneOf(states[i + 1].ch.value.out[from..], c, |states[i + 1].log.written|)
  {
    hide Sound, Exact, GoodExact, Answer, Legal, ClockForward, FromOldestOn, NotOf, Retained;
    var n, r := states[i], states[i + 1];
    SendsFromOldestOn(config, states, calls, i);
    RunSound(config, states, calls, i);
    RunSound(config, states, calls, i + 1);
    RunExact(config, states, calls, i);
    ExactOf(n);
    CallSends(n, calls[i]);
    UnsentFate(r, c);
    forall b | b in r.ch.value.out[from..] ensures NotOf(b, c, |r.log.written|) {
      if b in n.ch.value.out[from..] {
        StillNot(b, c, |n.log.written|, |r.log.written|);
      } else {
        InTail(n.ch.value.out, r.ch.value.out, from, b);
        GoodOf(r);
        OthersNumber(r, b, c);
      }
    }
  }

  lemma GoodOf(n: Node)
    requires Sound(n)
    ensures Good(n)
  {
    hide Good, Windowed;
  }

  lemma StillNot(b: bytes, c: nat, written: nat, more: nat)
    requires NotOf(b, c, written) && written <= more
    ensures NotOf(b, c, more)
  {
  }

  lemma InTail(out: seq<bytes>, more: seq<bytes>, from: nat, b: bytes)
    requires out <= more && from <= |out| && b in more[from..] && b !in out[from..]
    ensures b in more[|out|..]
  {
    assert more[from..] == out[from..] + more[|out|..];
  }
}
