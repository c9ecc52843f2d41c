/** What the retransmit loop of Update sends, and that the head of the window is among it. */
module Retransmission {
  import opened Words
  import opened Serial
  import opened Rings
  import opened Protocol
  import opened History
  import opened Acknowledge
  import opened Sliding

  /** The loop condition on wire numbers admits exactly the R + 1 turns from oldest to oldest + R,
      wherever the numbers wrap. */
  lemma {:induction false} LoopTurns(oldest: u16, r: nat, k: nat)
    requires r < 0x8000 && k <= r + 1
    ensures SeqLTE(Ahead(oldest, k), Ahead(oldest, r)) <==> k <= r
  {
    hide SeqLTE;
    SeqFollowsCounters(oldest + k, oldest + r);
    if k == r + 1 && r == 0x7FFF {
      SeqHalfWay(oldest);
    }
  }

  /** Held, and not sent within the last 0.1 s. */
  predicate Due(c: ChannelState, time: real, s: u16)
    requires c.window.WellFormed()
  {
    c.window.Has(s) && !(c.window.At(s).written && time - c.window.At(s).time < 0.1)
  }

  /** The due packets among the first k numbers from oldest on, in that order. */
  function DueBuffers(c: ChannelState, time: real, k: nat): seq<bytes>
    requires c.window.WellFormed()
  {
    if k == 0 then []
    else
      var s := Ahead(c.oldestUnacked, k - 1);
      DueBuffers(c, time, k - 1) + if Due(c, time, s) then [c.window.At(s).buf] else []
  }

  /** How far s lies ahead of oldest, going up with the wrap. */
  function Distance(c: ChannelState, s: u16): u16 {
    Wrap16(s - c.oldestUnacked)
  }

  lemma DistanceAhead(c: ChannelState, k: nat)
    requires k < 0x1_0000
    ensures Distance(c, Ahead(c.oldestUnacked, k)) == k
  {
  }

  lemma DistanceInjective(c: ChannelState, s: u16, t: u16)
    requires Distance(c, s) == Distance(c, t)
    ensures s == t
  {
  }

  /** The first k turns send the due packets among those k numbers, each once and in order, and
      touch no other entry. */
  lemma {:induction false} EmitExact(c: ChannelState, time: real, k: nat)
    requires c.window.WellFormed() && k <= 0x1_0000
    ensures var d := EmitUpTo(c, time, k);
      && d.window.slots == c.window.slots
      && d.out == c.out + DueBuffers(c, time, k)
      && d.lastSent == (if DueBuffers(c, time, k) == [] then c.lastSent else time)
      && forall s: u16 :: c.window.Has(s) ==>
           d.window.At(s) ==
             if Distance(c, s) < k && Due(c, time, s) then c.window.At(s).(written := true, time := time)
             else c.window.At(s)
  {
    hide Rem, Distance, Ahead;
    if k > 0 {
      EmitExact(c, time, k - 1);
      DistanceAhead(c, k - 1);
      var d, t := EmitUpTo(c, time, k - 1), Ahead(c.oldestUnacked, k - 1);
      var e := EmitUpTo(c, time, k);
      assert e == Emit(d, time, t);
      forall s: u16 | c.window.Has(s)
        ensures e.window.At(s) ==
          if Distance(c, s) < k && Due(c, time, s) then c.window.At(s).(written := true, time := time)
          else c.window.At(s)
      {
        if s != t && Distance(c, s) == Distance(c, t) {
          DistanceInjective(c, s, t);
        }
      }
    }
  }

  /** After the loop every held number from oldest to oldest + R is marked written, with age below
      0.1 s; what was sent is exactly what was due, once and in order. */
  lemma {:induction false} RetransmitExact(n: Node, time: real)
    requires n.Shape() && n.ch.Some?
    ensures var c, d, turns := n.ch.value, Retransmit(n, time).ch.value, n.e.config.recvPacketBufferSize + 1;
      && d.window.slots == c.window.slots
      && d.out == c.out + DueBuffers(c, time, turns)
      && d.lastSent == (if DueBuffers(c, time, turns) == [] then c.lastSent else time)
      && (forall s: u16 :: c.window.Has(s) && Distance(c, s) < turns ==>
            d.window.At(s).written && time - d.window.At(s).time < 0.1)
      && forall s: u16 :: c.window.Has(s) && Distance(c, s) >= turns ==> d.window.At(s) == c.window.At(s)
  {
    hide Rem, Distance, DueBuffers, EmitUpTo;
    EmitExact(n.ch.value, time, n.e.config.recvPacketBufferSize + 1);
  }

  /** Sent already, less than 0.1 s ago. */
  predicate Recent(packet: BufferedPacket, time: real) {
    packet.written && time - packet.time < 0.1
  }

  /** The positions from oldest on, below k, whose packets are held and not recently sent, in order. */
  lemma {:induction false} DuePositions(c: ChannelState, time: real, k: nat) returns (ks: seq<nat>)
    requires c.window.WellFormed()
    ensures forall i, j :: 0 <= i < j < |ks| ==> ks[i] < ks[j]
    ensures forall x: nat :: x in ks <==>
      (x < k && c.window.Has(Ahead(c.oldestUnacked, x)) && !Recent(c.window.At(Ahead(c.oldestUnacked, x)), time))
    ensures DueBuffers(c, time, k) ==
      seq(|ks|, i requires 0 <= i < |ks| => c.window.At(Ahead(c.oldestUnacked, ks[i])).buf)
  {
    hide Rem, Ahead;
    ks := [];
    if k > 0 {
      ks := DuePositions(c, time, k - 1);
      assert forall i :: 0 <= i < |ks| ==> ks[i] in ks;
      if Due(c, time, Ahead(c.oldestUnacked, k - 1)) {
        ks := ks + [k - 1];
      }
    }
  }

  /** The loop in plain terms: of the R + 1 numbers from oldest on, exactly the packets held and not sent
      within the last 0.1 s are put out, in order and once each, and are marked sent now; no other packet
      changes, and lastSent only if something was sent. */
  lemma {:induction false} SentInOrder(n: Node, time: real) returns (ks: seq<nat>)
    requires n.Shape() && n.ch.Some?
    ensures forall i, j :: 0 <= i < j < |ks| ==> ks[i] < ks[j]
    ensures var c, d, r := n.ch.value, Retransmit(n, time).ch.value, n.e.config.recvPacketBufferSize;
      && (forall x: nat :: x in ks <==>
            (x <= r && c.window.Has(Ahead(c.oldestUnacked, x))
             && !Recent(c.window.At(Ahead(c.oldestUnacked, x)), time)))
      && d.out == c.out + seq(|ks|, i requires 0 <= i < |ks| => c.window.At(Ahead(c.oldestUnacked, ks[i])).buf)
      && d.lastSent == (if ks == [] then c.lastSent else time)
      && d.window.slots == c.window.slots
      && forall s: u16 :: c.window.Has(s) ==>
           d.window.At(s) ==
             if Wrap16(s - c.oldestUnacked) <= r && !Recent(c.window.At(s), time)
             then BufferedPacket(time, true, c.window.At(s).buf) else c.window.At(s)
  {
    hide Rem, DueBuffers, EmitUpTo, Ahead;
    ks := DuePositions(n.ch.value, time, n.e.config.recvPacketBufferSize + 1);
    EmitExact(n.ch.value, time, n.e.config.recvPacketBufferSize + 1);
  }

  /** Progress at the head: while anything from oldest on has been written, the oldest packet is in
      the window and an Update leaves it sent within the last 0.1 s. */
  lemma {:induction false} HeadIsSent(n: Node, time: real)
    requires Sound(n) && n.ch.value.oldest < |n.log.written|
    ensures var d := Retransmit(n, time).ch.value;
      && d.window.Has(n.ch.value.oldestUnacked)
      && d.window.At(n.ch.value.oldestUnacked).written
      && time - d.window.At(n.ch.value.oldestUnacked).time < 0.1
  {
    hide Good, Rem, Distance, DueBuffers, Retransmit, AppWrites;
    RetransmitExact(n, time);
    DistanceAhead(n.ch.value, 0);
  }

  /** A held packet with a counter below oldest, as the fallback of ACK leaves behind, is not touched
      by the loop, however far below. */
  lemma {:induction false} BelowOldestNotSent(n: Node, time: real, s: u16)
    requires Sound(n) && n.ch.value.window.Has(s) && CounterOf(|n.log.written|, s) < n.ch.value.oldest
    ensures Retransmit(n, time).ch.value.window.At(s) == n.ch.value.window.At(s)
  {
    hide Good, Rem, DueBuffers, Retransmit, AppWrites, Distance, CounterOf;
    RetransmitExact(n, time);
    HeldCounter(n, s);
    BelowIsFar(n.ch.value, CounterOf(|n.log.written|, s), n.e.config.recvPacketBufferSize);
  }

  /** Up to R + S below oldest, the wire number lies more than R ahead. */
  lemma BelowIsFar(c: ChannelState, k: nat, r: nat)
    requires c.oldestUnacked == Wrap16(c.oldest) && c.oldest - r - 0x4000 <= k < c.oldest && r <= 0x4000
    ensures Distance(c, Wrap16(k)) > r
  {
  }

  /** That state arises exactly by the fallback of ACK: oldest passes the next number to be written
      when the oldest packet is acknowledged, none of the R - 1 after it is held, and the window is
      not full. Otherwise oldest <= the number of payloads written. */
  lemma {:induction false} OvershootsIff(n: Node)
    requires Advancing(n)
    ensures var c, r := n.ch.value, n.e.config.recvPacketBufferSize;
      Advance(n).ch.value.oldest > |Advance(n).log.written| <==>
        && |n.log.written| < c.oldest + r
        && forall k :: 1 <= k < r ==> !c.window.Has(Ahead(c.oldestUnacked, k))
  {
    hide Good, Rem, Ahead, Flush;
    var c, r := n.ch.value, n.e.config.recvPacketBufferSize;
    var k := NextHeld(c.window, c.oldestUnacked, 1, r);
    NextHeldIs(c.window, c.oldestUnacked, 1, r);
    var m := n.(ch := Some(c.(oldestUnacked := Ahead(c.oldestUnacked, k), oldest := c.oldest + k)));
    FlushMoves(m, k);
    if k < r {
      HeldAhead(n, k);
    } else if |n.log.written| == c.oldest + r {
      OldestMoves(n, k);
      FlushKeeps(m, k);
    }
  }

  lemma {:induction false} FlushMoves(n: Node, k: nat)
    requires n.Shape() && n.ch.Some?
    ensures Flush(n, k).ch.value.oldest == n.ch.value.oldest
    ensures n.ch.value.queue == [] ==> Flush(n, k) == n
    ensures |Flush(n, k).log.written| >= |n.log.written|
    decreases k
  {
    hide WritePacket;
    var c := n.ch.value;
    if k > 0 && c.queue != [] {
      var m := n.(ch := Some(c.(queue := c.queue[1..])));
      WriteMoves(m, c.queue[0]);
      FlushMoves(WritePacket(m, c.queue[0]), k - 1);
    }
  }

  lemma {:induction false} WriteMoves(n: Node, payload: bytes)
    requires n.Shape() && n.ch.Some?
    ensures var r := WritePacket(n, payload);
      r.ch.value.oldest == n.ch.value.oldest && |r.log.written| >= |n.log.written|
  {
    hide TransmitAll, Datagrams, NextHeader, Assign;
    if |payload| <= n.e.config.maxPacketSize {
      AssignMore(n, payload);
      TransmitMoves(Assign(n, payload), n.e.sn, Datagrams(n.e.config, NextHeader(n.e), payload));
    }
  }

  lemma AssignMore(n: Node, payload: bytes)
    requires n.Shape()
    ensures |Assign(n, payload).log.written| == |n.log.written| + 1
  {
    hide NextHeader;
  }

  lemma {:induction false} TransmitMoves(n: Node, sn: u16, datagrams: seq<bytes>)
    requires n.Shape() && n.ch.Some?
    ensures var r := TransmitAll(n, sn, datagrams);
      r.ch.value.oldest == n.ch.value.oldest && r.log.written == n.log.written
  {
    if datagrams != [] {
      TransmitMoves(n, sn, datagrams[..|datagrams| - 1]);
    }
  }

  /** A number held less than R ahead of oldest was written. */
  lemma {:induction false} HeldAhead(n: Node, k: nat)
    requires Advancing(n) && k < n.e.config.recvPacketBufferSize &&
      n.ch.value.window.Has(Ahead(n.ch.value.oldestUnacked, k))
    ensures n.ch.value.oldest + k < |n.log.written|
  {
    hide Good, Rem, CounterOf, AppWrites;
    var s := Ahead(n.ch.value.oldestUnacked, k);
    HeldCounter(n, s);
    WrapSum(n.ch.value.oldest, k);
    WrapEqual(CounterOf(|n.log.written|, s), n.ch.value.oldest + k);
  }

  /** A held number belongs to one of the last S writes. */
  lemma {:induction false} HeldCounter(n: Node, s: u16)
    requires Good(n) && n.ch.Some? && n.ch.value.window.Has(s)
    ensures var c := CounterOf(|n.log.written|, s);
      0 <= c && |n.log.written| - n.e.config.sentPacketBufferSize <= c && Wrap16(c) == s
  {
    hide Rem, HeadersOk, RecvOk, TransmittedOk, AcksOk, Buffered, Coupled, Sequential, CounterOf;
    WindowMirrorsSent(n, s);
    SequentialFind(n.e.sent, |n.log.written|, s);
    CounterWraps(|n.log.written|, s);
  }
}
