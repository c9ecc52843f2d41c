/** The channel's send window, for any bytes received: how far writing runs ahead of the oldest
    unacknowledged packet, what the window holds, and the order of the backlog. Whole runs are in
    UpdateRuns. */
module Sliding {
  import opened Words
  import opened Rings
  import opened Headers
  import opened Reassembly
  import opened Protocol
  import opened History
  import opened Acknowledge
  import opened Network

  /** The payloads written that are not keepalives, in order. */
  function AppWrites(written: seq<Protocol.Write>, keepalives: set<nat>): seq<bytes> {
    if written == [] then []
    else
      var last: nat := |written| - 1;
      AppWrites(written[..last], keepalives) + if last in keepalives then [] else [written[last].payload]
  }

  /** Numbers written lie less than R before oldest and at most R after it; when payloads are
      queued, exactly R after it; the oldest is held if it was written; and what was written so
      far, keepalives aside, followed by the backlog is what was taken from the write queue. */
  ghost predicate Windowed(config: Config, written: seq<Protocol.Write>, c: ChannelState)
    requires c.window.WellFormed()
  {
    var n, r := |written|, config.recvPacketBufferSize;
    && c.oldestUnacked == Wrap16(c.oldest)
    && -1 * r < n - c.oldest <= r
    && (c.queue != [] ==> n == c.oldest + r)
    && Accounted(config, written, c)
  }

  /** Keepalives were written, and carry nothing. */
  ghost predicate KeepalivesEmpty(written: seq<Protocol.Write>, keepalives: set<nat>) {
    forall k :: k in keepalives ==> k < |written| && written[k].payload == []
  }

  ghost predicate Accounted(config: Config, written: seq<Protocol.Write>, c: ChannelState)
    requires c.window.WellFormed()
  {
    && (c.oldest < |written| ==> c.window.Has(Wrap16(c.oldest)))
    && (forall p :: p in c.queue ==> |p| <= config.maxPacketSize)
    && KeepalivesEmpty(written, c.keepalives)
    && AppWrites(written, c.keepalives) + c.queue == c.taken
  }

  /** A reachable channel node whose window invariant holds, with R <= S. */
  ghost predicate Sound(n: Node)
    ensures Sound(n) ==> n.Shape() && n.ch.Some?
  {
    && Good(n) && n.ch.Some? && n.e.config.recvPacketBufferSize <= n.e.config.sentPacketBufferSize
    && Windowed(n.e.config, n.log.written, n.ch.value)
  }

  // ---------------------------------------------------------------- coupling

  /** The window holds a number exactly when the sent buffer does and it is not acknowledged. */
  lemma {:induction false} WindowMirrorsSent(n: Node, s: u16)
    requires Good(n) && n.ch.Some?
    ensures n.ch.value.window.latest == n.e.sent.latest == n.e.sn
    ensures n.ch.value.window.Has(s) <==> n.e.sent.Has(s) && !n.e.sent.At(s).acked
  {
    hide Rem, HeadersOk, RecvOk, TransmittedOk, AcksOk, Buffered, SlotAfter;
    var i := n.e.sent.IndexOf(s);
    assert n.ch.value.window.slots[i] == Mirror(n.e.sent, i);
  }

  /** Of the last S numbers written the window holds exactly those without an ACK call. */
  lemma {:induction false} NothingUnackedLost(n: Node, c: nat)
    requires Good(n) && n.ch.Some?
    requires |n.log.written| - n.e.config.sentPacketBufferSize <= c < |n.log.written|
    ensures n.ch.value.window.Has(Wrap16(c)) <==> c !in AckedSet(n.log.acked)
  {
    hide Rem, HeadersOk, RecvOk, TransmittedOk, Buffered, Coupled, Sequential, CounterOf;
    WindowMirrorsSent(n, Wrap16(c));
    var written, cap := |n.log.written|, n.e.sent.Cap();
    CounterUnique(written, c);
    SequentialFind(n.e.sent, written, Wrap16(c));
    assert n.e.sent.entries[Rem(c, cap)].acked <==> c in AckedSet(n.log.acked);
  }

  // ---------------------------------------------------------------- writing

  lemma {:induction false} AppWritesMore(written: seq<Protocol.Write>, w: Protocol.Write, keepalives: set<nat>)
    ensures AppWrites(written + [w], keepalives) ==
      AppWrites(written, keepalives) + if |written| in keepalives then [] else [w.payload]
  {
    assert (written + [w])[..|written|] == written;
  }

  lemma {:induction false} AppWritesSame(written: seq<Protocol.Write>, keepalives: set<nat>, keepalives': set<nat>)
    requires forall k: nat :: k < |written| ==> (k in keepalives <==> k in keepalives')
    ensures AppWrites(written, keepalives) == AppWrites(written, keepalives')
  {
    if written != [] {
      AppWritesSame(written[..|written| - 1], keepalives, keepalives');
    }
  }

  lemma EmptyMore(written: seq<Protocol.Write>, w: Protocol.Write, keepalives: set<nat>)
    requires KeepalivesEmpty(written, keepalives - {|written|}) && (|written| in keepalives ==> w.payload == [])
    ensures KeepalivesEmpty(written + [w], keepalives)
  {
    forall k | k in keepalives ensures k < |written| + 1 && (written + [w])[k].payload == [] {
      assert k == |written| || k in keepalives - {|written|};
    }
  }

  /** A write does not push a held number out of the window as long as it is less than S old. */
  lemma {:induction false} WriteHolds(n: Node, payload: bytes, c: nat)
    requires Good(n) && n.ch.Some? && |payload| <= n.e.config.maxPacketSize
    requires |n.log.written| - n.e.config.sentPacketBufferSize < c <= |n.log.written|
    requires c < |n.log.written| ==> n.ch.value.window.Has(Wrap16(c))
    ensures WritePacket(n, payload).ch.value.window.Has(Wrap16(c))
  {
    hide Core, Coupled, Buffered, Rem, Datagrams, NextHeader;
    var written, cap := |n.log.written|, n.e.sent.Cap();
    var r := WritePacket(n, payload);
    WritePacketKeeps(n, payload);
    WindowMirrorsSent(r, Wrap16(c));
    NumberIs(n);
    InsertNextOf(n);
    RemOfWrap(c, cap);
    RemOfWrap(written, cap);
    assert r.e.sent == n.e.sent.Insert(n.e.sn).Put(n.e.sn, Assign(n, payload).e.sent.At(n.e.sn));
    if c < written {
      WindowMirrorsSent(n, Wrap16(c));
      if Rem(c, cap) == Rem(written, cap) {
        RemUnique(c, written, cap);
      }
    }
  }

  lemma NumberIs(n: Node)
    requires Good(n)
    ensures SentOk(n) && n.e.sn == Wrap16(|n.log.written|)
  {
    hide Sequential;
  }

  /** A payload taken or queued before reaches WritePacket: everything but the bounds. */
  lemma {:induction false} WriteAccounts(n: Node, payload: bytes, keepalive: bool, rest: seq<bytes>)
    requires Good(n) && n.ch.Some? && |payload| <= n.e.config.maxPacketSize
    requires n.e.config.recvPacketBufferSize <= n.e.config.sentPacketBufferSize
    requires |n.log.written| < n.ch.value.oldest + n.e.config.recvPacketBufferSize
    requires n.ch.value.oldest < |n.log.written| ==> n.ch.value.window.Has(Wrap16(n.ch.value.oldest))
    requires KeepalivesEmpty(n.log.written, n.ch.value.keepalives - {|n.log.written|})
    requires keepalive == (|n.log.written| in n.ch.value.keepalives) && (keepalive ==> payload == [])
    requires AppWrites(n.log.written, n.ch.value.keepalives) + (if keepalive then [] else [payload]) + rest ==
      n.ch.value.taken
    requires n.ch.value.queue == rest && forall p :: p in rest ==> |p| <= n.e.config.maxPacketSize
    ensures var r := WritePacket(n, payload);
      && Good(r) && r.ch.Some? && r.e.config == n.e.config && |r.log.written| == |n.log.written| + 1
      && r.ch.value == n.ch.value.(window := r.ch.value.window)
      && Accounted(r.e.config, r.log.written, r.ch.value)
  {
    hide Good, WritePacket, NextHeader, AppWrites, Rem;
    WritePacketKeeps(n, payload);
    var r, w := WritePacket(n, payload), Protocol.Write(NextHeader(n.e), payload);
    AppWritesMore(n.log.written, w, n.ch.value.keepalives);
    EmptyMore(n.log.written, w, n.ch.value.keepalives);
    if n.ch.value.oldest <= |n.log.written| {
      WriteHolds(n, payload, n.ch.value.oldest);
    }
  }

  // ---------------------------------------------------------------- taking payloads

  /** Taking a payload keeps the window invariant exactly when WritePacket would accept it. */
  lemma {:induction false} SubmitSoundIff(n: Node, payload: bytes)
    requires Sound(n)
    ensures Sound(Submit(n, payload)) <==> |payload| <= n.e.config.maxPacketSize
  {
    hide Core, Coupled, Buffered, AppWrites, Rem, TransmitAll;
    var c, written := n.ch.value, n.log.written;
    var c' := c.(taken := c.taken + [payload]);
    NumberIs(n);
    FullIs(n);
    if |written| == c.oldest + n.e.config.recvPacketBufferSize {
      ChannelOnly(n, n.(ch := Some(c'.(queue := c.queue + [payload]))));
      assert payload in c.queue + [payload];
    } else if |payload| <= n.e.config.maxPacketSize {
      var m := n.(ch := Some(c'));
      ChannelOnly(n, m);
      assert c.queue == [] && AppWrites(written, c.keepalives) + [payload] + [] == c'.taken;
      WriteAccounts(m, payload, false, []);
    }
  }

  lemma TakenOnly(n: Node, payload: bytes)
    requires Good(n) && n.ch.Some?
    ensures var c := n.ch.value.(taken := n.ch.value.taken + [payload]);
      && Good(n.(ch := Some(c)))
      && Good(n.(ch := Some(c.(queue := c.queue + [payload]))))
  {
    hide Core, Rem;
    var c := n.ch.value.(taken := n.ch.value.taken + [payload]);
    ChannelOnly(n, n.(ch := Some(c)));
    ChannelOnly(n, n.(ch := Some(c.(queue := c.queue + [payload]))));
  }

  /** The test of the write loop on wire numbers says exactly that the window is full. */
  lemma {:induction false} FullIs(n: Node)
    requires Sound(n)
    ensures Ahead(n.ch.value.oldestUnacked, n.e.config.recvPacketBufferSize) == n.e.sn <==>
      |n.log.written| == n.ch.value.oldest + n.e.config.recvPacketBufferSize
  {
    hide Core, Coupled, Buffered, Accounted;
    NumberIs(n);
    WrapSum(n.ch.value.oldest, n.e.config.recvPacketBufferSize);
    WrapEqual(|n.log.written|, n.ch.value.oldest + n.e.config.recvPacketBufferSize);
  }

  lemma WrapEqual(a: int, b: int)
    requires -0x1_0000 < a - b < 0x1_0000
    ensures Wrap16(a) == Wrap16(b) <==> a == b
  {
  }

  // ---------------------------------------------------------------- acknowledgements

  /** Between the moment oldest moves on by k and the moment the backlog has been sent. */
  ghost predicate Flushing(n: Node, k: nat)
    ensures Flushing(n, k) ==> n.Shape() && n.ch.Some?
  {
    && Good(n) && n.ch.Some? && n.e.config.recvPacketBufferSize <= n.e.config.sentPacketBufferSize
    && var c, written, r := n.ch.value, |n.log.written|, n.e.config.recvPacketBufferSize;
    && c.oldestUnacked == Wrap16(c.oldest)
    && -1 * r < written - c.oldest <= r - k
    && (c.queue != [] ==> written + k == c.oldest + r)
    && Accounted(n.e.config, n.log.written, c)
  }

  lemma {:induction false} FlushSound(n: Node, k: nat)
    requires Flushing(n, k)
    ensures Sound(Flush(n, k)) && Flush(n, k).e.config == n.e.config
    decreases k
  {
    hide Good, WritePacket, AppWrites, Rem;
    var c := n.ch.value;
    if k > 0 && c.queue != [] {
      var m := n.(ch := Some(c.(queue := c.queue[1..])));
      DropQueue(n, c.queue[1..]);
      assert [c.queue[0]] + c.queue[1..] == c.queue;
      assert AppWrites(n.log.written, c.keepalives) + [c.queue[0]] + c.queue[1..] == c.taken;
      WriteAccounts(m, c.queue[0], false, c.queue[1..]);
      FlushSound(WritePacket(m, c.queue[0]), k - 1);
    }
  }

  lemma DropQueue(n: Node, queue: seq<bytes>)
    requires Good(n) && n.ch.Some?
    ensures Good(n.(ch := Some(n.ch.value.(queue := queue))))
  {
    hide Core;
    ChannelOnly(n, n.(ch := Some(n.ch.value.(queue := queue))));
  }

  /** The state in which an ACK call for the oldest packet finds the channel. */
  ghost predicate Advancing(n: Node)
    ensures Advancing(n) ==> n.Shape() && n.ch.Some?
  {
    && Good(n) && n.ch.Some? && n.e.config.recvPacketBufferSize <= n.e.config.sentPacketBufferSize
    && var c, written, r := n.ch.value, |n.log.written|, n.e.config.recvPacketBufferSize;
    && c.oldestUnacked == Wrap16(c.oldest) && 0 < written - c.oldest <= r
    && (c.queue != [] ==> written == c.oldest + r)
    && (forall p :: p in c.queue ==> |p| <= n.e.config.maxPacketSize)
    && KeepalivesEmpty(n.log.written, c.keepalives)
    && AppWrites(n.log.written, c.keepalives) + c.queue == c.taken
  }

  lemma {:induction false} AdvanceSound(n: Node)
    requires Advancing(n)
    ensures Sound(Advance(n)) && Advance(n).e.config == n.e.config
  {
    hide Good, Flush, AppWrites, Rem;
    var c, r := n.ch.value, n.e.config.recvPacketBufferSize;
    var k := NextHeld(c.window, c.oldestUnacked, 1, r);
    NextHeldIs(c.window, c.oldestUnacked, 1, r);
    OldestMoves(n, k);
    WrapSum(c.oldest, k);
    FlushSound(n.(ch := Some(c.(oldestUnacked := Ahead(c.oldestUnacked, k), oldest := c.oldest + k))), k);
  }

  lemma OldestMoves(n: Node, k: nat)
    requires Good(n) && n.ch.Some?
    ensures Good(n.(ch := Some(n.ch.value.(
      oldestUnacked := Ahead(n.ch.value.oldestUnacked, k), oldest := n.ch.value.oldest + k))))
  {
    hide Core, Rem;
    var c := n.ch.value;
    ChannelOnly(n, n.(ch := Some(c.(oldestUnacked := Ahead(c.oldestUnacked, k), oldest := c.oldest + k))));
  }

  lemma {:induction false} NextHeldIs(window: Ring<BufferedPacket>, base: u16, k: nat, limit: nat)
    requires window.WellFormed() && k <= limit
    ensures var r := NextHeld(window, base, k, limit);
      && (r < limit ==> window.Has(Ahead(base, r)))
      && forall j :: k <= j < r ==> !window.Has(Ahead(base, j))
    decreases limit - k
  {
    hide Rem, Ahead;
    if k < limit && !window.Has(Ahead(base, k)) {
      NextHeldIs(window, base, k + 1, limit);
    }
  }

  /** The oldest wire number is held only if the oldest counter was written. */
  lemma {:induction false} OldestHeld(n: Node)
    requires Sound(n) && n.ch.value.window.Has(n.ch.value.oldestUnacked)
    ensures n.ch.value.oldest < |n.log.written|
  {
    hide Rem, HeadersOk, RecvOk, TransmittedOk, AcksOk, Buffered, Coupled, Sequential, Accounted, CounterOf;
    var s, written := n.ch.value.oldestUnacked, |n.log.written|;
    WindowMirrorsSent(n, s);
    SequentialFind(n.e.sent, written, s);
    CounterWraps(written, s);
    WrapEqual(CounterOf(written, s), n.ch.value.oldest);
  }

  lemma {:induction false} ChannelACKSound(n: Node, sn: u16)
    requires Core(n) && n.ch.Some? && n.ch.value.window.latest == n.e.sn && n.ch.value.window.Has(sn)
    requires n.e.sent.At(sn).acked && MirroredBut(n.ch.value.window, n.e.sent, n.e.sent.IndexOf(sn)) && Buffered(n)
    requires n.e.config.recvPacketBufferSize <= n.e.config.sentPacketBufferSize
    requires Windowed(n.e.config, n.log.written, n.ch.value)
    requires sn == n.ch.value.oldestUnacked ==> n.ch.value.oldest < |n.log.written|
    ensures Sound(ChannelACK(n, sn)) && ChannelACK(n, sn).e.config == n.e.config
  {
    hide AcksOk, TransmittedOk, RecvOk, HeadersOk, SentOk, Buffered, Advance, Rem, AppWrites;
    var c := n.ch.value;
    var m := n.(ch := Some(c.(window := c.window.Remove(sn))));
    ChannelOnly(n, m);
    assert Good(m);
    if sn == c.oldestUnacked {
      AdvanceSound(m);
    } else if c.oldest < |n.log.written| {
      assert m.ch.value.window.Has(Wrap16(c.oldest));
    }
  }

  lemma {:induction false} AckOneSound(n: Node, sn: u16)
    requires Sound(n)
    ensures Sound(AckOne(n, sn)) && AckOne(n, sn).e.config == n.e.config
  {
    hide Core, ChannelACK, Windowed, Rem;
    if n.e.sent.Has(sn) && !n.e.sent.At(sn).acked {
      MarkKeeps(n, sn);
      if n.ch.value.window.Has(sn) && sn == n.ch.value.oldestUnacked {
        OldestHeld(n);
      }
      ChannelACKSound(MarkAcked(n, sn), sn);
    }
  }

  lemma {:induction false} AckAllSound(n: Node, numbers: seq<u16>)
    requires Sound(n)
    ensures Sound(AckAll(n, numbers)) && AckAll(n, numbers).e.config == n.e.config
    decreases |numbers|
  {
    hide Sound, AckOne;
    if numbers != [] {
      AckOneSound(n, numbers[0]);
      AckAllSound(AckOne(n, numbers[0]), numbers[1..]);
    }
  }

  lemma {:induction false} RecvCompactSound(n: Node, buf: bytes)
    requires Sound(n)
    ensures Sound(RecvCompact(n, buf).0) && RecvCompact(n, buf).0.e.config == n.e.config
  {
    hide Core, Coupled, Buffered, Windowed, Decode, ProcessACKs, AckAll, Visited;
    var d := Decode(buf);
    if d.ok && !n.e.recv.IsOutdated(d.header.sn) {
      var m := Record(n, d.header.sn, d.leftover);
      RecordKeeps(n, d.header.sn, d.leftover);
      LoopVisits(m, d.header.ack, d.header.acks, 0);
      AckAllSound(m, Visited(d.header.ack, d.header.acks, 0));
    }
  }

  lemma AssemblerSound(n: Node, m: Node)
    requires Sound(n) && m == n.(e := n.e.(assembler := m.e.assembler)) && m.Shape()
    ensures Sound(m)
  {
    hide Core, Coupled, Buffered, Windowed;
    AssemblerOnly(n, m);
  }

  /** Any bytes at all: acknowledgements among them move the window, soundly. */
  lemma {:induction false} ReadPacketSound(n: Node, buf: bytes, pooled: bytes)
    requires Sound(n) && 0 < |buf|
    ensures Sound(ReadPacket(n, buf, pooled).0) && ReadPacket(n, buf, pooled).0.e.config == n.e.config
  {
    hide Sound, Decode, OpenFragment, RecvCompact, FileFragment, OpenEntry;
    if Toggled(buf[0], FLAG_FRAGMENT) {
      var (h, phb, data, outcome) := OpenFragment(buf, n.e.config.maxFragments);
      if outcome.Accepted? && !(!n.e.assembler.Has(h.sn) && n.e.assembler.IsOutdated(h.sn)) {
        AssemblerSound(n, OpenEntry(n, h, pooled));
        FileFragmentSound(OpenEntry(n, h, pooled), h, phb, data);
      }
    } else {
      RecvCompactSound(n, buf);
    }
  }

  lemma {:induction false} FileFragmentSound(m: Node, h: FragmentHeader, phb: bytes, data: bytes)
    requires Sound(m) && |phb| <= MAX_PACKET_HEADER_SIZE && h.id <= h.total
    ensures Sound(FileFragment(m, h, phb, data).0) && FileFragment(m, h, phb, data).0.e.config == m.e.config
  {
    hide Sound, RecvCompact, StoreFragment, Deliver, Marked;
    var f := m.e.assembler.At(h.sn);
    EntryShape(m.e.assembler, m.e.config.fragmentSize, h.sn);
    if h.total + 1 == f.total && !Marked(f.marked, h.id) {
      AssemblerSound(m, StoreFragment(m, h, phb, data));
      DeliverSound(StoreFragment(m, h, phb, data), h.sn);
    }
  }

  lemma {:induction false} DeliverSound(n: Node, sn: u16)
    requires Sound(n)
    ensures Sound(Deliver(n, sn).0) && Deliver(n, sn).0.e.config == n.e.config
  {
    hide Sound, RecvCompact, Assembled;
    var g := n.e.assembler.At(sn);
    EntryShape(n.e.assembler, n.e.config.fragmentSize, sn);
    if g.recv == g.total && Fits(g) {
      var m := RecvCompact(n, Assembled(g)).0;
      RecvCompactSound(n, Assembled(g));
      AssemblerSound(m, m.(e := m.e.(assembler := m.e.assembler.Remove(sn))));
    }
  }

  // ---------------------------------------------------------------- the loops of Update

  /** The retransmit loop sends nothing new into the window. */
  lemma {:induction false} RetransmitSound(n: Node, time: real)
    requires Sound(n)
    ensures Sound(Retransmit(n, time))
  {
    hide Good, EmitUpTo, AppWrites, Rem;
    RetransmitKeeps(n, time);
    EmitKeepsSlots(n.ch.value, time, n.e.config.recvPacketBufferSize + 1);
    EmitKeepsRest(n.ch.value, time, n.e.config.recvPacketBufferSize + 1);
  }

  lemma {:induction false} EmitKeepsRest(c: ChannelState, time: real, k: nat)
    requires c.window.WellFormed()
    ensures var r := EmitUpTo(c, time, k);
      r == c.(window := r.window, lastSent := r.lastSent, out := r.out)
  {
    hide Rem;
    if k > 0 {
      EmitKeepsRest(c, time, k - 1);
    }
  }

  /** A keepalive on its own keeps the window invariant exactly when it is not sent into a full window.
      In Update the retransmit loop before it rules the rest out (Updates.SendingSound). */
  lemma {:induction false} KeepaliveSoundIff(n: Node, time: real)
    requires Sound(n)
    ensures Sound(Keepalive(n, time)) <==>
      time - n.ch.value.lastSent < 0.1
      || Ahead(n.ch.value.oldestUnacked, n.e.config.recvPacketBufferSize) != n.e.sn
  {
    hide Good, WritePacket, AppWrites, Rem;
    FullIs(n);
    if time - n.ch.value.lastSent >= 0.1 {
      var c, written := n.ch.value, n.log.written;
      var m := n.(ch := Some(c.(keepalives := c.keepalives + {|written|})));
      KeepaliveCounted(n);
      if |written| != c.oldest + n.e.config.recvPacketBufferSize {
        AppWritesSame(written, c.keepalives, m.ch.value.keepalives);
        assert AppWrites(written, m.ch.value.keepalives) + [] + c.queue == c.taken;
        WriteAccounts(m, [], true, c.queue);
      } else {
        WritePacketKeeps(m, []);
      }
    }
  }

  lemma KeepaliveCounted(n: Node)
    requires Good(n) && n.ch.Some?
    ensures Good(n.(ch := Some(n.ch.value.(keepalives := n.ch.value.keepalives + {|n.log.written|}))))
  {
    hide Core, Rem;
    ChannelOnly(n, n.(ch := Some(n.ch.value.(keepalives := n.ch.value.keepalives + {|n.log.written|}))));
  }

  // ---------------------------------------------------------------- Update as a whole

  lemma {:induction false} ReadAllSound(n: Node, incoming: seq<bytes>, pooled: seq<bytes>)
    requires Sound(n) && |pooled| == |incoming| && forall b :: b in incoming ==> 0 < |b|
    ensures Sound(ReadAll(n, incoming, pooled).0) && ReadAll(n, incoming, pooled).0.e.config == n.e.config
  {
    hide Sound, ReadPacket;
    if incoming != [] {
      var before, others := incoming[..|incoming| - 1], pooled[..|incoming| - 1];
      ReadAllSound(n, before, others);
      var (m, k, ok) := ReadAll(n, before, others);
      if ok {
        ReadPacketSound(m, incoming[|incoming| - 1], pooled[|incoming| - 1]);
      }
    }
  }

  lemma {:induction false} SubmitAllSound(n: Node, outgoing: seq<bytes>)
    requires Sound(n) && forall p :: p in outgoing ==> |p| <= n.e.config.maxPacketSize
    ensures Sound(SubmitAll(n, outgoing)) && SubmitAll(n, outgoing).e.config == n.e.config
  {
    hide Good, Submit, Windowed;
    if outgoing != [] {
      var before := outgoing[..|outgoing| - 1];
      assert forall p :: p in before ==> p in outgoing;
      SubmitAllSound(n, before);
      SubmitSoundIff(SubmitAll(n, before), outgoing[|outgoing| - 1]);
      SubmitConfig(SubmitAll(n, before), outgoing[|outgoing| - 1]);
    }
  }

  lemma SubmitConfig(n: Node, payload: bytes)
    requires n.Shape() && n.ch.Some?
    ensures Submit(n, payload).e.config == n.e.config
  {
    hide Datagrams, NextHeader, Rem;
  }
}
