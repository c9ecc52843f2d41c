/** Two nodes over a network that loses, duplicates and reorders datagrams: what one side's ACK
    calls say about the other side's Process calls, over whole runs. */
module Network {
  import opened Words
  import opened Bits
  import opened Rings
  import opened Headers
  import opened Reassembly
  import opened Protocol
  import opened History
  import opened Acknowledge

  // ---------------------------------------------------------------- invariant of a direction

  /** Some write of the log carried wire number sn. */
  ghost predicate WrittenAs(written: seq<Write>, sn: u16) {
    exists k :: 0 <= k < |written| && Wrap16(k) == sn
  }

  /** A delivery is about a number that was written; as long as the sender has not written more
      than 65536 payloads, it carries exactly the payload written under that number. */
  ghost predicate DeliveryOk(written: seq<Write>, d: Delivery) {
    && WrittenAs(written, d.sn)
    && (|written| <= 0x1_0000 ==> d.sn < |written| && written[d.sn].payload == d.payload)
  }

  ghost predicate DeliveriesOk(written: seq<Write>, processed: seq<Delivery>) {
    forall d :: d in processed ==> DeliveryOk(written, d)
  }

  function SourceOf(w: Write): Source {
    Source(Encode(w.header), w.payload)
  }

  /** src comes from a write that carried wire number sn. */
  ghost predicate Genuine(written: seq<Write>, sn: u16, src: Source) {
    exists k :: 0 <= k < |written| && Wrap16(k) == sn && SourceOf(written[k]) == src
  }

  ghost predicate AllGenuine(written: seq<Write>, sn: u16, src: map<u8, Source>) {
    forall id :: id in src ==> Genuine(written, sn, src[id])
  }

  /** A reassembly entry for sn holds fragments of writes that carried sn, and nothing else. */
  ghost predicate EntryOk(written: seq<Write>, fs: nat, sn: u16, f: Fragment)
    requires 0 < fs
  {
    exists src :: Assembles(f, fs, src) && AllGenuine(written, sn, src)
  }

  ghost predicate EntriesOk(written: seq<Write>, fs: nat, assembler: Ring<Fragment>)
    requires 0 < fs && assembler.WellFormed()
  {
    forall s: u16 :: assembler.Has(s) ==> EntryOk(written, fs, s, assembler.At(s))
  }

  ghost predicate FiredOk(acked: seq<Ack>, log: Log) {
    forall a :: a in acked ==> Processed(log, a.sn)
  }

  /** What holds from sender x to receiver y. */
  ghost predicate Link(x: Node, y: Node)
    requires y.Shape()
  {
    && DeliveriesOk(x.log.written, y.log.processed)
    && EntriesOk(x.log.written, y.e.config.fragmentSize, y.e.assembler)
    && FiredOk(x.log.acked, y.log)
  }

  // ---------------------------------------------------------------- the sender moves on

  lemma {:induction false} WrittenGrows(written: seq<Write>, written': seq<Write>, y: Node)
    requires y.Shape() && written <= written'
    requires DeliveriesOk(written, y.log.processed) && EntriesOk(written, y.e.config.fragmentSize, y.e.assembler)
    ensures DeliveriesOk(written', y.log.processed) && EntriesOk(written', y.e.config.fragmentSize, y.e.assembler)
  {
    hide Rem, Assembles;
    var fs := y.e.config.fragmentSize;
    forall d | d in y.log.processed ensures DeliveryOk(written', d) {
      assert DeliveryOk(written, d);
      var k :| 0 <= k < |written| && Wrap16(k) == d.sn;
      assert 0 <= k < |written'| && Wrap16(k) == d.sn;
    }
    forall s: u16 | y.e.assembler.Has(s) ensures EntryOk(written', fs, s, y.e.assembler.At(s)) {
      assert EntryOk(written, fs, s, y.e.assembler.At(s));
      var src: map<u8, Source> :| Assembles(y.e.assembler.At(s), fs, src) && AllGenuine(written, s, src);
      GenuineGrows(written, written', s, src);
    }
  }

  lemma {:induction false} GenuineGrows(written: seq<Write>, written': seq<Write>, sn: u16, src: map<u8, Source>)
    requires written <= written' && AllGenuine(written, sn, src)
    ensures AllGenuine(written', sn, src)
  {
    hide Encode;
    forall id | id in src ensures Genuine(written', sn, src[id]) {
      assert Genuine(written, sn, src[id]);
      var k :| 0 <= k < |written| && Wrap16(k) == sn && SourceOf(written[k]) == src[id];
      assert 0 <= k < |written'| && Wrap16(k) == sn && SourceOf(written'[k]) == src[id];
    }
  }

  lemma {:induction false} FiredGrows(acked: seq<Ack>, log: Log, log': Log)
    requires FiredOk(acked, log) && log.processed <= log'.processed
    ensures FiredOk(acked, log')
  {
    hide Processed;
    forall a | a in acked ensures Processed(log', a.sn) {
      ProcessedMore(log, log', a.sn);
    }
  }

  // ---------------------------------------------------------------- a datagram of x reaches y

  /** The largest number of fragments Valid configurations produce. */
  lemma {:induction false} NumFragmentsAtMost(size: nat, fs: nat, m: nat)
    requires 0 < fs && 0 < size <= Times(m, fs)
    ensures NumFragments(size, fs) <= m
  {
    NumFragmentsBounds(size, fs);
    var total := NumFragments(size, fs);
    if m < total - 1 {
      TimesMonotone(m, total - 1, fs);
    }
  }

  /** Acting on a packet whose header x really sent, with a body that is right whenever wire
      numbers are still unambiguous. */
  lemma {:induction false} RecvGenuine(x: Node, y: Node, k: nat, buf: bytes, body: bytes)
    requires Good(x) && Good(y) && Link(x, y) && k < |x.log.written|
    requires Decode(buf) == Decoded(x.log.written[k].header, body, true)
    requires |x.log.written| <= 0x1_0000 ==> body == x.log.written[k].payload
    ensures var r := RecvCompact(y, buf).0;
      && DeliveriesOk(x.log.written, r.log.processed)
      && (FiredOk(y.log.acked, x.log) ==> FiredOk(r.log.acked, x.log))
      && y.log.processed <= r.log.processed
  {
    hide Good, EntriesOk, Decode, RecvCompact, DeliveryOk, Visited;
    RecvCompactKeeps(y, buf);
    var h := x.log.written[k].header;
    HeaderOf(x, k);
    DeliveryOfWrite(x.log.written, k, body);
    forall s | s in Visited(h.ack, h.acks, 0) ensures Processed(x.log, s) {
      VisitedProcessed(x.log, h, s);
    }
  }

  lemma HeaderOf(x: Node, k: nat)
    requires Good(x) && k < |x.log.written|
    ensures HeaderOk(x.log, k, x.e.config.maxPacketSize)
  {
  }

  lemma DeliveryOfWrite(written: seq<Write>, k: nat, body: bytes)
    requires k < |written| && (|written| <= 0x1_0000 ==> body == written[k].payload)
    ensures DeliveryOk(written, Delivery(Wrap16(k), body))
  {
  }

  lemma {:induction false} VisitedProcessed(log: Log, h: PacketHeader, s: u16)
    requires forall i :: 0 <= i < 32 && Bit(h.acks, i) ==> Processed(log, Back(h.ack, i))
    requires s in Visited(h.ack, h.acks, 0)
    ensures Processed(log, s)
  {
    hide Processed, Bit, Visited, Back;
    VisitedAre(h.ack, h.acks, 0, s);
    var j: nat :| j < 32 && Bit(h.acks, j - 0) && s == Back(h.ack, j);
    assert Bit(h.acks, j);
  }

  /** A datagram of write k that is not a fragment. */
  lemma {:induction false} CompactArrives(x: Node, y: Node, k: nat, pooled: bytes)
    requires Good(x) && Good(y) && Link(x, y) && k < |x.log.written|
    ensures var w := x.log.written[k];
      var t := Encode(w.header) + w.payload;
      && 0 < |t|
      && var r := ReadPacket(y, t, pooled).0;
        && DeliveriesOk(x.log.written, r.log.processed)
        && EntriesOk(x.log.written, y.e.config.fragmentSize, r.e.assembler)
        && (FiredOk(y.log.acked, x.log) ==> FiredOk(r.log.acked, x.log))
        && y.log.processed <= r.log.processed
  {
    hide Good, Encode, Decode, RecvCompact, RecvFragmented, EntriesOk, DeliveriesOk, FiredOk;
    var w := x.log.written[k];
    EncodeSize(w.header);
    HeaderRoundTrip(w.header, w.payload);
    RecvGenuine(x, y, k, Encode(w.header) + w.payload, w.payload);
    RecvCompactKeeps(y, Encode(w.header) + w.payload);
  }

  /** What the receiver makes of the bytes of fragment id of write w. */
  lemma {:induction false} FragmentOpens(config: Config, w: Write, total: nat, id: nat)
    requires 0 < config.fragmentSize && id < total <= 256
    ensures var t := FragmentDatagram(config, w.header, w.payload, total, id);
      && 0 < |t| && Toggled(t[0], FLAG_FRAGMENT)
      && var (h, phb, data, outcome) := OpenFragment(t, config.maxFragments);
        outcome.Accepted? ==>
          && h == FragmentHeader(w.header.sn, id, total - 1)
          && phb == HeaderBytes(SourceOf(w), id) && data == Chunk(w.payload, config.fragmentSize, id)
  {
    hide Encode, Decode, Chunk, EncodeFragment, DecodeFragment;
    var h := FragmentHeader(w.header.sn, id, total - 1);
    var chunk := Chunk(w.payload, config.fragmentSize, id);
    var rest := HeaderBytes(SourceOf(w), id) + chunk;
    var t := FragmentDatagram(config, w.header, w.payload, total, id);
    assert t == EncodeFragment(h) + rest;
    FragmentRoundTrip(h, rest);
    if id == 0 {
      HeaderRoundTrip(w.header, chunk);
      assert rest[..|rest| - |chunk|] == Encode(w.header);
    }
  }

  lemma {:induction false} EntryOpens(x: Node, y: Node, h: FragmentHeader, pooled: bytes)
    requires y.Shape() && EntriesOk(x.log.written, y.e.config.fragmentSize, y.e.assembler)
    ensures EntriesOk(x.log.written, y.e.config.fragmentSize, OpenEntry(y, h, pooled).e.assembler)
    ensures OpenEntry(y, h, pooled).e.assembler.Has(h.sn)
  {
    hide Rem, Assembles, AllGenuine, Open, EntryOk;
    var fs, m := y.e.config.fragmentSize, OpenEntry(y, h, pooled);
    if !y.e.assembler.Has(h.sn) {
      assert EntryOk(x.log.written, fs, h.sn, Open(h.total + 1, fs, pooled)) by {
        NewEntryOk(x.log.written, fs, h.sn, h.total + 1, pooled);
      }
      forall s: u16 | m.e.assembler.Has(s) ensures EntryOk(x.log.written, fs, s, m.e.assembler.At(s)) {
        if s != h.sn {
          InsertedElsewhere(y.e.assembler, h.sn, s);
        }
      }
    }
  }

  lemma NewEntryOk(written: seq<Write>, fs: nat, sn: u16, total: nat, pooled: bytes)
    requires 0 < fs && 1 <= total <= 256
    ensures EntryOk(written, fs, sn, Open(total, fs, pooled))
  {
    hide Assembles, Open;
    OpenAssembles(total, fs, pooled);
    assert AllGenuine(written, sn, map[]);
  }

  lemma {:induction false} StoreKeepsEntries(x: Node, y: Node, w: Write, id: u8, h: FragmentHeader)
    requires y.Shape() && EntriesOk(x.log.written, y.e.config.fragmentSize, y.e.assembler)
    requires y.e.assembler.Has(h.sn) && Genuine(x.log.written, h.sn, SourceOf(w))
    requires h.id == id <= h.total == y.e.assembler.At(h.sn).total - 1
    requires 0 < |w.payload| && NumFragments(|w.payload|, y.e.config.fragmentSize) == h.total + 1
    requires |HeaderBytes(SourceOf(w), id)| <= MAX_PACKET_HEADER_SIZE
    requires |y.e.assembler.At(h.sn).marked| == 4 && !Marked(y.e.assembler.At(h.sn).marked, id)
    ensures var r := StoreFragment(y, h, HeaderBytes(SourceOf(w), id), Chunk(w.payload, y.e.config.fragmentSize, id));
      EntriesOk(x.log.written, y.e.config.fragmentSize, r.e.assembler)
  {
    hide Rem, Assembles, AllGenuine, Marked, Chunk, HeaderBytes, SourceOf, NumFragments, Times, File, EntryOk;
    var fs, asm := y.e.config.fragmentSize, y.e.assembler;
    var f := asm.At(h.sn);
    var r := StoreFragment(y, h, HeaderBytes(SourceOf(w), id), Chunk(w.payload, fs, id));
    assert EntryOk(x.log.written, fs, h.sn, f);
    EntryShape(asm, fs, h.sn);
    TimesMonotone(id, f.total, fs);
    EntryFiled(x.log.written, fs, h.sn, f, id, w);
    forall s: u16 | r.e.assembler.Has(s) ensures EntryOk(x.log.written, fs, s, r.e.assembler.At(s)) {
      if s != h.sn {
        assert asm.Has(s);
      }
    }
  }

  lemma {:induction false} EntryFiled(written: seq<Write>, fs: nat, sn: u16, f: Fragment, id: u8, w: Write)
    requires 0 < fs && EntryOk(written, fs, sn, f) && Genuine(written, sn, SourceOf(w))
    requires id < f.total && |f.marked| == 4 && !Marked(f.marked, id)
    requires 0 < |w.payload| && NumFragments(|w.payload|, fs) == f.total <= 256
    requires |HeaderBytes(SourceOf(w), id)| <= MAX_PACKET_HEADER_SIZE
    requires MAX_PACKET_HEADER_SIZE + Times(id, fs) <= |f.buf|
    ensures EntryOk(written, fs, sn,
      File(f, fs, id, f.total - 1, HeaderBytes(SourceOf(w), id), Chunk(w.payload, fs, id)))
  {
    hide Chunk, NumFragments, Times, File, Marked, AllInPlace, HeaderInPlace, Genuine, Encode;
    var src: map<u8, Source> :| Assembles(f, fs, src) && AllGenuine(written, sn, src);
    FileAssembles(f, fs, src, id, SourceOf(w));
    assert AllGenuine(written, sn, src[id := SourceOf(w)]);
  }

  /** Handing a completed packet on: its header is genuine, and so is its body while wire
      numbers are unambiguous. */
  lemma {:induction false} DeliverGenuine(x: Node, y: Node, sn: u16)
    requires Good(x) && Good(y) && Link(x, y) && y.e.assembler.Has(sn)
    ensures var r := Deliver(y, sn).0;
      && DeliveriesOk(x.log.written, r.log.processed)
      && EntriesOk(x.log.written, y.e.config.fragmentSize, r.e.assembler)
      && (FiredOk(y.log.acked, x.log) ==> FiredOk(r.log.acked, x.log))
      && y.log.processed <= r.log.processed
  {
    hide Good, Rem, RecvCompact, Decode, DeliveriesOk, FiredOk, Assembles, AllGenuine, EntryOk;
    var fs, g := y.e.config.fragmentSize, y.e.assembler.At(sn);
    assert EntryOk(x.log.written, fs, sn, g);
    EntryShape(y.e.assembler, fs, sn);
    if g.recv == g.total && Fits(g) {
      var k, body := CompletedIs(x.log.written, fs, sn, g);
      RecvGenuine(x, y, k, Assembled(g), body);
      RecvCompactKeeps(y, Assembled(g));
      assert forall s: u16 :: y.e.assembler.Remove(sn).Has(s) ==> y.e.assembler.Has(s);
    }
  }

  lemma {:induction false} CompletedIs(written: seq<Write>, fs: nat, sn: u16, g: Fragment) returns (k: nat, body: bytes)
    requires 0 < fs && EntryOk(written, fs, sn, g) && g.recv == g.total
    requires g.headerSize <= MAX_PACKET_HEADER_SIZE && Fits(g)
    ensures k < |written| && Wrap16(k) == sn
    ensures Decode(Assembled(g)) == Decoded(written[k].header, body, true)
    ensures |written| <= 0x1_0000 ==> body == written[k].payload
  {
    hide Assembles, Encode, Decode, Assembled, Body;
    var src: map<u8, Source> :| Assembles(g, fs, src) && AllGenuine(written, sn, src);
    CompleteSplits(g, fs, src);
    assert Genuine(written, sn, src[0]);
    k :| 0 <= k < |written| && Wrap16(k) == sn && SourceOf(written[k]) == src[0];
    body := Body(g);
    HeaderRoundTrip(written[k].header, body);
    if |written| <= 0x1_0000 {
      OnePayload(written, sn, k, src);
      CompletePayload(g, fs, src, written[k].payload);
    }
  }

  /** Wire numbers of the first 65536 writes are their counters. */
  lemma {:induction false} OnePayload(written: seq<Write>, sn: u16, k: nat, src: map<u8, Source>)
    requires k < |written| <= 0x1_0000 && Wrap16(k) == sn && AllGenuine(written, sn, src)
    ensures forall id :: id in src ==> src[id].payload == written[k].payload
  {
    hide Encode;
    forall id | id in src ensures src[id].payload == written[k].payload {
      assert Genuine(written, sn, src[id]);
      var j :| 0 <= j < |written| && Wrap16(j) == sn && SourceOf(written[j]) == src[id];
      assert j == k;
    }
  }

  lemma {:induction false} FragmentArrives(x: Node, y: Node, k: nat, id: nat, pooled: bytes)
    requires Good(x) && Good(y) && Link(x, y) && x.e.config == y.e.config && k < |x.log.written|
    requires |x.log.written[k].payload| > x.e.config.fragmentAbove
    requires id < NumFragments(|x.log.written[k].payload|, x.e.config.fragmentSize)
    ensures var w, fs := x.log.written[k], x.e.config.fragmentSize;
      var t := FragmentDatagram(x.e.config, w.header, w.payload, NumFragments(|w.payload|, fs), id);
      && 0 < |t|
      && var r := ReadPacket(y, t, pooled).0;
        && DeliveriesOk(x.log.written, r.log.processed)
        && EntriesOk(x.log.written, y.e.config.fragmentSize, r.e.assembler)
        && (FiredOk(y.log.acked, x.log) ==> FiredOk(r.log.acked, x.log))
        && y.log.processed <= r.log.processed
  {
    hide Good, FragmentDatagram, OpenFragment, FileFragment, RecvCompact, EntriesOk, DeliveriesOk, FiredOk, OpenEntry;
    var w, config := x.log.written[k], x.e.config;
    var total := NumFragments(|w.payload|, config.fragmentSize);
    HeaderOf(x, k);
    NumFragmentsAtMost(|w.payload|, config.fragmentSize, Least(config.maxFragments, 256));
    FragmentOpens(config, w, total, id);
    var t := FragmentDatagram(config, w.header, w.payload, total, id);
    var (h, phb, data, outcome) := OpenFragment(t, config.maxFragments);
    if outcome.Accepted? && !(!y.e.assembler.Has(h.sn) && y.e.assembler.IsOutdated(h.sn)) {
      FragmentFiled(x, y, k, id, h, pooled);
    }
  }

  lemma {:induction false} FragmentFiled(x: Node, y: Node, k: nat, id: u8, h: FragmentHeader, pooled: bytes)
    requires Good(x) && Good(y) && Link(x, y) && x.e.config == y.e.config && k < |x.log.written|
    requires 0 < |x.log.written[k].payload|
    requires h == FragmentHeader(Wrap16(k), id, h.total) && id <= h.total
    requires h.total + 1 == NumFragments(|x.log.written[k].payload|, x.e.config.fragmentSize)
    requires |HeaderBytes(SourceOf(x.log.written[k]), id)| <= MAX_PACKET_HEADER_SIZE
    ensures var w, fs := x.log.written[k], x.e.config.fragmentSize;
      var r := FileFragment(OpenEntry(y, h, pooled), h, HeaderBytes(SourceOf(w), id), Chunk(w.payload, fs, id)).0;
      && DeliveriesOk(x.log.written, r.log.processed)
      && EntriesOk(x.log.written, y.e.config.fragmentSize, r.e.assembler)
      && (FiredOk(y.log.acked, x.log) ==> FiredOk(r.log.acked, x.log))
      && y.log.processed <= r.log.processed
  {
    hide Good, Rem, RecvCompact, Deliver, EntriesOk, DeliveriesOk, FiredOk, OpenEntry, StoreFragment,
      Chunk, HeaderBytes, NumFragments, SourceOf;
    var w, fs := x.log.written[k], x.e.config.fragmentSize;
    var m := OpenEntry(y, h, pooled);
    EntryOpens(x, y, h, pooled);
    AssemblerOnly(y, m);
    var f := m.e.assembler.At(h.sn);
    EntryShape(m.e.assembler, fs, h.sn);
    if h.total + 1 == f.total && !Marked(f.marked, h.id) {
      assert Genuine(x.log.written, h.sn, SourceOf(w));
      StoreKeepsEntries(x, m, w, id, h);
      var p := StoreFragment(m, h, HeaderBytes(SourceOf(w), id), Chunk(w.payload, fs, id));
      AssemblerOnly(m, p);
      StoredStillThere(m, h, HeaderBytes(SourceOf(w), id), Chunk(w.payload, fs, id));
      DeliverGenuine(x, p, h.sn);
    }
  }

  lemma StoredStillThere(n: Node, h: FragmentHeader, phb: bytes, data: bytes)
    requires n.Shape() && |phb| <= MAX_PACKET_HEADER_SIZE && h.id <= h.total
    requires h.total + 1 == n.e.assembler.At(h.sn).total && n.e.assembler.Has(h.sn)
    ensures StoreFragment(n, h, phb, data).e.assembler.Has(h.sn)
  {
    hide Rem, File;
  }

  /** Any datagram x ever handed to its dispatcher, arriving at y at any time. */
  lemma {:induction false} DatagramArrives(x: Node, y: Node, t: bytes, pooled: bytes)
    requires Good(x) && Good(y) && Link(x, y) && Link(y, x) && x.e.config == y.e.config
    requires t in x.log.transmitted
    ensures 0 < |t|
    ensures var r := ReadPacket(y, t, pooled).0;
      Good(r) && r.e.config == y.e.config && Link(x, r) && Link(r, x)
  {
    hide Encode, ReadPacket, FragmentDatagram, EntriesOk, DeliveriesOk, FiredOk, HeadersOk, SentOk, RecvOk, AcksOk,
      Coupled;
    var config := x.e.config;
    assert SentBy(config, x.log.written, t);
    var w :| w in x.log.written && t in DatagramsOf(config, w);
    var k :| 0 <= k < |x.log.written| && x.log.written[k] == w;
    if |w.payload| <= config.fragmentAbove {
      CompactArrives(x, y, k, pooled);
    } else {
      NumFragmentsBounds(|w.payload|, config.fragmentSize);
      var total := NumFragments(|w.payload|, config.fragmentSize);
      var id :| 0 <= id < total && t == FragmentDatagram(config, w.header, w.payload, total, id);
      FragmentArrives(x, y, k, id, pooled);
    }
    ReadPacketKeeps(y, t, pooled);
    var r := ReadPacket(y, t, pooled).0;
    WrittenGrows(y.log.written, r.log.written, x);
    FiredGrows(x.log.acked, y.log, r.log);
  }

  // ---------------------------------------------------------------- whole runs

  datatype System = System(a: Node, b: Node)

  /** What a node does on its own: the application writes, time passes, and, on a channel, the
      write loop, the retransmit loop and the keepalive of Update take their turns. */
  datatype Op = Write(payload: bytes) | Tick(time: real) | Queue(payload: bytes) | Resend(time: real) | Idle(time: real)

  ghost predicate Enabled(n: Node, op: Op)
    requires n.Shape()
  {
    match op
    case Write(_) => true
    case Tick(_) => true
    case Queue(_) => n.ch.Some?
    case Resend(_) => n.ch.Some?
    case Idle(_) => n.ch.Some?
  }

  function Perform(n: Node, op: Op): (r: Node)
    requires n.Shape() && Enabled(n, op)
    ensures r.Shape() && r.ch.Some? == n.ch.Some?
  {
    match op
    case Write(payload) => WritePacket(n, payload)
    case Tick(time) => Protocol.Tick(n, time)
    case Queue(payload) => Submit(n, payload)
    case Resend(time) => Retransmit(n, time)
    case Idle(time) => Keepalive(n, time)
  }

  /** The datagrams a node has put on the network: what its channel sent out, or, with a
      dispatcher that sends at once, everything transmitted. */
  function Wire(n: Node): seq<bytes> {
    if n.ch.Some? then n.ch.value.out else n.log.transmitted
  }

  /** Steps of the two nodes; any datagram ever put on the network may arrive, any number of times, in
      any order, or never. The pooled buffer behind a new reassembly entry holds anything. */
  datatype Step =
    | LocalA(op: Op) | LocalB(op: Op)
    | ArriveA(datagram: bytes, pooled: bytes) | ArriveB(datagram: bytes, pooled: bytes)

  ghost predicate Inv(s: System) {
    && Good(s.a) && Good(s.b) && s.a.e.config == s.b.e.config
    && Link(s.a, s.b) && Link(s.b, s.a)
  }

  ghost predicate Next(s: System, step: Step, s': System)
    requires s.a.Shape() && s.b.Shape()
  {
    match step
    case LocalA(op) => Enabled(s.a, op) && s' == s.(a := Perform(s.a, op))
    case LocalB(op) => Enabled(s.b, op) && s' == s.(b := Perform(s.b, op))
    case ArriveA(t, pooled) => 0 < |t| && t in Wire(s.b) && s' == s.(a := ReadPacket(s.a, t, pooled).0)
    case ArriveB(t, pooled) => 0 < |t| && t in Wire(s.a) && s' == s.(b := ReadPacket(s.b, t, pooled).0)
  }

  /** A local operation keeps the invariant of the node and only adds to what was written. */
  lemma {:induction false} PerformKeeps(n: Node, op: Op)
    requires Good(n) && Enabled(n, op)
    ensures var r := Perform(n, op);
      && Good(r) && r.e.config == n.e.config && r.e.assembler == n.e.assembler
      && r.log.processed == n.log.processed && r.log.acked == n.log.acked && n.log.written <= r.log.written
  {
    hide Core, WritePacket, EmitUpTo;
    match op
    case Write(payload) => WritePacketKeeps(n, payload);
    case Tick(time) => TimeOnly(n, time);
    case Queue(payload) =>
      var c' := n.ch.value.(taken := n.ch.value.taken + [payload]);
      ChannelOnly(n, n.(ch := Some(c')));
      ChannelOnly(n, n.(ch := Some(c'.(queue := c'.queue + [payload]))));
      WritePacketKeeps(n.(ch := Some(c')), payload);
    case Resend(time) => RetransmitKeeps(n, time);
    case Idle(time) =>
      var m := n.(ch := Some(n.ch.value.(keepalives := n.ch.value.keepalives + {|n.log.written|})));
      ChannelOnly(n, m);
      WritePacketKeeps(m, []);
  }

  lemma TimeOnly(n: Node, time: real)
    requires Good(n)
    ensures Good(Protocol.Tick(n, time))
  {
    hide HeaderOk, Processed, SentBy, AckedSet, FiredOnce, SlotAfter, Mirror;
    var m := n.(e := n.e.(time := time));
    assert forall s: u16 :: m.e.recv.Has(s) <==> n.e.recv.Has(s);
  }

  /** The retransmit loop changes no number and no buffer, and puts out only held buffers. */
  lemma {:induction false} EmitKeepsSlots(c: ChannelState, time: real, k: nat)
    requires c.window.WellFormed()
    ensures var r := EmitUpTo(c, time, k);
      && r.window.slots == c.window.slots && r.window.latest == c.window.latest
      && (forall s: u16 :: r.window.At(s).buf == c.window.At(s).buf)
      && forall b :: b in r.out ==> b in c.out || exists s: u16 :: c.window.Has(s) && c.window.At(s).buf == b
  {
    hide Rem;
    if k > 0 {
      EmitKeepsSlots(c, time, k - 1);
      var d, s := EmitUpTo(c, time, k - 1), Ahead(c.oldestUnacked, k - 1);
      var r := Emit(d, time, s);
      assert r == EmitUpTo(c, time, k);
      forall t: u16 ensures r.window.At(t).buf == d.window.At(t).buf {
      }
      forall b | b in r.out ensures b in c.out || exists s: u16 :: c.window.Has(s) && c.window.At(s).buf == b {
        if b !in d.out {
          assert c.window.Has(s) && c.window.At(s).buf == b;
        }
      }
    }
  }

  lemma {:induction false} RetransmitKeeps(n: Node, time: real)
    requires Good(n) && n.ch.Some?
    ensures Good(Retransmit(n, time))
  {
    hide EmitUpTo, Mirror, Core, Rem;
    var m := Retransmit(n, time);
    EmitKeepsSlots(n.ch.value, time, n.e.config.recvPacketBufferSize + 1);
    ChannelOnly(n, m);
    assert forall s: u16 :: m.ch.value.window.Has(s) <==> n.ch.value.window.Has(s);
  }

  lemma WireGenuine(n: Node, t: bytes)
    requires Good(n) && t in Wire(n)
    ensures t in n.log.transmitted
  {
    hide Core, Rem;
  }

  lemma {:induction false} NextKeeps(s: System, step: Step, s': System)
    requires Inv(s) && Next(s, step, s')
    ensures Inv(s')
  {
    hide Good, ReadPacket, DeliveriesOk, EntriesOk, FiredOk, Perform, Enabled, Wire;
    match step
    case LocalA(op) =>
      PerformKeeps(s.a, op);
      WrittenGrows(s.a.log.written, s'.a.log.written, s.b);
      FiredGrows(s.b.log.acked, s.a.log, s'.a.log);
    case LocalB(op) =>
      PerformKeeps(s.b, op);
      WrittenGrows(s.b.log.written, s'.b.log.written, s.a);
      FiredGrows(s.a.log.acked, s.b.log, s'.b.log);
    case ArriveA(t, pooled) =>
      WireGenuine(s.b, t);
      DatagramArrives(s.b, s.a, t, pooled);
    case ArriveB(t, pooled) =>
      WireGenuine(s.a, t);
      DatagramArrives(s.a, s.b, t, pooled);
  }

  /** A run: the states visited, the steps between them, from two fresh nodes. */
  ghost predicate IsRun(config: Config, states: seq<System>, steps: seq<Step>, channelA: bool, channelB: bool) {
    && config.Valid() && |states| == |steps| + 1
    && states[0] == System(NewNode(config, channelA), NewNode(config, channelB))
    && (forall i :: 0 <= i < |states| ==> states[i].a.Shape() && states[i].b.Shape())
    && forall i :: 0 <= i < |steps| ==> Next(states[i], steps[i], states[i + 1])
  }

  lemma {:induction false} RunKeeps(
    config: Config, states: seq<System>, steps: seq<Step>, channelA: bool, channelB: bool, i: nat)
    requires IsRun(config, states, steps, channelA, channelB) && i < |states|
    ensures Inv(states[i])
  {
    hide Next, Good;
    if i == 0 {
      NewNodeGood(config, channelA);
      NewNodeGood(config, channelB);
      StartLinked(config, channelA, channelB);
      StartLinked(config, channelB, channelA);
    } else {
      RunKeeps(config, states, steps, channelA, channelB, i - 1);
      NextKeeps(states[i - 1], steps[i - 1], states[i]);
    }
  }

  lemma StartLinked(config: Config, channelX: bool, channelY: bool)
    requires config.Valid()
    ensures Link(NewNode(config, channelX), NewNode(config, channelY))
  {
    hide Assembles;
  }

  /** In every state of every run a number handed to one peer's Process was written by the other, and
      while no more than 65536 payloads are written, the bytes are those written under it. */
  lemma {:induction false} DeliveriesGenuine(
    config: Config, states: seq<System>, steps: seq<Step>, channelA: bool, channelB: bool, i: nat)
    requires IsRun(config, states, steps, channelA, channelB) && i < |states|
    ensures DeliveriesOk(states[i].a.log.written, states[i].b.log.processed)
    ensures DeliveriesOk(states[i].b.log.written, states[i].a.log.processed)
  {
    hide Good, DeliveriesOk;
    RunKeeps(config, states, steps, channelA, channelB, i);
  }

  /** Whenever an ACK call has been made at x, y has already processed a packet with that number;
      and while x has not written more than 65536 payloads, y has been handed byte for byte the
      payload that x wrote under that number. */
  ghost predicate AcksSound(x: Log, y: Log) {
    forall a :: a in x.acked ==>
      && Processed(y, a.sn)
      && (|x.written| <= 0x1_0000 ==>
            a.sn < |x.written| && Delivery(a.sn, x.written[a.sn].payload) in y.processed)
  }

  /** End to end, in every state of every run, in both directions. */
  lemma {:induction false} AckSoundness(
    config: Config, states: seq<System>, steps: seq<Step>, channelA: bool, channelB: bool, i: nat)
    requires IsRun(config, states, steps, channelA, channelB) && i < |states|
    ensures AcksSound(states[i].a.log, states[i].b.log) && AcksSound(states[i].b.log, states[i].a.log)
  {
    hide Good;
    RunKeeps(config, states, steps, channelA, channelB, i);
    LinkSound(states[i].a, states[i].b);
    LinkSound(states[i].b, states[i].a);
  }

  lemma {:induction false} LinkSound(x: Node, y: Node)
    requires y.Shape() && Link(x, y)
    ensures AcksSound(x.log, y.log)
  {
    hide EntriesOk;
    forall a | a in x.log.acked ensures Processed(y.log, a.sn) && (|x.log.written| <= 0x1_0000 ==>
      a.sn < |x.log.written| && Delivery(a.sn, x.log.written[a.sn].payload) in y.log.processed)
    {
      assert Processed(y.log, a.sn);
      var k :| 0 <= k < |y.log.processed| && y.log.processed[k].sn == a.sn;
      assert DeliveryOk(x.log.written, y.log.processed[k]);
    }
  }
}
