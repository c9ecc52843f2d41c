/** The endpoint and the channel as values: one function per operation of endpoint.go and
    channel.go. A node is an endpoint, the record of the calls it made to its dispatcher, and,
    when the dispatcher is a channel, that channel. The classes of module Nodes are proved to
    compute these functions. */
module Protocol {
  import opened Words
  import opened Rings
  import opened Headers
  import opened Reassembly

  datatype Config = Config(
    fragmentAbove: nat, fragmentSize: nat, maxFragments: nat, maxPacketSize: nat, packetHeaderSize: nat,
    sentPacketBufferSize: nat, recvPacketBufferSize: nat, fragmentReassemblyBufferSize: nat) {

    /** What the source leaves to whoever writes the configuration: usable capacities, and
        packets that fit into the fragments a peer accepts and an 8-bit id can number. */
    predicate Valid() {
      && IsCap(sentPacketBufferSize) && IsCap(recvPacketBufferSize) && IsCap(fragmentReassemblyBufferSize)
      && 0 < fragmentSize && maxPacketSize <= Times(Least(maxFragments, 256), fragmentSize)
    }
  }

  datatype SentPacket = SentPacket(time: real, acked: bool, size: nat)
  datatype RecvPacket = RecvPacket(time: real, size: nat)
  datatype BufferedPacket = BufferedPacket(time: real, written: bool, buf: bytes)

  datatype EndpointState = EndpointState(
    config: Config, sn: u16, time: real,
    sent: Ring<SentPacket>, recv: Ring<RecvPacket>, assembler: Ring<Fragment>)

  /** A payload accepted by WritePacket and the header it was given. */
  datatype Write = Write(header: PacketHeader, payload: bytes)
  /** A call Process(sn, payload). */
  datatype Delivery = Delivery(sn: u16, payload: bytes)
  /** A call ACK(sn), made when at payloads had been written. */
  datatype Ack = Ack(sn: u16, at: nat)

  /** History of a node. Nothing the node does depends on it. */
  datatype Log = Log(written: seq<Write>, transmitted: seq<bytes>, processed: seq<Delivery>, acked: seq<Ack>)

  /** The fields of a channel, then three that are history: the unbounded counter behind
      oldestUnacked, the payloads taken from the write queue, and which writes were keepalives. */
  datatype ChannelState = ChannelState(
    window: Ring<BufferedPacket>, queue: seq<bytes>, oldestUnacked: u16, lastSent: real, out: seq<bytes>,
    oldest: nat, taken: seq<bytes>, keepalives: set<nat>)

  ghost predicate FragmentShape(f: Fragment, fs: nat) {
    && |f.marked| == 4 && f.headerSize <= MAX_PACKET_HEADER_SIZE
    && (f.total == 0 || |f.buf| == MAX_PACKET_HEADER_SIZE + Times(f.total, fs))
  }

  ghost predicate AssemblerShape(assembler: Ring<Fragment>, fs: nat) {
    assembler.WellFormed() && forall f :: f in assembler.entries ==> FragmentShape(f, fs)
  }

  datatype Node = Node(e: EndpointState, log: Log, ch: Option<ChannelState>) {

    ghost predicate Shape() {
      && e.config.Valid()
      && e.sent.WellFormed() && e.sent.Cap() == e.config.sentPacketBufferSize
      && e.recv.WellFormed() && e.recv.Cap() == e.config.recvPacketBufferSize
      && AssemblerShape(e.assembler, e.config.fragmentSize)
      && e.assembler.Cap() == e.config.fragmentReassemblyBufferSize
      && (ch.Some? ==> ch.value.window.WellFormed() && ch.value.window.Cap() == e.config.sentPacketBufferSize)
    }
  }

  function NewEndpoint(config: Config): EndpointState
    requires config.Valid()
  {
    EndpointState(config, 0, 0.0,
             EmptyRing(config.sentPacketBufferSize, SentPacket(0.0, false, 0)),
             EmptyRing(config.recvPacketBufferSize, RecvPacket(0.0, 0)),
             EmptyRing(config.fragmentReassemblyBufferSize, BLANK))
  }

  /** A fresh node; its dispatcher is a channel or one that only records the calls. */
  function NewNode(config: Config, channel: bool): (n: Node)
    requires config.Valid()
    ensures n.Shape()
  {
    var window := EmptyRing(config.sentPacketBufferSize, BufferedPacket(0.0, false, []));
    Node(NewEndpoint(config), Log([], [], [], []),
         if channel then Some(ChannelState(window, [], 0, 0.0, [], 0, [], {})) else None)
  }

  // ---------------------------------------------------------------- sending

  /** The dispatcher's Transmit: a channel keeps a copy in its window. */
  function Transmit(n: Node, sn: u16, buf: bytes): (r: Node)
    requires n.Shape()
    ensures r.Shape() && r.e == n.e && r.ch.Some? == n.ch.Some?
  {
    var log := n.log.(transmitted := n.log.transmitted + [buf]);
    match n.ch
    case None => n.(log := log)
    case Some(c) =>
      n.(log := log, ch := Some(c.(window := c.window.Insert(sn).Put(sn, BufferedPacket(0.0, false, buf)))))
  }

  function TransmitAll(n: Node, sn: u16, datagrams: seq<bytes>): (r: Node)
    requires n.Shape()
    ensures r.Shape() && r.e == n.e && r.ch.Some? == n.ch.Some?
  {
    if datagrams == [] then n
    else Transmit(TransmitAll(n, sn, datagrams[..|datagrams| - 1]), sn, datagrams[|datagrams| - 1])
  }

  function FragmentDatagram(config: Config, h: PacketHeader, payload: bytes, total: nat, id: nat): bytes
    requires 0 < total
  {
    EncodeFragment(FragmentHeader(h.sn, id % 0x100, (total - 1) % 0x100))
      + (if id == 0 then Encode(h) else []) + Chunk(payload, config.fragmentSize, id)
  }

  /** What goes out for one payload: one datagram, or its fragments in order. */
  function Datagrams(config: Config, h: PacketHeader, payload: bytes): seq<bytes>
    requires 0 < config.fragmentSize
  {
    if |payload| <= config.fragmentAbove then [Encode(h) + payload]
    else
      NumFragmentsBounds(|payload|, config.fragmentSize);
      var total := NumFragments(|payload|, config.fragmentSize);
      seq(total, id requires 0 <= id < total => FragmentDatagram(config, h, payload, total, id))
  }

  function NextHeader(e: EndpointState): PacketHeader
    requires e.recv.WellFormed()
  {
    PacketHeader(e.sn, e.recv.NextACK().0, e.recv.NextACK().1)
  }

  /** Everything WritePacket does before it hands datagrams to the dispatcher. */
  function Assign(n: Node, payload: bytes): (r: Node)
    requires n.Shape()
    ensures r.Shape() && r.ch == n.ch
  {
    var e := n.e;
    var packet := SentPacket(e.time, false, e.config.packetHeaderSize + |payload|);
    n.(e := e.(sn := Wrap16(e.sn + 1), sent := e.sent.Insert(e.sn).Put(e.sn, packet)),
       log := n.log.(written := n.log.written + [Write(NextHeader(e), payload)]))
  }

  function WritePacket(n: Node, payload: bytes): (r: Node)
    requires n.Shape()
    ensures r.Shape() && r.ch.Some? == n.ch.Some?
  {
    if |payload| > n.e.config.maxPacketSize then n
    else TransmitAll(Assign(n, payload), n.e.sn, Datagrams(n.e.config, NextHeader(n.e), payload))
  }

  function TotalSize(datagrams: seq<bytes>): nat {
    if datagrams == [] then 0 else TotalSize(datagrams[..|datagrams| - 1]) + |datagrams[|datagrams| - 1]|
  }

  /** What WritePacket returns: the number of bytes transmitted. */
  function WrittenSize(n: Node, payload: bytes): nat
    requires n.Shape()
  {
    if |payload| > n.e.config.maxPacketSize then 0
    else TotalSize(Datagrams(n.e.config, NextHeader(n.e), payload))
  }

  // ---------------------------------------------------------------- receiving

  datatype Outcome =
    | Accepted
    | BadFragmentHeader | InvalidFragment | BadPacketHeader | SeqMismatch
    | StaleFragment | TotalMismatch | DuplicateFragment | StalePacket
    | Overrun   // a last fragment so long that slicing goes past the capacity of the buffer: a panic

  function ReadPacket(n: Node, buf: bytes, pooled: bytes): (r: (Node, Outcome))
    requires n.Shape() && 0 < |buf|
    ensures r.0.Shape() && r.0.ch.Some? == n.ch.Some?
  {
    if Toggled(buf[0], FLAG_FRAGMENT) then RecvFragmented(n, buf, pooled) else RecvCompact(n, buf)
  }

  /** Decodes and checks the headers of a fragment; on success the bytes of the packet header
      (of fragment 0 only) and the data. */
  function OpenFragment(buf: bytes, maxFragments: nat): (r: (FragmentHeader, bytes, bytes, Outcome))
    ensures r.3.Accepted? ==> |r.1| <= MAX_PACKET_HEADER_SIZE && r.0.id <= r.0.total
  {
    var d := DecodeFragment(buf);
    var h := d.header;
    if !d.ok then (h, [], [], BadFragmentHeader)
    else if !h.Validate(maxFragments) then (h, [], [], InvalidFragment)
    else if h.id != 0 then (h, [], d.leftover, Accepted)
    else
      DecodeLeavesSuffix(d.leftover);
      var p := Decode(d.leftover);
      if !p.ok then (h, [], [], BadPacketHeader)
      else if p.header.sn != h.sn then (h, [], [], SeqMismatch)
      else (h, d.leftover[..|d.leftover| - |p.leftover|], p.leftover, Accepted)
  }

  function RecvFragmented(n: Node, buf: bytes, pooled: bytes): (r: (Node, Outcome))
    requires n.Shape()
    ensures r.0.Shape() && r.0.ch.Some? == n.ch.Some?
  {
    var (h, phb, data, outcome) := OpenFragment(buf, n.e.config.maxFragments);
    if !outcome.Accepted? then (n, outcome)
    else if !n.e.assembler.Has(h.sn) && n.e.assembler.IsOutdated(h.sn) then (n, StaleFragment)
    else FileFragment(OpenEntry(n, h, pooled), h, phb, data)
  }

  /** The reassembly entry of a fragment's packet, opened if there is none yet. */
  function OpenEntry(n: Node, h: FragmentHeader, pooled: bytes): (r: Node)
    requires n.Shape()
    ensures r.Shape() && r.ch == n.ch && r.log == n.log && r.e == n.e.(assembler := r.e.assembler)
  {
    if n.e.assembler.Has(h.sn) then n
    else
      n.(e := n.e.(assembler := n.e.assembler.Insert(h.sn).Put(
        h.sn, Open(h.total + 1, n.e.config.fragmentSize, pooled))))
  }

  lemma EntryShape(assembler: Ring<Fragment>, fs: nat, sn: u16)
    requires AssemblerShape(assembler, fs)
    ensures FragmentShape(assembler.At(sn), fs)
  {
    assert assembler.At(sn) in assembler.entries;
  }

  /** Stores the fragment in its entry, which has room for it. */
  function StoreFragment(n: Node, h: FragmentHeader, phb: bytes, data: bytes): (r: Node)
    requires n.Shape() && |phb| <= MAX_PACKET_HEADER_SIZE && h.id <= h.total
    requires h.total + 1 == n.e.assembler.At(h.sn).total
    ensures r.Shape() && r.ch == n.ch && r.log == n.log && r.e == n.e.(assembler := r.e.assembler)
    ensures FragmentShape(r.e.assembler.At(h.sn), n.e.config.fragmentSize)
  {
    var fs, f := n.e.config.fragmentSize, n.e.assembler.At(h.sn);
    EntryShape(n.e.assembler, fs, h.sn);
    TimesMonotone(h.id, f.total, fs);
    var g := File(f, fs, h.id, h.total, phb, data);
    n.(e := n.e.(assembler := n.e.assembler.Put(h.sn, g)))
  }

  function FileFragment(n: Node, h: FragmentHeader, phb: bytes, data: bytes): (r: (Node, Outcome))
    requires n.Shape() && |phb| <= MAX_PACKET_HEADER_SIZE && h.id <= h.total
    ensures r.0.Shape() && r.0.ch.Some? == n.ch.Some?
  {
    var f := n.e.assembler.At(h.sn);
    EntryShape(n.e.assembler, n.e.config.fragmentSize, h.sn);
    if h.total + 1 != f.total then (n, TotalMismatch)
    else if Marked(f.marked, h.id) then (n, DuplicateFragment)
    else Deliver(StoreFragment(n, h, phb, data), h.sn)
  }

  /** Hands a packet on once it has all its fragments, and gives its entry up. */
  function Deliver(n: Node, sn: u16): (r: (Node, Outcome))
    requires n.Shape()
    ensures r.0.Shape() && r.0.ch.Some? == n.ch.Some?
  {
    var g := n.e.assembler.At(sn);
    EntryShape(n.e.assembler, n.e.config.fragmentSize, sn);
    if g.recv != g.total then (n, Accepted)
    else if !Fits(g) then (n, Overrun)
    else
      var (n', outcome) := RecvCompact(n, Assembled(g));
      (n'.(e := n'.e.(assembler := n'.e.assembler.Remove(sn))), outcome)
  }

  function RecvCompact(n: Node, buf: bytes): (r: (Node, Outcome))
    requires n.Shape()
    ensures r.0.Shape() && r.0.ch.Some? == n.ch.Some?
  {
    var d := Decode(buf);
    if !d.ok then (n, BadPacketHeader)
    else if n.e.recv.IsOutdated(d.header.sn) then (n, StalePacket)
    else (ProcessACKs(Record(n, d.header.sn, d.leftover), d.header.ack, d.header.acks, 0), Accepted)
  }

  /** Marks a packet received and hands its payload to the dispatcher. */
  function Record(n: Node, sn: u16, payload: bytes): (r: Node)
    requires n.Shape()
    ensures r.Shape() && r.ch == n.ch
  {
    var packet := RecvPacket(n.e.time, n.e.config.packetHeaderSize + |payload|);
    n.(e := n.e.(recv := n.e.recv.Insert(sn).Put(sn, packet)),
       log := n.log.(processed := n.log.processed + [Delivery(sn, payload)]))
  }

  /** The shifting loop over the acknowledgement set, from its i-th turn. */
  function ProcessACKs(n: Node, ack: u16, bitset: u32, i: nat): (r: Node)
    requires n.Shape() && i <= 32
    ensures r.Shape() && r.ch.Some? == n.ch.Some?
    decreases 32 - i
  {
    if i == 32 then n
    else
      var n' := if bitset % 2 == 0 then n else AckOne(n, Back(ack, i));
      ProcessACKs(n', ack, bitset / 2, i + 1)
  }

  function AckOne(n: Node, sn: u16): (r: Node)
    requires n.Shape()
    ensures r.Shape() && r.ch.Some? == n.ch.Some?
  {
    if !n.e.sent.Has(sn) || n.e.sent.At(sn).acked then n
    else
      var n' := MarkAcked(n, sn);
      if n'.ch.None? then n' else ChannelACK(n', sn)
  }

  /** Sets the acked flag and calls the dispatcher's ACK. */
  function MarkAcked(n: Node, sn: u16): (r: Node)
    requires n.Shape()
    ensures r.Shape() && r.ch == n.ch
  {
    n.(e := n.e.(sent := n.e.sent.Put(sn, n.e.sent.At(sn).(acked := true))),
       log := n.log.(acked := n.log.acked + [Ack(sn, |n.log.written|)]))
  }

  // ---------------------------------------------------------------- the channel

  /** The first k from the given one up to limit for which base + k is held, else limit. */
  function NextHeld(window: Ring<BufferedPacket>, base: u16, k: nat, limit: nat): (r: nat)
    requires window.WellFormed() && k <= limit
    ensures k <= r <= limit
    decreases limit - k
  {
    if k == limit || window.Has(Ahead(base, k)) then k else NextHeld(window, base, k + 1, limit)
  }

  /** Channel.ACK: drops the packet, and when it was the oldest, moves on and sends backlog. */
  function ChannelACK(n: Node, sn: u16): (r: Node)
    requires n.Shape() && n.ch.Some?
    ensures r.Shape() && r.ch.Some?
  {
    var c := n.ch.value;
    if !c.window.Has(sn) then n
    else
      var n' := n.(ch := Some(c.(window := c.window.Remove(sn))));
      if sn != c.oldestUnacked then n' else Advance(n')
  }

  function Advance(n: Node): (r: Node)
    requires n.Shape() && n.ch.Some?
    ensures r.Shape() && r.ch.Some?
  {
    var c := n.ch.value;
    var k := NextHeld(c.window, c.oldestUnacked, 1, n.e.config.recvPacketBufferSize);
    Flush(n.(ch := Some(c.(oldestUnacked := Ahead(c.oldestUnacked, k), oldest := c.oldest + k))), k)
  }

  /** Writes up to k queued payloads. */
  function Flush(n: Node, k: nat): (r: Node)
    requires n.Shape() && n.ch.Some?
    ensures r.Shape() && r.ch.Some?
    decreases k
  {
    var c := n.ch.value;
    if k == 0 || c.queue == [] then n
    else Flush(WritePacket(n.(ch := Some(c.(queue := c.queue[1..]))), c.queue[0]), k - 1)
  }

  /** One turn of the write loop of Update. */
  function Submit(n: Node, payload: bytes): (r: Node)
    requires n.Shape() && n.ch.Some?
    ensures r.Shape() && r.ch.Some?
  {
    var c := n.ch.value;
    var c' := c.(taken := c.taken + [payload]);
    if Ahead(c.oldestUnacked, n.e.config.recvPacketBufferSize) == n.e.sn
    then n.(ch := Some(c'.(queue := c.queue + [payload])))
    else WritePacket(n.(ch := Some(c')), payload)
  }

  /** One turn of the retransmit loop: sends what is held and was not sent within 0.1 s. */
  function Emit(c: ChannelState, time: real, sn: u16): (r: ChannelState)
    requires c.window.WellFormed()
    ensures r.window.WellFormed() && r.window.Cap() == c.window.Cap()
  {
    if !c.window.Has(sn) then c
    else
      var packet := c.window.At(sn);
      if packet.written && time - packet.time < 0.1 then c
      else
        c.(window := c.window.Put(sn, packet.(written := true, time := time)), lastSent := time,
          out := c.out + [packet.buf])
  }

  /** The first k turns of the retransmit loop. */
  function EmitUpTo(c: ChannelState, time: real, k: nat): (r: ChannelState)
    requires c.window.WellFormed()
    ensures r.window.WellFormed() && r.window.Cap() == c.window.Cap() && r.oldestUnacked == c.oldestUnacked
  {
    if k == 0 then c else Emit(EmitUpTo(c, time, k - 1), time, Ahead(c.oldestUnacked, k - 1))
  }

  function Retransmit(n: Node, time: real): (r: Node)
    requires n.Shape() && n.ch.Some?
    ensures r.Shape() && r.ch.Some? && r.e == n.e && r.log == n.log
  {
    n.(ch := Some(EmitUpTo(n.ch.value, time, n.e.config.recvPacketBufferSize + 1)))
  }

  /** An empty packet after 0.1 s of silence. */
  function Keepalive(n: Node, time: real): (r: Node)
    requires n.Shape() && n.ch.Some?
    ensures r.Shape() && r.ch.Some?
  {
    var c := n.ch.value;
    if time - c.lastSent < 0.1 then n
    else WritePacket(n.(ch := Some(c.(keepalives := c.keepalives + {|n.log.written|}))), [])
  }

  /** The read loop of Update: how many packets were consumed, and whether all were accepted. */
  function ReadAll(n: Node, bufs: seq<bytes>, pooled: seq<bytes>): (r: (Node, nat, bool))
    requires n.Shape() && n.ch.Some? && |pooled| == |bufs| && forall b :: b in bufs ==> 0 < |b|
    ensures r.0.Shape() && r.0.ch.Some? && r.1 <= |bufs|
  {
    if bufs == [] then (n, 0, true)
    else
      var (m, k, ok) := ReadAll(n, bufs[..|bufs| - 1], pooled[..|bufs| - 1]);
      if !ok then (m, k, false)
      else
        var (m', outcome) := ReadPacket(m, bufs[|bufs| - 1], pooled[|bufs| - 1]);
        (m', |bufs|, outcome.Accepted?)
  }

  /** The write loop of Update. */
  function SubmitAll(n: Node, payloads: seq<bytes>): (r: Node)
    requires n.Shape() && n.ch.Some?
    ensures r.Shape() && r.ch.Some?
  {
    if payloads == [] then n
    else Submit(SubmitAll(n, payloads[..|payloads| - 1]), payloads[|payloads| - 1])
  }

  function Tick(n: Node, time: real): (r: Node)
    requires n.Shape()
    ensures r.Shape() && r.ch == n.ch
  {
    n.(e := n.e.(time := time))
  }

  /** Channel.Update with these contents of its two input queues; reading stops at the first
      packet refused, and then nothing else happens. */
  function Update(
    n: Node, time: real, incoming: seq<bytes>, pooled: seq<bytes>, outgoing: seq<bytes>): (r: (Node, nat, bool))
    requires n.Shape() && n.ch.Some? && |pooled| == |incoming| && forall b :: b in incoming ==> 0 < |b|
    ensures r.0.Shape() && r.0.ch.Some? && r.1 <= |incoming|
  {
    var (m, k, ok) := ReadAll(Tick(n, time), incoming, pooled);
    if !ok then (m, k, false)
    else (Keepalive(Retransmit(SubmitAll(m, outgoing), time), time), k, true)
  }
}
