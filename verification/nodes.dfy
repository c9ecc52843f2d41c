/** Endpoint and Channel as objects, each method proved to compute the function of module Protocol
    of the same name. Endpoint and Channel refer to each other: an ACK call that a received packet
    causes makes the channel write through the very endpoint that is still processing it. */
module Nodes {
  import opened Words
  import opened Serial
  import opened Rings
  import opened Headers
  import opened Reassembly
  import opened Buffers
  import opened History
  import opened Acknowledge
  import opened Retransmission
  import Network
  import Sliding
  import P = Protocol

  class Endpoint {
    const config: P.Config
    var sn: u16
    var time: real
    const sent: RingBuffer<P.SentPacket>
    const recv: RingBuffer<P.RecvPacket>
    const assembler: RingBuffer<Fragment>
    /** The dispatcher: a channel, or, when null, one that only keeps the record below. */
    var channel: Channel?
    /** The calls made to the dispatcher. */
    var log: P.Log

    ghost function Repr(): set<object>
      reads this
    {
      {this} + sent.Repr() + recv.Repr() + assembler.Repr() +
      if channel == null then {} else {channel} + channel.window.Repr()
    }

    /** The buffers are in order and share nothing. */
    ghost predicate Apart()
      reads this
    {
      && sent.Valid() && recv.Valid() && assembler.Valid()
      && this !in sent.Repr() && this !in recv.Repr() && this !in assembler.Repr()
      && sent.Repr() !! recv.Repr() && sent.Repr() !! assembler.Repr() && recv.Repr() !! assembler.Repr()
      && (channel != null ==>
            && channel.endpoint == this && channel.window.Valid()
            && channel !in {this} + sent.Repr() + recv.Repr() + assembler.Repr() + channel.window.Repr()
            && channel.window.Repr() !! {this} + sent.Repr() + recv.Repr() + assembler.Repr())
    }

    ghost function State(): P.Node
      requires Apart()
      reads this, Repr()
    {
      P.Node(P.EndpointState(config, sn, time, sent.Value(), recv.Value(), assembler.Value()), log,
             if channel == null then None else Some(channel.Value()))
    }

    ghost predicate Ready()
      reads this, Repr()
      ensures Ready() ==> Apart() && State().Shape()
    {
      Apart() && State().Shape()
    }

    /** The invariant of every reachable node. */
    ghost predicate Valid()
      reads this, Repr()
      ensures Valid() ==> Ready()
    {
      Apart() && Good(State())
    }

    constructor (config: P.Config)
      requires config.Valid()
      ensures Valid() && fresh(Repr()) && channel == null && this.config == config
      ensures State() == P.NewNode(config, false)
      ensures sn == 0 && time == 0.0 && log == P.Log([], [], [], [])
    {
      this.config := config;
      sn, time := 0, 0.0;
      sent := new RingBuffer(config.sentPacketBufferSize, P.SentPacket(0.0, false, 0));
      recv := new RingBuffer(config.recvPacketBufferSize, P.RecvPacket(0.0, 0));
      assembler := new RingBuffer(config.fragmentReassemblyBufferSize, BLANK);
      channel := null;
      log := P.Log([], [], [], []);
      new;
      NewNodeGood(config, false);
    }

    method Update(t: real)
      requires Valid()
      modifies this`time
      ensures Valid() && time == t && State() == P.Tick(old(State()), t)
    {
      hide Good;
      Network.TimeOnly(State(), t);
      time := t;
    }

    /** Makes a fresh channel the dispatcher. */
    method Attach(c: Channel)
      requires Apart() && channel == null && c.endpoint == this && c.window.Valid()
      requires c !in Repr() && c !in c.window.Repr() && c.window.Repr() !! Repr()
      modifies this`channel
      ensures channel == c && Apart() && State() == old(State()).(ch := Some(c.Value()))
    {
      channel := c;
    }

    method Transmit(s: u16, datagram: bytes)
      requires Ready() && (channel != null ==> !channel.window.Value().IsOutdated(s))
      modifies Repr()
      ensures Ready() && channel == old(channel) && State() == P.Transmit(old(State()), s, datagram)
    {
      log := log.(transmitted := log.transmitted + [datagram]);
      if channel != null {
        channel.Transmit(s, datagram);
      }
    }

    /** Gives the payload a number and a header, and hands the datagrams to the dispatcher. */
    method WritePacket(buf: bytes) returns (written: nat)
      requires Valid()
      modifies Repr()
      ensures Valid() && channel == old(channel) && Repr() == old(Repr())
      ensures State() == P.WritePacket(old(State()), buf) && written == P.WrittenSize(old(State()), buf)
    {
      hide Good, P.TransmitAll, P.Datagrams, P.Assign, P.NextHeader, P.TotalSize, P.Node.Shape;
      ghost var start := State();
      WritePacketKeeps(start, buf);
      if |buf| > config.maxPacketSize {
        return 0;
      }
      var header := Number(buf);
      if |buf| <= config.fragmentAbove {
        written := SendCompact(start, header, buf);
      } else {
        written := SendFragments(start, header, buf);
      }
    }

    /** The branch of WritePacket for small payloads: header and payload in one datagram. */
    method SendCompact(ghost start: P.Node, header: PacketHeader, buf: bytes) returns (written: nat)
      requires Ready() && Good(start) && |buf| <= config.fragmentAbove && |buf| <= config.maxPacketSize
      requires State() == P.Assign(start, buf) && header == P.NextHeader(start.e)
      modifies Repr()
      ensures Ready() && channel == old(channel)
      ensures State() == P.WritePacket(start, buf) && written == P.WrittenSize(start, buf)
    {
      hide Good, P.TransmitAll, P.Datagrams, P.Assign, P.NextHeader, P.TotalSize, P.Node.Shape, AppendHeader, Encode;
      AssignedSame(start, buf);
      ghost var datagrams := P.Datagrams(config, header, buf);
      CompactIs(config, header, buf);
      var scratch := AppendHeader(header, []);
      AppendHeaderIs(header, []);
      scratch := scratch + buf;
      SendStep(start, buf, datagrams, 0, scratch);
      TransmitNone(State(), header.sn);
      Transmit(header.sn, scratch);
      written := |scratch|;
    }

    /** The part of WritePacket before anything is sent. */
    method Number(buf: bytes) returns (header: PacketHeader)
      requires Valid() && |buf| <= config.maxPacketSize
      modifies Repr()
      ensures Ready() && channel == old(channel)
      ensures State() == P.Assign(old(State()), buf) && header == P.NextHeader(old(State()).e)
    {
      hide Good, P.Node.Shape, AckBits;
      AssignFits(State(), buf);
      var s := sn;
      sn := Wrap16(sn + 1);
      RecordSent(s, P.SentPacket(time, false, config.packetHeaderSize + |buf|));
      var ack, acks := recv.NextACK();
      header := PacketHeader(s, ack, acks);
      log := log.(written := log.written + [P.Write(header, buf)]);
      assert State() == P.Assign(old(State()), buf);
    }

    method RecordSent(s: u16, packet: P.SentPacket)
      requires Apart() && !sent.Value().IsOutdated(s)
      modifies sent.Repr()
      ensures Apart() && State() == old(State()).(
        e := old(State()).e.(sent := old(sent.Value()).Insert(s).Put(s, packet)))
    {
      var entry := sent.Insert(s);
      sent.Store(entry.value, s, packet);
    }

    /** The branch of WritePacket for payloads that are cut up. */
    method SendFragments(ghost start: P.Node, header: PacketHeader, buf: bytes) returns (written: nat)
      requires Ready() && Good(start) && config.fragmentAbove < |buf| <= config.maxPacketSize
      requires State() == P.Assign(start, buf) && header == P.NextHeader(start.e)
      modifies Repr()
      ensures Ready() && channel == old(channel)
      ensures State() == P.WritePacket(start, buf) && written == P.WrittenSize(start, buf)
    {
      hide Good, P.TransmitAll, P.Datagrams, P.Assign, P.NextHeader, P.TotalSize, P.Node.Shape;
      AssignedSame(start, buf);
      var size := |buf|;
      var total := size / config.fragmentSize;
      if size % config.fragmentSize != 0 {
        total := total + 1;
      }
      TotalIs(size, config.fragmentSize);
      written := SendLoop(start, header, buf, total);
    }

    method SendLoop(ghost start: P.Node, header: PacketHeader, buf: bytes, total: nat) returns (written: nat)
      requires Ready() && Good(start) && start.e.config == config &&
        config.fragmentAbove < |buf| <= config.maxPacketSize
      requires State() == P.Assign(start, buf) && header == P.NextHeader(start.e)
      requires config.Valid() && total == NumFragments(|buf|, config.fragmentSize)
      modifies Repr()
      ensures Ready() && channel == old(channel)
      ensures State() == P.TransmitAll(P.Assign(start, buf), header.sn, P.Datagrams(config, header, buf))
      ensures written == P.TotalSize(P.Datagrams(config, header, buf))
    {
      hide Good, P.TransmitAll, P.Datagrams, P.Assign, P.NextHeader, P.TotalSize, P.Node.Shape, NumFragments, Apart,
        SentSoFar;
      NothingSent(start, buf);
      var id, rest := 0, buf;
      written := 0;
      while id < total
        invariant id <= total && Ready() && channel == old(channel)
        invariant SentSoFar(start, buf, State(), id, rest, written)
      {
        rest, written := SendFragment(start, header, buf, total, id, rest, written);
        id := id + 1;
      }
      EverythingSent(start, buf, State(), rest, written);
    }

    /** One turn of the fragment loop: the data left, and the bytes written so far. */
    method SendFragment(
      ghost start: P.Node, header: PacketHeader, ghost buf: bytes, total: nat, id: nat, rest: bytes, written: nat)
      returns (left: bytes, total': nat)
      requires Ready() && Good(start) && start.e.config == config &&
        config.fragmentAbove < |buf| <= config.maxPacketSize
      requires header == P.NextHeader(start.e) && id < total == NumFragments(|buf|, config.fragmentSize)
      requires SentSoFar(start, buf, State(), id, rest, written)
      modifies Repr()
      ensures Ready() && channel == old(channel)
      ensures SentSoFar(start, buf, State(), id + 1, left, total')
    {
      hide Good, P.TransmitAll, P.Datagrams, P.Assign, P.FragmentDatagram, P.NextHeader, P.TotalSize, P.Node.Shape,
        AppendHeader, EncodeFragment, NumFragments, Times, Least;
      AssignedSame(start, buf);
      FragmentsAre(config, header, buf);
      var scratch := EncodeFragment(FragmentHeader(header.sn, id % 0x100, (total - 1) % 0x100));
      if id == 0 {
        scratch := AppendHeader(header, scratch);
      }
      var cutoff := if |rest| > config.fragmentSize then config.fragmentSize else |rest|;
      scratch, left := scratch + rest[..cutoff], rest[cutoff..];
      FragmentBuilt(config, header, buf, total, id, rest, scratch);
      SendStep(start, buf, P.Datagrams(config, header, buf), id, scratch);
      Transmit(header.sn, scratch);
      total' := written + |scratch|;
    }

    // -------------------------------------------------------------- receiving

    /** One received datagram. pooled is what the buffer taken from the pool happens to hold. */
    method ReadPacket(buf: bytes, pooled: bytes) returns (outcome: P.Outcome)
      requires Valid() && 0 < |buf|
      modifies Repr()
      ensures Valid() && channel == old(channel) && Repr() == old(Repr())
      ensures (State(), outcome) == P.ReadPacket(old(State()), buf, pooled)
    {
      hide Good, P.RecvFragmented, P.RecvCompact;
      if Toggled(buf[0], FLAG_FRAGMENT) {
        outcome := RecvFragmented(buf, pooled);
      } else {
        outcome := RecvCompact(buf);
      }
    }

    method RecvFragmented(buf: bytes, pooled: bytes) returns (outcome: P.Outcome)
      requires Valid()
      modifies Repr()
      ensures Valid() && channel == old(channel)
      ensures (State(), outcome) == P.RecvFragmented(old(State()), buf, pooled)
    {
      hide Good, DecodeFragment, Decode, P.FileFragment, P.OpenEntry;
      var d := DecodeFragment(buf);
      if !d.ok {
        return P.BadFragmentHeader;
      }
      var h := d.header;
      if !h.Validate(config.maxFragments) {
        return P.InvalidFragment;
      }
      var phb, data := [], d.leftover;
      if h.id == 0 {
        DecodeLeavesSuffix(d.leftover);
        var p := Decode(d.leftover);
        if !p.ok {
          return P.BadPacketHeader;
        }
        if p.header.sn != h.sn {
          return P.SeqMismatch;
        }
        phb, data := d.leftover[..|d.leftover| - |p.leftover|], p.leftover;
      }
      var stale := FindEntry(h, pooled);
      if stale {
        return P.StaleFragment;
      }
      outcome := FileFragment(h, phb, data);
    }

    /** Finds the reassembly entry of a fragment's packet, or opens one. */
    method FindEntry(h: FragmentHeader, pooled: bytes) returns (stale: bool)
      requires Valid()
      modifies assembler.Repr()
      ensures Valid() && stale == (!old(State()).e.assembler.Has(h.sn) && old(State()).e.assembler.IsOutdated(h.sn))
      ensures State() == if stale then old(State()) else P.OpenEntry(old(State()), h, pooled)
    {
      hide Good, Open;
      stale := false;
      var entry := assembler.Find(h.sn);
      if entry.None? {
        AssemblerOnly(State(), P.OpenEntry(State(), h, pooled));
        entry := assembler.Insert(h.sn);
        if entry.None? {
          return true;
        }
        assembler.Store(entry.value, h.sn, Open(h.total + 1, config.fragmentSize, pooled));
      }
    }

    method FileFragment(h: FragmentHeader, phb: bytes, data: bytes) returns (outcome: P.Outcome)
      requires Valid() && |phb| <= MAX_PACKET_HEADER_SIZE && h.id <= h.total
      modifies Repr()
      ensures Valid() && channel == old(channel)
      ensures (State(), outcome) == P.FileFragment(old(State()), h, phb, data)
    {
      hide Good, Marked, P.StoreFragment, P.Deliver;
      var i: nat := h.sn % assembler.entries.Length;
      QuotRemAreGo(h.sn, assembler.entries.Length);
      var f := assembler.entries[i];
      P.EntryShape(State().e.assembler, config.fragmentSize, h.sn);
      if h.total + 1 != f.total {
        return P.TotalMismatch;
      }
      if Marked(f.marked, h.id) {
        return P.DuplicateFragment;
      }
      StoreFragment(i, h, phb, data);
      outcome := Deliver(i, h.sn);
    }

    /** Files the fragment in its entry, field by field. */
    method StoreFragment(i: nat, h: FragmentHeader, phb: bytes, data: bytes)
      requires Valid() && |phb| <= MAX_PACKET_HEADER_SIZE && h.id <= h.total
      requires i == State().e.assembler.IndexOf(h.sn) && h.total + 1 == State().e.assembler.At(h.sn).total
      modifies assembler.Repr()
      ensures Valid() && State() == P.StoreFragment(old(State()), h, phb, data)
    {
      hide Good, Mark, CopyAt;
      var f, fs := assembler.entries[i], config.fragmentSize;
      P.EntryShape(State().e.assembler, fs, h.sn);
      TimesMonotone(h.id, f.total, fs);
      TimesIsProduct(h.id, fs);
      TimesIsProduct(h.total, fs);
      AssemblerOnly(State(), P.StoreFragment(State(), h, phb, data));
      f := f.(marked := Mark(f.marked, h.id));
      if h.id == 0 {
        f := f.(headerSize := |phb|, buf := CopyAt(f.buf, MAX_PACKET_HEADER_SIZE - |phb|, phb));
      }
      if h.id == h.total {
        f := f.(packetSize := h.total * fs + |data|);
      }
      f := f.(buf := CopyAt(f.buf, MAX_PACKET_HEADER_SIZE + h.id * fs, data));
      f := f.(recv := f.recv + 1);
      assembler.Store(i, h.sn, f);
    }

    method Deliver(i: nat, s: u16) returns (outcome: P.Outcome)
      requires Valid() && i == State().e.assembler.IndexOf(s)
      modifies Repr()
      ensures Valid() && channel == old(channel)
      ensures (State(), outcome) == P.Deliver(old(State()), s)
    {
      hide Good, P.RecvCompact;
      var f := assembler.entries[i];
      P.EntryShape(State().e.assembler, config.fragmentSize, s);
      if f.recv != f.total {
        return P.Accepted;
      }
      var buf := f.buf + f.slack;
      if MAX_PACKET_HEADER_SIZE + f.packetSize > |buf| {
        return P.Overrun;
      }
      outcome := RecvCompact(buf[MAX_PACKET_HEADER_SIZE - f.headerSize..MAX_PACKET_HEADER_SIZE + f.packetSize]);
      AssemblerOnly(State(), State().(e := State().e.(assembler := State().e.assembler.Remove(s))));
      assembler.Remove(s);
    }

    method RecvCompact(buf: bytes) returns (outcome: P.Outcome)
      requires Valid()
      modifies Repr()
      ensures Valid() && channel == old(channel)
      ensures (State(), outcome) == P.RecvCompact(old(State()), buf)
    {
      hide Good, Decode, P.ProcessACKs;
      var d := Decode(buf);
      if !d.ok {
        return P.BadPacketHeader;
      }
      var fits := Record(d.header.sn, d.leftover);
      if !fits {
        return P.StalePacket;
      }
      ProcessACKs(d.header.ack, d.header.acks);
      outcome := P.Accepted;
    }

    /** Marks the packet received and hands its payload to the dispatcher. */
    method Record(s: u16, payload: bytes) returns (fits: bool)
      requires Valid()
      modifies this, recv.Repr()
      ensures Valid() && channel == old(channel) && fits == !old(State()).e.recv.IsOutdated(s)
      ensures State() == if fits then P.Record(old(State()), s, payload) else old(State())
    {
      hide Good;
      RecordKeeps(State(), s, payload);
      var packet := recv.Insert(s);
      if packet.None? {
        return false;
      }
      log := log.(processed := log.processed + [P.Delivery(s, payload)]);
      recv.Store(packet.value, s, P.RecvPacket(time, config.packetHeaderSize + |payload|));
      fits := true;
    }

    /** Shifts through the set, newest number first. */
    method ProcessACKs(ack: u16, acks: u32)
      requires Valid()
      modifies Repr()
      ensures Valid() && channel == old(channel)
      ensures State() == P.ProcessACKs(old(State()), ack, acks, 0)
    {
      hide Good, P.AckOne;
      var i: nat, bitset := 0, acks;
      while i < 32
        invariant i <= 32 && Valid() && channel == old(channel)
        invariant P.ProcessACKs(State(), ack, bitset, i) == P.ProcessACKs(old(State()), ack, acks, 0)
      {
        if bitset % 2 != 0 {
          AckOne(Wrap16(ack - i));
        }
        i, bitset := i + 1, bitset / 2;
      }
    }

    /** The body of that loop: an ACK call for a packet sent and not acknowledged before. */
    method AckOne(s: u16)
      requires Valid()
      modifies Repr()
      ensures Valid() && channel == old(channel) && State() == P.AckOne(old(State()), s)
    {
      hide Good, Core, P.ChannelACK, MirroredBut, Buffered;
      AckOneKeeps(State(), s);
      var entry := sent.Find(s);
      if entry.None? {
        return;
      }
      var packet := sent.entries[entry.value];
      if packet.acked {
        return;
      }
      MarkKeeps(State(), s);
      sent.Store(entry.value, s, packet.(acked := true));
      log := log.(acked := log.acked + [P.Ack(s, |log.written|)]);
      if channel != null {
        channel.ACK(s);
      }
    }
  }

  /** The two input queues of a channel, readQueue and writeQueue: Go channels of byte slices,
      without the blocking. */
  class Inputs {
    var reading: seq<bytes>
    var writing: seq<bytes>

    constructor ()
      ensures reading == [] && writing == []
    {
      reading, writing := [], [];
    }

    method TryRead() returns (b: Option<bytes>)
      modifies this`reading
      ensures old(reading) == [] ==> b == None && reading == []
      ensures old(reading) != [] ==> b == Some(old(reading)[0]) && reading == old(reading)[1..]
    {
      if reading == [] {
        return None;
      }
      b := Some(reading[0]);
      reading := reading[1..];
    }

    method TryWrite() returns (b: Option<bytes>)
      modifies this`writing
      ensures old(writing) == [] ==> b == None && writing == []
      ensures old(writing) != [] ==> b == Some(old(writing)[0]) && writing == old(writing)[1..]
    {
      if writing == [] {
        return None;
      }
      b := Some(writing[0]);
      writing := writing[1..];
    }
  }

  class Channel {
    const endpoint: Endpoint
    const window: RingBuffer<P.BufferedPacket>
    const inputs: Inputs
    /** What has been put into the out queue so far. */
    var outQueue: seq<bytes>
    var queue: seq<bytes>
    var oldestUnacked: u16
    var lastSent: real
    ghost var oldest: nat
    ghost var taken: seq<bytes>
    ghost var keepalives: set<nat>

    ghost function Value(): P.ChannelState
      requires window.Valid()
      reads this, window.Repr()
    {
      P.ChannelState(window.Value(), queue, oldestUnacked, lastSent, outQueue, oldest, taken, keepalives)
    }

    /** Channel and endpoint belong together, and the input queues are an object of their own. */
    ghost predicate Valid()
      reads this, endpoint, endpoint.Repr()
      ensures Valid() ==> endpoint.channel == this && endpoint.Valid()
    {
      && endpoint.channel == this && endpoint.Valid()
      && inputs !in endpoint.Repr()
    }

    constructor (config: P.Config)
      requires config.Valid()
      ensures Valid() && fresh(endpoint.Repr()) && fresh(inputs)
      ensures endpoint.State() == P.NewNode(config, true)
      ensures oldestUnacked == 0 && lastSent == 0.0 && queue == [] && outQueue == [] && endpoint.channel == this
      ensures inputs.reading == [] && inputs.writing == []
    {
      hide Good, P.NewNode, P.Node.Shape, EmptyRing, Endpoint.Apart, Endpoint.State, Endpoint.Ready, Endpoint.Valid,
        Valid, RingBuffer.Value;
      inputs := new Inputs();
      window := new RingBuffer(config.sentPacketBufferSize, P.BufferedPacket(0.0, false, []));
      endpoint := new Endpoint(config);
      outQueue, queue := [], [];
      oldestUnacked, lastSent := 0, 0.0;
      oldest, taken, keepalives := 0, [], {};
      new;
      Join(config);
    }

    /** The last step of NewChannel: the channel becomes its endpoint's dispatcher. */
    method Join(config: P.Config)
      requires config.Valid() && endpoint.Valid() && endpoint.channel == null
      requires endpoint.State() == P.NewNode(config, false)
      requires window.Valid()
      requires window.Value() == EmptyRing(config.sentPacketBufferSize, P.BufferedPacket(0.0, false, []))
      requires this !in endpoint.Repr() && this !in window.Repr() && window.Repr() !! endpoint.Repr()
      requires inputs !in {this as object} + endpoint.Repr() + window.Repr()
      requires outQueue == [] && queue == [] && oldestUnacked == 0 && lastSent == 0.0
      requires oldest == 0 && taken == [] && keepalives == {}
      modifies endpoint
      ensures Valid() && endpoint.State() == P.NewNode(config, true)
      ensures endpoint.Repr() == old(endpoint.Repr()) + {this} + window.Repr()
    {
      hide Good, P.NewNode, P.Node.Shape, EmptyRing;
      NewChannelNode(config, Value());
      endpoint.Attach(this);
    }

    method Read(buf: bytes)
      modifies inputs
      ensures inputs.reading == old(inputs.reading) + [buf] && inputs.writing == old(inputs.writing)
    {
      inputs.reading := inputs.reading + [buf];
    }

    method Write(buf: bytes)
      modifies inputs
      ensures inputs.writing == old(inputs.writing) + [buf] && inputs.reading == old(inputs.reading)
    {
      inputs.writing := inputs.writing + [buf];
    }

    /** Reads what has arrived, writes what is waiting, sends what is due, and keeps the
        connection alive; stops at the first packet refused. */
    method Update(t: real, pooled: seq<bytes>) returns (ok: bool)
      requires Valid() && |pooled| == |inputs.reading| && forall b :: b in inputs.reading ==> 0 < |b|
      modifies endpoint.Repr(), inputs
      ensures Valid()
      ensures var (n, k, accepted) := P.Update(old(endpoint.State()), t, old(inputs.reading), pooled,
        old(inputs.writing));
        && endpoint.State() == n && ok == accepted && inputs.reading == old(inputs.reading)[k..]
        && inputs.writing == if ok then [] else old(inputs.writing)
    {
      hide Good, P.ReadAll, P.SubmitAll, P.Retransmit, P.Keepalive, P.Node.Shape;
      endpoint.Update(t);
      ok := ReadLoop(pooled);
      if !ok {
        return;
      }
      WriteLoop();
      RetransmitLoop(t);
      KeepAlive(t);
    }

    method ReadLoop(pooled: seq<bytes>) returns (ok: bool)
      requires Valid() && |pooled| == |inputs.reading| && forall b :: b in inputs.reading ==> 0 < |b|
      modifies endpoint.Repr(), inputs`reading
      ensures Valid()
      ensures (endpoint.State(), |old(inputs.reading)| - |inputs.reading|, ok)
        == P.ReadAll(old(endpoint.State()), old(inputs.reading), pooled)
      ensures inputs.reading == old(inputs.reading)[|old(inputs.reading)| - |inputs.reading|..]
    {
      hide Good, P.ReadAll, P.ReadPacket, P.Node.Shape, Endpoint.Apart, Endpoint.Repr;
      ghost var start, incoming := endpoint.State(), inputs.reading;
      var j := 0;
      ReadNone(start);
      while true
        invariant Valid() && endpoint.Repr() == old(endpoint.Repr())
        invariant j <= |incoming| && inputs.reading == incoming[j..]
        invariant P.ReadAll(start, incoming[..j], pooled[..j]) == (endpoint.State(), j, true)
        decreases |incoming| - j
      {
        var b := inputs.TryRead();
        if b.None? {
          break;
        }
        ReadOneMore(start, incoming, pooled, j);
        var outcome := endpoint.ReadPacket(b.value, pooled[j]);
        j := j + 1;
        if !outcome.Accepted? {
          ReadRefused(start, incoming, pooled, j);
          return false;
        }
      }
      assert incoming[..j] == incoming && pooled[..j] == pooled;
      ok := true;
    }

    method WriteLoop()
      requires Valid()
      modifies endpoint.Repr(), inputs`writing
      ensures Valid() && inputs.writing == []
      ensures endpoint.State() == P.SubmitAll(old(endpoint.State()), old(inputs.writing))
    {
      hide Good, P.SubmitAll, P.Submit, P.Node.Shape, Endpoint.Apart, Endpoint.Repr;
      ghost var start, outgoing := endpoint.State(), inputs.writing;
      ghost var j := 0;
      SubmitNone(start);
      while true
        invariant Valid() && endpoint.Repr() == old(endpoint.Repr())
        invariant j <= |outgoing| && inputs.writing == outgoing[j..]
        invariant P.SubmitAll(start, outgoing[..j]) == endpoint.State()
        decreases |outgoing| - j
      {
        var b := inputs.TryWrite();
        if b.None? {
          break;
        }
        SubmitOneMore(start, outgoing, j);
        Submit(b.value);
        j := j + 1;
      }
      assert outgoing[..j] == outgoing;
    }

    /** Queues the payload when the window is full, else writes it. */
    method Submit(buf: bytes)
      requires Valid()
      modifies endpoint.Repr()
      ensures Valid() && endpoint.Repr() == old(endpoint.Repr())
      ensures endpoint.State() == P.Submit(old(endpoint.State()), buf)
    {
      hide Good, P.WritePacket, P.Node.Shape;
      Sliding.TakenOnly(endpoint.State(), buf);
      taken := taken + [buf];
      if Ahead(oldestUnacked, endpoint.config.recvPacketBufferSize) == endpoint.sn {
        queue := queue + [buf];
        return;
      }
      var _ := endpoint.WritePacket(buf);
    }

    /** From oldestUnacked to oldestUnacked + R: sends what is held and due. */
    method RetransmitLoop(t: real)
      requires Valid()
      modifies this, window.entries
      ensures Valid() && endpoint.State() == P.Retransmit(old(endpoint.State()), t)
    {
      hide Good, P.EmitUpTo, P.Node.Shape;
      ghost var start := endpoint.State();
      Network.RetransmitKeeps(start, t);
      ConfigValid(start);
      EmitLoop(t, endpoint.config.recvPacketBufferSize);
    }

    method EmitLoop(t: real, r: nat)
      requires window.Valid() && this !in window.Repr() && 1 <= r < 0x7FFF
      modifies this`lastSent, this`outQueue, window.entries
      ensures Value() == P.EmitUpTo(old(Value()), t, r + 1)
    {
      hide SeqLTE, P.EmitUpTo, P.Emit;
      var base := oldestUnacked;
      var s, max := base, Ahead(base, r);
      ghost var start, k := Value(), 0;
      EmitNone(start, t);
      LoopTurns(base, r, k);
      while SeqLTE(s, max)
        invariant k <= r + 1 && s == Ahead(base, k) && (SeqLTE(s, max) <==> k <= r)
        invariant Value() == P.EmitUpTo(start, t, k) && oldestUnacked == base
        decreases r + 1 - k
      {
        EmitOneMore(start, t, k);
        Emit(t, s);
        AheadStep(base, k);
        LoopTurns(base, r, if k < r then k + 1 else r + 1);
        s, k := Ahead(s, 1), k + 1;
      }
    }

    method Emit(t: real, s: u16)
      requires window.Valid() && this !in window.Repr()
      modifies this`lastSent, this`outQueue, window.entries
      ensures Value() == P.Emit(old(Value()), t, s)
    {
      var entry := window.Find(s);
      if entry.None? {
        return;
      }
      var packet := window.entries[entry.value];
      if packet.written && t - packet.time < 0.1 {
        return;
      }
      window.Store(entry.value, s, packet.(written := true, time := t));
      lastSent := t;
      outQueue := outQueue + [packet.buf];
    }

    method KeepAlive(t: real)
      requires Valid()
      modifies endpoint.Repr()
      ensures Valid() && endpoint.Repr() == old(endpoint.Repr())
      ensures endpoint.State() == P.Keepalive(old(endpoint.State()), t)
    {
      hide Good, P.WritePacket, P.Node.Shape;
      if t - lastSent >= 0.1 {
        Sliding.KeepaliveCounted(endpoint.State());
        keepalives := keepalives + {|endpoint.log.written|};
        var _ := endpoint.WritePacket([]);
      }
    }

    method Transmit(s: u16, datagram: bytes)
      requires window.Valid() && this !in window.Repr() && !window.Value().IsOutdated(s)
      modifies window.Repr()
      ensures Value() == old(Value()).(
        window := old(window.Value()).Insert(s).Put(s, P.BufferedPacket(0.0, false, datagram)))
    {
      var packet := window.Insert(s);
      window.Store(packet.value, s, P.BufferedPacket(0.0, false, datagram));
    }

    /** The state in which ProcessACKs makes an ACK call: the packet is marked acknowledged in the
        sent buffer and still held here. */
    ghost predicate Called(s: u16)
      reads endpoint, endpoint.Repr()
    {
      && endpoint.channel == this && endpoint.Ready() && Core(endpoint.State()) && Buffered(endpoint.State())
      && window.Value().latest == endpoint.sn && window.Value().Has(s)
      && endpoint.sent.Value().At(s).acked
      && MirroredBut(window.Value(), endpoint.sent.Value(), endpoint.sent.Value().IndexOf(s))
    }

    method ACK(s: u16)
      requires Called(s)
      modifies endpoint.Repr()
      ensures endpoint.Valid() && endpoint.channel == this
      ensures endpoint.State() == P.ChannelACK(old(endpoint.State()), s)
    {
      hide Good, Core, Buffered, MirroredBut, P.Advance;
      ghost var start := endpoint.State();
      ChannelACKRemoves(start, s);
      var packet := window.Find(s);
      if packet.None? {
        return;
      }
      window.Remove(s);
      if s != oldestUnacked {
        return;
      }
      Advance();
    }

    /** Moves oldestUnacked to the next held number and writes as much backlog as it moved. */
    method Advance()
      requires endpoint.channel == this && endpoint.Valid()
      modifies endpoint.Repr()
      ensures endpoint.Valid() && endpoint.channel == this
      ensures endpoint.State() == P.Advance(old(endpoint.State()))
    {
      hide Good, P.Flush, P.NextHeld;
      ghost var start := endpoint.State();
      var base := oldestUnacked;
      var next := ScanOldest();
      ghost var k := P.NextHeld(window.Value(), base, 1, endpoint.config.recvPacketBufferSize);
      Sliding.OldestMoves(start, k);
      oldestUnacked := next;
      oldest := oldest + k;
      DiffIs(base, k);
      Flush(Wrap16(oldestUnacked - base));
    }

    /** The scan for the next held number, or oldestUnacked + R when there is none. */
    method ScanOldest() returns (next: u16)
      requires endpoint.channel == this && endpoint.Ready()
      ensures next == Ahead(oldestUnacked,
        P.NextHeld(window.Value(), oldestUnacked, 1, endpoint.config.recvPacketBufferSize))
    {
      var base, r := oldestUnacked, endpoint.config.recvPacketBufferSize;
      next := Scan(base, r);
    }

    method Scan(base: u16, r: nat) returns (next: u16)
      requires window.Valid() && 1 <= r < 0x8000
      ensures next == Ahead(base, P.NextHeld(window.Value(), base, 1, r))
    {
      hide SeqLTE, P.NextHeld, RingBuffer.Value, Ring.Has;
      var max, s := Ahead(base, r), Ahead(base, 1);
      ghost var k := 1;
      LoopTurns(base, r, k);
      while SeqLTE(s, max)
        invariant 1 <= k <= r + 1 && s == Ahead(base, k) && (SeqLTE(s, max) <==> k <= r)
        invariant P.NextHeld(window.Value(), base, 1, r) == P.NextHeld(window.Value(), base, Least(k, r), r)
        decreases r + 1 - k
      {
        var packet := window.Find(s);
        ScanTurn(window.Value(), base, k, r);
        if packet.Some? {
          return s;
        }
        AheadStep(base, k);
        LoopTurns(base, r, k + 1);
        s, k := Ahead(s, 1), k + 1;
      }
      next := max;
      ScanEnd(window.Value(), base, r);
    }

    /** Writes up to diff queued payloads. */
    method Flush(diff: u16)
      requires endpoint.channel == this && endpoint.Valid()
      modifies endpoint.Repr()
      ensures endpoint.Valid() && endpoint.channel == this
      ensures endpoint.State() == P.Flush(old(endpoint.State()), diff)
    {
      hide Good, P.WritePacket, P.Flush, Endpoint.Apart, Endpoint.Repr, P.Node.Shape;
      var i: u16 := 0;
      while |queue| > 0 && i < diff
        decreases diff - i
        invariant i <= diff && endpoint.Valid() && endpoint.channel == this && endpoint.Repr() == old(endpoint.Repr())
        invariant P.Flush(endpoint.State(), diff - i) == P.Flush(old(endpoint.State()), diff)
      {
        WriteQueued();
        i := i + 1;
      }
      FlushEnd(endpoint.State(), diff - i);
    }

    /** Takes the first payload of the backlog and writes it. */
    method WriteQueued()
      requires endpoint.channel == this && endpoint.Valid() && |queue| > 0
      modifies endpoint.Repr()
      ensures endpoint.Valid() && endpoint.channel == this && endpoint.Repr() == old(endpoint.Repr())
      ensures forall k: nat {:trigger P.Flush(endpoint.State(), k)} ::
        P.Flush(old(endpoint.State()), k + 1) == P.Flush(endpoint.State(), k)
    {
      hide Good, P.WritePacket, P.Node.Shape;
      Sliding.DropQueue(endpoint.State(), queue[1..]);
      FlushTurn(endpoint.State());
      var popped := queue[0];
      queue := queue[1..];
      var _ := endpoint.WritePacket(popped);
    }
  }

  // ---------------------------------------------------------------- steps of the sending loop

  lemma AssignFits(n: P.Node, payload: bytes)
    requires Good(n)
    ensures !n.e.sent.IsOutdated(n.e.sn)
  {
    hide Sequential;
    AssignSent(n, payload);
  }

  lemma AssignedSame(start: P.Node, buf: bytes)
    requires start.Shape()
    ensures P.Assign(start, buf).e.config == start.e.config && start.e.config.Valid()
    ensures P.NextHeader(start.e).sn == start.e.sn
  {
    hide AckBits;
  }

  lemma TotalIs(size: nat, fs: nat)
    requires 0 < fs
    ensures size / fs + (if size % fs != 0 then 1 else 0) == NumFragments(size, fs)
  {
    QuotRemAreGo(size, fs);
  }

  /** The fragment loop before turn id: the first id datagrams have been transmitted, rest is the
      data not yet cut off, and written counts the bytes so far. */
  ghost predicate SentSoFar(start: P.Node, buf: bytes, n: P.Node, id: nat, rest: bytes, written: nat)
    requires start.Shape()
  {
    var datagrams := P.Datagrams(start.e.config, P.NextHeader(start.e), buf);
    && id <= |datagrams|
    && n == P.TransmitAll(P.Assign(start, buf), start.e.sn, datagrams[..id])
    && rest == buf[Least(Times(id, start.e.config.fragmentSize), |buf|)..]
    && written == P.TotalSize(datagrams[..id])
  }

  lemma NothingSent(start: P.Node, buf: bytes)
    requires start.Shape()
    ensures SentSoFar(start, buf, P.Assign(start, buf), 0, buf, 0)
  {
    hide P.Datagrams, P.Assign, P.NextHeader, P.Node.Shape;
  }

  lemma EverythingSent(start: P.Node, buf: bytes, n: P.Node, rest: bytes, written: nat)
    requires start.Shape() && start.e.config.fragmentAbove < |buf|
    requires SentSoFar(start, buf, n, NumFragments(|buf|, start.e.config.fragmentSize), rest, written)
    ensures var datagrams := P.Datagrams(start.e.config, P.NextHeader(start.e), buf);
      && n == P.TransmitAll(P.Assign(start, buf), P.NextHeader(start.e).sn, datagrams)
      && written == P.TotalSize(datagrams)
  {
    var datagrams := P.Datagrams(start.e.config, P.NextHeader(start.e), buf);
    FragmentsAre(start.e.config, P.NextHeader(start.e), buf);
    AssignedSame(start, buf);
    hide P.Datagrams, P.Assign, P.NextHeader, P.Node.Shape, P.TransmitAll, P.TotalSize, NumFragments;
    assert datagrams[..|datagrams|] == datagrams;
  }

  lemma CompactIs(config: P.Config, h: PacketHeader, payload: bytes)
    requires config.Valid() && |payload| <= config.fragmentAbove
    ensures var ds := P.Datagrams(config, h, payload);
      && |ds| == 1 && ds[0] == Encode(h) + payload
      && ds[..0] == [] && ds[..1] == ds && P.TotalSize(ds[..0]) == 0
  {
    hide Encode;
  }

  lemma TransmitNone(n: P.Node, s: u16)
    requires n.Shape()
    ensures P.TransmitAll(n, s, []) == n
  {
  }

  /** Before its datagram id goes out, a write finds room in the window; afterwards one more
      datagram has been transmitted. */
  lemma {:induction false} SendStep(start: P.Node, buf: bytes, datagrams: seq<bytes>, id: nat, datagram: bytes)
    requires Good(start) && |buf| <= start.e.config.maxPacketSize
    requires id < |datagrams| && datagrams[id] == datagram
    ensures var n := P.TransmitAll(P.Assign(start, buf), start.e.sn, datagrams[..id]);
      && (n.ch.Some? ==> !n.ch.value.window.IsOutdated(start.e.sn))
      && P.Transmit(n, start.e.sn, datagram) == P.TransmitAll(P.Assign(start, buf), start.e.sn, datagrams[..id + 1])
      && P.TotalSize(datagrams[..id + 1]) == P.TotalSize(datagrams[..id]) + |datagram|
  {
    hide Core, Transmitting, P.Assign, P.Transmit, Sequential;
    var c := |start.log.written|;
    AssignTransmitting(start, buf);
    TransmitAllKeeps(P.Assign(start, buf), c, datagrams[..id]);
    var n := P.TransmitAll(P.Assign(start, buf), Wrap16(c), datagrams[..id]);
    NumberOf(start);
    TransmitKeeps(n, c, datagrams[..id] != [], datagram);
    assert datagrams[..id + 1][..id] == datagrams[..id];
  }

  lemma NumberOf(n: P.Node)
    requires Good(n)
    ensures n.e.sn == Wrap16(|n.log.written|)
  {
    hide Sequential;
  }

  lemma FragmentsAre(config: P.Config, h: PacketHeader, payload: bytes)
    requires config.Valid() && |payload| > config.fragmentAbove
    ensures var ds, total := P.Datagrams(config, h, payload), NumFragments(|payload|, config.fragmentSize);
      && 0 < total == |ds| && P.TotalSize(ds[..0]) == 0 && ds[..0] == []
      && forall id :: 0 <= id < total ==> ds[id] == P.FragmentDatagram(config, h, payload, total, id)
  {
    hide P.FragmentDatagram;
    NumFragmentsBounds(|payload|, config.fragmentSize);
  }

  lemma {:induction false} FragmentBuilt(
    config: P.Config, h: PacketHeader, payload: bytes, total: nat, id: nat, rest: bytes, scratch: bytes)
    requires 0 < config.fragmentSize && 0 < total && rest == payload[Least(Times(id, config.fragmentSize), |payload|)..]
    requires var cutoff := if |rest| > config.fragmentSize then config.fragmentSize else |rest|;
      var head := EncodeFragment(FragmentHeader(h.sn, id % 0x100, (total - 1) % 0x100));
      scratch == (if id == 0 then AppendHeader(h, head) else head) + rest[..cutoff]
    ensures scratch == P.FragmentDatagram(config, h, payload, total, id)
    ensures var cutoff := if |rest| > config.fragmentSize then config.fragmentSize else |rest|;
      rest[cutoff..] == payload[Least(Times(id + 1, config.fragmentSize), |payload|)..]
  {
    hide Encode, AppendHeader, EncodeFragment;
    var head := EncodeFragment(FragmentHeader(h.sn, id % 0x100, (total - 1) % 0x100));
    AppendHeaderIs(h, head);
    assert Times(id + 1, config.fragmentSize) == Times(id, config.fragmentSize) + config.fragmentSize;
  }

  // ---------------------------------------------------------------- steps of acknowledging

  lemma {:induction false} ChannelACKRemoves(n: P.Node, s: u16)
    requires Core(n) && n.ch.Some? && n.ch.value.window.latest == n.e.sn && n.ch.value.window.Has(s)
    requires n.e.sent.At(s).acked && MirroredBut(n.ch.value.window, n.e.sent, n.e.sent.IndexOf(s)) && Buffered(n)
    ensures Good(n.(ch := Some(n.ch.value.(window := n.ch.value.window.Remove(s)))))
  {
    hide Rem, AcksOk, TransmittedOk, RecvOk, HeadersOk, SentOk, Buffered;
    ChannelOnly(n, n.(ch := Some(n.ch.value.(window := n.ch.value.window.Remove(s)))));
  }

  lemma DiffIs(base: u16, k: nat)
    requires k < 0x1_0000
    ensures Wrap16(Ahead(base, k) - base) == k
  {
  }

  lemma AheadStep(base: u16, k: nat)
    ensures Ahead(Ahead(base, k), 1) == Ahead(base, k + 1)
  {
  }

  lemma FlushTurn(n: P.Node)
    requires n.Shape() && n.ch.Some? && n.ch.value.queue != []
    ensures forall k: nat {:trigger P.Flush(n, k + 1)} ::
      var c := n.ch.value;
      P.Flush(n, k + 1) == P.Flush(P.WritePacket(n.(ch := Some(c.(queue := c.queue[1..]))), c.queue[0]), k)
  {
    hide P.WritePacket, P.Node.Shape;
  }

  lemma FlushEnd(n: P.Node, k: nat)
    requires n.Shape() && n.ch.Some? && (k == 0 || n.ch.value.queue == [])
    ensures P.Flush(n, k) == n
  {
  }

  lemma ScanTurn(window: Ring<P.BufferedPacket>, base: u16, k: nat, r: nat)
    requires window.WellFormed() && 1 <= k <= r
    ensures P.NextHeld(window, base, Least(k, r), r) ==
      if window.Has(Ahead(base, k)) then k else P.NextHeld(window, base, Least(k + 1, r), r)
  {
    hide Rem, Ahead;
  }

  lemma ScanEnd(window: Ring<P.BufferedPacket>, base: u16, r: nat)
    requires window.WellFormed() && 1 <= r
    ensures P.NextHeld(window, base, Least(r + 1, r), r) == r
  {
  }

  // ---------------------------------------------------------------- steps of Update

  lemma ConfigValid(n: P.Node)
    requires Good(n)
    ensures n.e.config.Valid()
  {
  }

  lemma NewChannelNode(config: P.Config, c: P.ChannelState)
    requires config.Valid()
    requires c == P.ChannelState(
      EmptyRing(config.sentPacketBufferSize, P.BufferedPacket(0.0, false, [])), [], 0, 0.0, [], 0, [], {})
    ensures P.NewNode(config, false).(ch := Some(c)) == P.NewNode(config, true)
    ensures Good(P.NewNode(config, true))
  {
    hide Good;
    NewNodeGood(config, true);
  }

  lemma ReadNone(n: P.Node)
    requires n.Shape() && n.ch.Some?
    ensures P.ReadAll(n, [], []) == (n, 0, true)
  {
  }

  lemma ReadOneMore(n: P.Node, incoming: seq<bytes>, pooled: seq<bytes>, j: nat)
    requires n.Shape() && n.ch.Some? && |pooled| == |incoming| && forall b :: b in incoming ==> 0 < |b|
    requires j < |incoming| && P.ReadAll(n, incoming[..j], pooled[..j]).2
    ensures var (m, outcome) := P.ReadPacket(P.ReadAll(n, incoming[..j], pooled[..j]).0, incoming[j], pooled[j]);
      P.ReadAll(n, incoming[..j + 1], pooled[..j + 1]) == (m, j + 1, outcome.Accepted?)
  {
    hide *;
    assert incoming[..j + 1] == incoming[..j] + [incoming[j]] && pooled[..j + 1] == pooled[..j] + [pooled[j]];
    ReadLast(n, incoming[..j], pooled[..j], incoming[j], pooled[j]);
  }

  lemma ReadLast(n: P.Node, bufs: seq<bytes>, pooled: seq<bytes>, b: bytes, p: bytes)
    requires n.Shape() && n.ch.Some? && |pooled| == |bufs| && (forall x :: x in bufs ==> 0 < |x|) && 0 < |b|
    requires P.ReadAll(n, bufs, pooled).2
    ensures var (m, outcome) := P.ReadPacket(P.ReadAll(n, bufs, pooled).0, b, p);
      P.ReadAll(n, bufs + [b], pooled + [p]) == (m, |bufs| + 1, outcome.Accepted?)
  {
    hide P.ReadPacket, P.Node.Shape;
    assert (bufs + [b])[..|bufs|] == bufs && (pooled + [p])[..|bufs|] == pooled;
  }

  /** Reading does not go on behind a refused packet. */
  lemma {:induction false} ReadRefused(n: P.Node, incoming: seq<bytes>, pooled: seq<bytes>, j: nat)
    requires n.Shape() && n.ch.Some? && |pooled| == |incoming| && forall b :: b in incoming ==> 0 < |b|
    requires j <= |incoming| && !P.ReadAll(n, incoming[..j], pooled[..j]).2
    ensures P.ReadAll(n, incoming, pooled) == P.ReadAll(n, incoming[..j], pooled[..j])
    decreases |incoming| - j
  {
    hide P.ReadPacket, P.Node.Shape;
    if j < |incoming| {
      assert incoming[..j + 1][..j] == incoming[..j] && pooled[..j + 1][..j] == pooled[..j];
      ReadRefused(n, incoming, pooled, j + 1);
    } else {
      assert incoming[..j] == incoming && pooled[..j] == pooled;
    }
  }

  lemma SubmitNone(n: P.Node)
    requires n.Shape() && n.ch.Some?
    ensures P.SubmitAll(n, []) == n
  {
  }

  lemma SubmitOneMore(n: P.Node, outgoing: seq<bytes>, j: nat)
    requires n.Shape() && n.ch.Some? && j < |outgoing|
    ensures P.SubmitAll(n, outgoing[..j + 1]) == P.Submit(P.SubmitAll(n, outgoing[..j]), outgoing[j])
  {
    hide P.Submit, P.Node.Shape;
    assert outgoing[..j + 1][..j] == outgoing[..j];
  }

  lemma EmitNone(c: P.ChannelState, t: real)
    requires c.window.WellFormed()
    ensures P.EmitUpTo(c, t, 0) == c
  {
  }

  lemma EmitOneMore(c: P.ChannelState, t: real, k: nat)
    requires c.window.WellFormed()
    ensures P.EmitUpTo(c, t, k + 1) == P.Emit(P.EmitUpTo(c, t, k), t, Ahead(c.oldestUnacked, k))
  {
    hide P.Emit;
  }
}
