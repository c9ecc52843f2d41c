/** What becomes of each fragment received, from its bytes: every refusal with its reason, and what
    filing changes, byte by byte. */
module Filing {
  import opened Words
  import opened Bits
  import opened Rings
  import opened Headers
  import opened Reassembly
  import opened Protocol
  import opened History
  import opened Acknowledge
  import opened WireFormat

  /** The headers of a fragment are accepted: five bytes, an id up to the last one, no more fragments than
      max, and, in the first fragment, a packet header that decodes and carries the same number. */
  predicate Opens(buf: bytes, max: nat) {
    && 5 <= |buf| && buf[3] <= buf[4] && buf[4] + 1 <= max
    && (buf[3] == 0 ==> Decode(buf[5..]).ok && Decode(buf[5..]).header.sn == Big(buf[1], buf[2]))
  }

  /** Accepted are exactly those; else the outcome names the first check that failed. */
  lemma {:induction false} OpensIff(buf: bytes, max: nat)
    ensures var (h, phb, data, outcome) := OpenFragment(buf, max);
      && (outcome.Accepted? <==> Opens(buf, max))
      && (outcome.BadFragmentHeader? <==> |buf| < 5)
      && (outcome.InvalidFragment? <==> 5 <= |buf| && (buf[3] > buf[4] || buf[4] + 1 > max))
      && (outcome.BadPacketHeader? <==>
            5 <= |buf| && buf[3] == 0 && buf[4] + 1 <= max && !Decode(buf[5..]).ok)
      && (outcome.SeqMismatch? <==>
            5 <= |buf| && buf[3] == 0 && buf[4] + 1 <= max && Decode(buf[5..]).ok
            && Decode(buf[5..]).header.sn != Big(buf[1], buf[2]))
  {
    hide Decode, DecodeFragment;
    FragmentDecodeIff(buf);
  }

  /** What the headers say, how many bytes belong to the packet header, and that the rest is the data. */
  lemma {:induction false} OpenedIs(buf: bytes, max: nat)
    requires Opens(buf, max)
    ensures var (h, phb, data, _) := OpenFragment(buf, max);
      && h == FragmentHeader(Big(buf[1], buf[2]), buf[3], buf[4])
      && |phb| == (if buf[3] == 0 then HeaderSize(buf[5]) else 0) <= |buf| - 5
      && phb == buf[5..5 + |phb|] && data == buf[5 + |phb|..]
  {
    hide Decode, DecodeFragment, HeaderSize;
    FragmentDecodeIff(buf);
    if buf[3] == 0 {
      DecodeIff(buf[5..]);
      DecodeLeavesSuffix(buf[5..]);
    }
  }

  // ---------------------------------------------------------------- filing

  /** Where each byte of the assembling buffer comes from once a fragment has been filed: from the data, for
      positions behind those of the fragments before it; in the first fragment, from the packet header,
      which ends where the data area begins; and from the buffer as it was. */
  lemma {:induction false} FiledBytes(f: Fragment, fs: nat, id: u8, last: u8, phb: bytes, data: bytes, p: nat)
    requires |f.marked| == 4 && |phb| <= 9 && 9 + Times(id, fs) <= |f.buf| && p < |f.buf|
    ensures var g, at := File(f, fs, id, last, phb, data), 9 + id * fs;
      && |g.buf| == |f.buf|
      && g.buf[p] ==
           if at <= p < at + |data| then data[p - at]
           else if id == 0 && 9 - |phb| <= p < 9 then phb[p - (9 - |phb|)]
           else f.buf[p]
  {
    hide Mark;
    TimesIsProduct(id, fs);
    CopiedByte(f.buf, 9 - |phb|, phb, p);
    var b1 := if id == 0 then CopyAt(f.buf, 9 - |phb|, phb) else f.buf;
    CopiedByte(b1, 9 + Times(id, fs), data, p);
  }

  lemma CopiedByte(dst: bytes, off: nat, src: bytes, p: nat)
    requires off <= |dst| && p < |dst|
    ensures CopyAt(dst, off, src)[p] == if off <= p < off + |src| then src[p - off] else dst[p]
  {
  }

  /** And what else filing changes: one mark, the count, the header's size with the first fragment, and the
      packet's size with the last. */
  lemma {:induction false} FiledFields(f: Fragment, fs: nat, id: u8, last: u8, phb: bytes, data: bytes, j: u8)
    requires |f.marked| == 4 && |phb| <= 9 && 9 + Times(id, fs) <= |f.buf|
    ensures var g := File(f, fs, id, last, phb, data);
      && g.recv == f.recv + 1 && g.total == f.total && g.slack == f.slack
      && |g.marked| == 4 && (Marked(g.marked, j) <==> j == id || Marked(f.marked, j))
      && g.headerSize == (if id == 0 then |phb| else f.headerSize)
      && g.packetSize == if id == last then last * fs + |data| else f.packetSize
  {
    hide Mark, Marked, CopyAt;
    TimesIsProduct(last, fs);
    MarkMarks(f.marked, id, j);
  }

  /** An entry just opened has all its fragments to come, room for them behind nine bytes for a header, and
      the rest of the pooled buffer behind that. */
  lemma {:induction false} OpenedEntry(total: nat, fs: nat, pooled: bytes, j: u8)
    ensures var f := Open(total, fs, pooled);
      && f.recv == 0 && f.total == total && |f.marked| == 4 && !Marked(f.marked, j)
      && |f.buf| == 9 + total * fs
      && (|f.buf| <= |pooled| ==> f.buf + f.slack == pooled) && (|pooled| < |f.buf| ==> f.slack == [])
  {
    TimesIsProduct(total, fs);
    NoHighBits(0, 0, j % 64);
  }

  /** The entry in which a fragment with this number is filed: the open one, or a new one. */
  function EntryFor(n: Node, sn: u16, total: nat, pooled: bytes): Fragment
    requires n.Shape()
  {
    if n.e.assembler.Has(sn) then n.e.assembler.At(sn) else Open(total, n.e.config.fragmentSize, pooled)
  }

  /** The number is not being assembled, and too old to begin with. */
  predicate TooOld(n: Node, sn: u16)
    requires n.Shape()
  {
    !n.e.assembler.Has(sn) && !Current(n.e.assembler.latest, n.e.config.fragmentReassemblyBufferSize, sn)
  }

  /** What the open entry for this number, if there is one, has against a fragment. */
  predicate Rejects(n: Node, sn: u16, id: u8, last: u8)
    requires n.Shape()
  {
    n.e.assembler.Has(sn) && (OtherTotal(n, sn, last) || MarkedIn(n, sn, id))
  }

  predicate OtherTotal(n: Node, sn: u16, last: u8)
    requires n.Shape()
  {
    n.e.assembler.At(sn).total != last + 1
  }

  predicate MarkedIn(n: Node, sn: u16, id: u8)
    requires n.Shape()
  {
    EntryShape(n.e.assembler, n.e.config.fragmentSize, sn);
    Marked(n.e.assembler.At(sn).marked, id)
  }

  /** A fragment is turned away exactly when its headers are not accepted, its number is too old, or its
      entry has another total or has that fragment already; the node is then as it was. */
  lemma {:induction false} TurnedAway(n: Node, buf: bytes, pooled: bytes)
    requires n.Shape() && 0 < |buf| && buf[0] % 2 == 1
    ensures var (r, outcome) := ReadPacket(n, buf, pooled);
      && (!Opens(buf, n.e.config.maxFragments) ==>
            r == n && outcome == OpenFragment(buf, n.e.config.maxFragments).3)
      && (Opens(buf, n.e.config.maxFragments) ==>
            var sn := Big(buf[1], buf[2]);
            && (TooOld(n, sn) ==> r == n && outcome == StaleFragment)
            && (Rejects(n, sn, buf[3], buf[4]) ==>
                  r == n && outcome ==
                    if OtherTotal(n, sn, buf[4]) then TotalMismatch else DuplicateFragment))
  {
    hide Rem, Decode, OpenFragment, Deliver, Marked, Opens, Current, StoreFragment;
    var max := n.e.config.maxFragments;
    FragmentBit(buf[0]);
    OpensIff(buf, max);
    if Opens(buf, max) {
      OpenedIs(buf, max);
      StaleIff(n.e.assembler, Big(buf[1], buf[2]));
      EntryShape(n.e.assembler, n.e.config.fragmentSize, Big(buf[1], buf[2]));
    }
  }

  /** n with entry g for this number, in place of the open one or in a new one. */
  function WithEntry(n: Node, sn: u16, g: Fragment): Node
    requires n.Shape()
  {
    n.(e := n.e.(assembler := (if n.e.assembler.Has(sn) then n.e.assembler else n.e.assembler.Insert(sn)).Put(sn, g)))
  }

  /** The fragment is in its entry. Until all are there nothing else has happened; with the last one to come
      the bytes from the packet header to the packet's end were received as a packet, and the entry is
      gone. */
  ghost predicate Filed(n: Node, h: FragmentHeader, phb: bytes, data: bytes, pooled: bytes, r: Node, outcome: Outcome)
    requires n.Shape() && |phb| <= 9
  {
    var f, fs := EntryFor(n, h.sn, h.total + 1, pooled), n.e.config.fragmentSize;
    && |f.marked| == 4 && 9 + Times(h.id, fs) <= |f.buf|
    && var g := File(f, fs, h.id, h.total, phb, data);
    var m := WithEntry(n, h.sn, g);
    && m.Shape() && g.headerSize <= 9
    && if g.recv != h.total + 1 then r == m && outcome == Accepted
       else if |g.buf + g.slack| < 9 + g.packetSize then r == m && outcome == Overrun
       else
         var (p, result) := RecvCompact(m, (g.buf + g.slack)[9 - g.headerSize..9 + g.packetSize]);
         r == p.(e := p.e.(assembler := p.e.assembler.Remove(h.sn))) && outcome == result
  }

  /** The entry is there, with room, before a fragment is filed. */
  lemma {:induction false} EntryReady(n: Node, h: FragmentHeader, pooled: bytes)
    requires n.Shape() && h.id <= h.total && !Rejects(n, h.sn, h.id, h.total)
    ensures var f, m := EntryFor(n, h.sn, h.total + 1, pooled), OpenEntry(n, h, pooled);
      && m.e.assembler.At(h.sn) == f && f.total == h.total + 1 && |f.marked| == 4 && f.headerSize <= 9
      && !Marked(f.marked, h.id) && 9 + Times(h.id, n.e.config.fragmentSize) <= |f.buf|
  {
    hide Rem, Marked, Times;
    EntryShape(n.e.assembler, n.e.config.fragmentSize, h.sn);
    OpenedEntry(h.total + 1, n.e.config.fragmentSize, pooled, h.id);
    TimesIsProduct(h.total + 1, n.e.config.fragmentSize);
    TimesMonotone(h.id, h.total + 1, n.e.config.fragmentSize);
  }

  lemma {:induction false} FilesOnce(n: Node, h: FragmentHeader, phb: bytes, data: bytes, pooled: bytes)
    requires n.Shape() && |phb| <= 9 && h.id <= h.total && !Rejects(n, h.sn, h.id, h.total)
    ensures var (r, outcome) := FileFragment(OpenEntry(n, h, pooled), h, phb, data);
      Filed(n, h, phb, data, pooled, r, outcome)
  {
    hide Rem, Marked, Times, Open, Mark, CopyAt, RecvCompact, EntryFor, Rejects;
    EntryReady(n, h, pooled);
    var m, f := OpenEntry(n, h, pooled), EntryFor(n, h.sn, h.total + 1, pooled);
    var g := File(f, n.e.config.fragmentSize, h.id, h.total, phb, data);
    assert StoreFragment(m, h, phb, data) == WithEntry(n, h.sn, g);
  }

  /** Any other fragment is filed. */
  lemma {:induction false} FiledOtherwise(n: Node, buf: bytes, pooled: bytes)
    requires n.Shape() && 0 < |buf| && buf[0] % 2 == 1 && Opens(buf, n.e.config.maxFragments)
    requires !TooOld(n, Big(buf[1], buf[2])) && !Rejects(n, Big(buf[1], buf[2]), buf[3], buf[4])
    ensures var (r, outcome) := ReadPacket(n, buf, pooled);
      var size := if buf[3] == 0 then HeaderSize(buf[5]) else 0;
      && size <= 9 && size <= |buf| - 5
      && Filed(n, FragmentHeader(Big(buf[1], buf[2]), buf[3], buf[4]), buf[5..5 + size], buf[5 + size..], pooled,
               r, outcome)
  {
    hide Rem, Decode, OpenFragment, FileFragment, OpenEntry, Current, Rejects, Filed, HeaderSize;
    var max, sn := n.e.config.maxFragments, Big(buf[1], buf[2]);
    FragmentBit(buf[0]);
    OpensIff(buf, max);
    OpenedIs(buf, max);
    StaleIff(n.e.assembler, sn);
    var (h, phb, data, _) := OpenFragment(buf, max);
    FilesOnce(n, h, phb, data, pooled);
  }

  // ---------------------------------------------------------------- packets in one datagram

  /** A packet is refused exactly when its header does not decode or its number is not current, and then the
      node is as it was. Otherwise its payload is processed and its number recorded, with time and size. */
  lemma {:induction false} PacketRead(n: Node, buf: bytes, pooled: bytes)
    requires Good(n) && 0 < |buf| && buf[0] % 2 == 0
    ensures var (r, outcome) := ReadPacket(n, buf, pooled);
      var d, config := Decode(buf), n.e.config;
      if !d.ok then r == n && outcome == BadPacketHeader
      else if !Current(n.e.recv.latest, config.recvPacketBufferSize, d.header.sn) then r == n && outcome == StalePacket
      else
        && outcome == Accepted && r.e.recv.WellFormed() && r.e.recv.Has(d.header.sn)
        && r.e.recv.At(d.header.sn) == RecvPacket(n.e.time, config.packetHeaderSize + |d.leftover|)
        && r.log.processed == n.log.processed + [Delivery(d.header.sn, d.leftover)]
  {
    hide Good, Decode, RecvFragmented, ProcessACKs, Visited, FiredFrom, Current, Rem;
    FragmentBit(buf[0]);
    RecvCompactKeeps(n, buf);
    StaleIff(n.e.recv, Decode(buf).header.sn);
    GoodShape(n);
  }
}
