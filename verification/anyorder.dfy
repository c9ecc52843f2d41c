/** Reassembly of one payload whatever the order in which its fragments arrive. */
module AnyOrder {
  import opened Words
  import opened Rings
  import opened Headers
  import opened Reassembly
  import opened Protocol
  import opened History
  import opened Acknowledge
  import opened Network

  /** WritePacket accepts the payload and cuts it up. */
  ghost predicate Sendable(config: Config, w: Protocol.Write) {
    config.Valid() && config.fragmentAbove < |w.payload| <= config.maxPacketSize
  }

  function Total(config: Config, w: Protocol.Write): (total: nat)
    requires Sendable(config, w)
    ensures 0 < total <= Least(config.maxFragments, 256)
  {
    NumFragmentsBounds(|w.payload|, config.fragmentSize);
    NumFragmentsAtMost(|w.payload|, config.fragmentSize, Least(config.maxFragments, 256));
    NumFragments(|w.payload|, config.fragmentSize)
  }

  function Piece(config: Config, w: Protocol.Write, id: u8): (r: bytes)
    requires Sendable(config, w)
    ensures 0 < |r|
  {
    FragmentDatagram(config, w.header, w.payload, Total(config, w), id)
  }

  /** The node after the fragments with these ids arrived one after the other. */
  function Feed(n: Node, config: Config, w: Protocol.Write, ids: seq<u8>, pooled: bytes): (r: Node)
    requires n.Shape() && Sendable(config, w)
    ensures r.Shape()
  {
    if ids == [] then n
    else ReadPacket(Feed(n, config, w, ids[..|ids| - 1], pooled), Piece(config, w, ids[|ids| - 1]), pooled).0
  }

  function IdsOf(ids: seq<u8>): set<u8> {
    set id | id in ids
  }

  /** The entry's sources when exactly the fragments in ids of w have arrived. */
  function Same(ids: set<u8>, w: Protocol.Write): map<u8, Source> {
    map id | id in ids :: SourceOf(w)
  }

  /** n is start with nothing changed but the reassembly of w, of which exactly ids are there. */
  ghost predicate Partial(start: Node, n: Node, w: Protocol.Write, ids: set<u8>)
    requires start.Shape() && Sendable(start.e.config, w)
  {
    && n.Shape() && n == start.(e := start.e.(assembler := n.e.assembler))
    && if ids == {} then n == start && !n.e.assembler.Has(w.header.sn) && !n.e.assembler.IsOutdated(w.header.sn)
       else n.e.assembler.Has(w.header.sn)
            && Assembles(n.e.assembler.At(w.header.sn), start.e.config.fragmentSize, Same(ids, w))
            && n.e.assembler.At(w.header.sn).total == Total(start.e.config, w)
  }

  /** The entry of w, opened by the first piece. */
  lemma {:induction false} PieceOpened(
    start: Node, n: Node, w: Protocol.Write, ids: set<u8>, h: FragmentHeader, pooled: bytes)
    requires start.Shape() && Sendable(start.e.config, w) && Partial(start, n, w, ids)
    requires h.sn == w.header.sn && h.total + 1 == Total(start.e.config, w)
    ensures var m := OpenEntry(n, h, pooled);
      && m == start.(e := start.e.(assembler := m.e.assembler)) && m.e.assembler.Has(h.sn)
      && Assembles(m.e.assembler.At(h.sn), start.e.config.fragmentSize, Same(ids, w))
      && m.e.assembler.At(h.sn).total == h.total + 1
  {
    hide Rem, SourceOf, Assembles, Open, Total;
    OpenAssembles(h.total + 1, start.e.config.fragmentSize, pooled);
    OpenTotal(h.total + 1, start.e.config.fragmentSize, pooled);
    assert Same({}, w) == map[];
  }

  /** A piece that is not there yet reaches its opened entry. */
  lemma {:induction false} PieceStored(start: Node, m: Node, w: Protocol.Write, ids: set<u8>, h: FragmentHeader)
    requires start.Shape() && m.Shape() && Sendable(start.e.config, w)
    requires m == start.(e := start.e.(assembler := m.e.assembler)) && m.e.assembler.Has(h.sn)
    requires Assembles(m.e.assembler.At(h.sn), start.e.config.fragmentSize, Same(ids, w))
    requires m.e.assembler.At(h.sn).total == h.total + 1 == Total(start.e.config, w)
    requires h.sn == w.header.sn && h.id <= h.total && h.id !in ids
    requires |HeaderBytes(SourceOf(w), h.id)| <= MAX_PACKET_HEADER_SIZE
    ensures var phb, data := HeaderBytes(SourceOf(w), h.id), Chunk(w.payload, start.e.config.fragmentSize, h.id);
      && |m.e.assembler.At(h.sn).marked| == 4 && !Marked(m.e.assembler.At(h.sn).marked, h.id)
      && Partial(start, StoreFragment(m, h, phb, data), w, ids + {h.id})
  {
    hide Rem, Chunk, HeaderBytes, NumFragments, Encode, Assembles, File, Times;
    var fs, phb, data := start.e.config.fragmentSize, HeaderBytes(SourceOf(w), h.id),
      Chunk(w.payload, start.e.config.fragmentSize, h.id);
    var f := m.e.assembler.At(h.sn);
    EntryShape(m.e.assembler, fs, h.sn);
    TimesMonotone(h.id, f.total, fs);
    NotMarked(f, fs, Same(ids, w), h.id);
    FileAssembles(f, fs, Same(ids, w), h.id, SourceOf(w));
    assert Same(ids, w)[h.id := SourceOf(w)] == Same(ids + {h.id}, w);
    FileTotal(f, fs, h.id, h.total, phb, data);
  }

  lemma OpenTotal(total: nat, fs: nat, pooled: bytes)
    ensures Open(total, fs, pooled).total == total
  {
  }

  lemma FileTotal(f: Fragment, fs: nat, id: u8, last: u8, phb: bytes, data: bytes)
    requires |f.marked| == 4 && |phb| <= MAX_PACKET_HEADER_SIZE
    requires MAX_PACKET_HEADER_SIZE + Times(id, fs) <= |f.buf|
    ensures File(f, fs, id, last, phb, data).total == f.total
  {
  }

  lemma NotMarked(f: Fragment, fs: nat, src: map<u8, Source>, id: u8)
    requires 0 < fs && Assembles(f, fs, src)
    ensures |f.marked| == 4 && (Marked(f.marked, id) <==> id in src)
  {
    hide AllInPlace, HeaderInPlace, Marked;
  }

  /** recv reaches total exactly when the last missing piece is in. */
  lemma {:induction false} RecvCounts(f: Fragment, fs: nat, src: map<u8, Source>)
    requires 0 < fs && Assembles(f, fs, src)
    ensures f.recv == f.total <==> src.Keys == Below(f.total)
  {
    hide MarkedAre, HeaderInPlace;
    forall id | id in src.Keys ensures id in Below(f.total) {
      assert InPlace(f.buf, fs, f.total, id, src[id]);
    }
    BelowSize(f.total);
    if f.recv == f.total {
      SubsetOfSameSize(src.Keys, Below(f.total));
    }
  }

  lemma {:induction false} PieceArrives(start: Node, n: Node, w: Protocol.Write, ids: set<u8>, id: u8, pooled: bytes)
    requires Good(start) && Sendable(start.e.config, w) && Partial(start, n, w, ids)
    requires id < Total(start.e.config, w) && ids != Below(Total(start.e.config, w))
    ensures var r := ReadPacket(n, Piece(start.e.config, w, id), pooled).0;
      if ids + {id} != Below(Total(start.e.config, w)) then Partial(start, r, w, ids + {id})
      else Completed(start, r, w)
  {
    hide Good, Rem, Partial, OpenEntry, StoreFragment, Deliver, Chunk, HeaderBytes, SourceOf, Total, OpenFragment,
      FragmentDatagram, Completed;
    var config := start.e.config;
    FragmentOpens(config, w, Total(config, w), id);
    PieceAccepted(config, w, id);
    PartialOpen(start, n, w, ids);
    var h := FragmentHeader(w.header.sn, id, Total(config, w) - 1);
    var phb, data := HeaderBytes(SourceOf(w), id), Chunk(w.payload, config.fragmentSize, id);
    assert RecvFragmented(n, Piece(config, w, id), pooled) == FileFragment(OpenEntry(n, h, pooled), h, phb, data);
    if id in ids {
      DuplicateIgnored(start, n, w, ids, h, pooled);
      assert ids + {id} == ids;
    } else {
      PieceOpened(start, n, w, ids, h, pooled);
      PieceStored(start, OpenEntry(n, h, pooled), w, ids, h);
      var p := StoreFragment(OpenEntry(n, h, pooled), h, phb, data);
      PieceDelivered(start, p, w, ids + {id});
    }
  }

  lemma PartialOpen(start: Node, n: Node, w: Protocol.Write, ids: set<u8>)
    requires start.Shape() && Sendable(start.e.config, w) && Partial(start, n, w, ids)
    ensures n.Shape() && n.e.config == start.e.config
    ensures n.Shape() && (n.e.assembler.Has(w.header.sn) || !n.e.assembler.IsOutdated(w.header.sn))
  {
    hide Rem, Assembles;
  }

  /** Neither header of a piece is refused. */
  lemma {:induction false} PieceAccepted(config: Config, w: Protocol.Write, id: u8)
    requires Sendable(config, w) && id < Total(config, w)
    ensures OpenFragment(Piece(config, w, id), config.maxFragments).3.Accepted?
  {
    hide Encode, Decode, Chunk, EncodeFragment, DecodeFragment;
    var h := FragmentHeader(w.header.sn, id, Total(config, w) - 1);
    var chunk := Chunk(w.payload, config.fragmentSize, id);
    var rest := HeaderBytes(SourceOf(w), id) + chunk;
    assert Piece(config, w, id) == EncodeFragment(h) + rest;
    FragmentRoundTrip(h, rest);
    if id == 0 {
      HeaderRoundTrip(w.header, chunk);
    }
  }

  lemma {:induction false} DuplicateIgnored(
    start: Node, n: Node, w: Protocol.Write, ids: set<u8>, h: FragmentHeader, pooled: bytes)
    requires start.Shape() && Sendable(start.e.config, w) && Partial(start, n, w, ids)
    requires h.sn == w.header.sn && h.total + 1 == Total(start.e.config, w) && h.id <= h.total && h.id in ids
    requires |HeaderBytes(SourceOf(w), h.id)| <= MAX_PACKET_HEADER_SIZE
    ensures FileFragment(OpenEntry(n, h, pooled), h, HeaderBytes(SourceOf(w), h.id),
      Chunk(w.payload, start.e.config.fragmentSize, h.id)).0 == n
  {
    hide Rem, Chunk, HeaderBytes, NumFragments, SourceOf, Assembles, Marked;
    NotMarked(n.e.assembler.At(h.sn), start.e.config.fragmentSize, Same(ids, w), h.id);
  }

  /** The packet was processed, once and byte for byte, unless the receive buffer refuses its
      number as stale; and its entry is gone. */
  ghost predicate Completed(start: Node, r: Node, w: Protocol.Write)
    requires start.Shape()
  {
    && r.Shape() && !r.e.assembler.Has(w.header.sn)
    && r.log.processed == start.log.processed +
         if start.e.recv.IsOutdated(w.header.sn) then [] else [Delivery(w.header.sn, w.payload)]
  }

  lemma {:induction false} PieceDelivered(start: Node, p: Node, w: Protocol.Write, ids: set<u8>)
    requires Good(start) && Sendable(start.e.config, w) && Partial(start, p, w, ids) && ids != {}
    ensures var r := Deliver(p, w.header.sn).0;
      if ids != Below(Total(start.e.config, w)) then r == p else Completed(start, r, w)
  {
    hide Good, Rem, SourceOf, NumFragments, Assembles, RecvCompact, Decode, Encode, Visited;
    var sn, fs := w.header.sn, start.e.config.fragmentSize;
    var g := p.e.assembler.At(sn);
    RecvCounts(g, fs, Same(ids, w));
    EntryShape(p.e.assembler, fs, sn);
    if ids == Below(Total(start.e.config, w)) {
      AssemblerOnly(start, p);
      AllHere(g, fs, ids, w);
      RecvCompactKeeps(p, Assembled(g));
      RemovedGone(RecvCompact(p, Assembled(g)).0.e.assembler, sn);
    }
  }

  lemma RemovedGone(assembler: Ring<Fragment>, sn: u16)
    requires assembler.WellFormed()
    ensures !assembler.Remove(sn).Has(sn)
  {
    hide Rem;
  }

  lemma {:induction false} AllHere(g: Fragment, fs: nat, ids: set<u8>, w: Protocol.Write)
    requires 0 < fs && Assembles(g, fs, Same(ids, w)) && g.recv == g.total
    ensures g.headerSize <= MAX_PACKET_HEADER_SIZE && MAX_PACKET_HEADER_SIZE + g.packetSize <= |g.buf|
    ensures Decode(Assembled(g)) == Decoded(w.header, w.payload, true)
  {
    hide Assembles, Encode, Decode, Assembled, Body;
    CompleteSplits(g, fs, Same(ids, w));
    CompletePayload(g, fs, Same(ids, w), w.payload);
    HeaderRoundTrip(w.header, w.payload);
  }

  /** While a piece is missing, nothing is processed, whatever has arrived however often. */
  lemma {:induction false} NeverEarlier(start: Node, w: Protocol.Write, ids: seq<u8>, pooled: bytes)
    requires Good(start) && Sendable(start.e.config, w) && Partial(start, start, w, {})
    requires forall id :: id in ids ==> id < Total(start.e.config, w)
    requires IdsOf(ids) != Below(Total(start.e.config, w))
    ensures Partial(start, Feed(start, start.e.config, w, ids, pooled), w, IdsOf(ids))
    ensures Feed(start, start.e.config, w, ids, pooled).log.processed == start.log.processed
  {
    hide Good, NumFragments, Piece, ReadPacket, Assembles, Rem;
    if ids != [] {
      var before, id := ids[..|ids| - 1], ids[|ids| - 1];
      assert IdsOf(ids) == IdsOf(before) + {id};
      assert id in ids && forall x :: x in before ==> x in ids;
      forall x | x in IdsOf(ids) ensures x in Below(Total(start.e.config, w)) {
        assert x in ids;
      }
      NeverEarlier(start, w, before, pooled);
      PieceArrives(start, Feed(start, start.e.config, w, before, pooled), w, IdsOf(before), id, pooled);
    }
  }

  /** When the last missing piece arrives, in any order and after any repetitions, the payload is
      processed exactly once and exactly as it was written. */
  lemma {:induction false} LastPieceCompletes(start: Node, w: Protocol.Write, ids: seq<u8>, id: u8, pooled: bytes)
    requires Good(start) && Sendable(start.e.config, w)
    requires !start.e.assembler.Has(w.header.sn) && !start.e.assembler.IsOutdated(w.header.sn)
    requires forall x :: x in ids ==> x < Total(start.e.config, w)
    requires IdsOf(ids) != Below(Total(start.e.config, w)) == IdsOf(ids + [id])
    ensures Feed(start, start.e.config, w, ids, pooled).log.processed == start.log.processed
    ensures Completed(start, Feed(start, start.e.config, w, ids + [id], pooled), w)
  {
    hide Good, NumFragments, Piece, ReadPacket, Assembles, Rem, Completed;
    NeverEarlier(start, w, ids, pooled);
    assert (ids + [id])[..|ids|] == ids;
    assert IdsOf(ids + [id]) == IdsOf(ids) + {id};
    assert id in IdsOf(ids + [id]);
    PieceArrives(start, Feed(start, start.e.config, w, ids, pooled), w, IdsOf(ids), id, pooled);
  }

  // ---------------------------------------------------------------- sent again

  /** With the number too old for the reassembly buffer, and no entry open, fragments are refused. */
  lemma {:induction false} StaleFragmentsRefused(n: Node, w: Protocol.Write, ids: seq<u8>, pooled: bytes)
    requires n.Shape() && Sendable(n.e.config, w) && forall x :: x in ids ==> x < Total(n.e.config, w)
    requires !n.e.assembler.Has(w.header.sn) && n.e.assembler.IsOutdated(w.header.sn)
    ensures Feed(n, n.e.config, w, ids, pooled) == n
  {
    hide Rem, Piece, OpenFragment, FileFragment, OpenEntry, NumFragments, FragmentDatagram, Node.Shape;
    if ids != [] {
      var before, id := ids[..|ids| - 1], ids[|ids| - 1];
      assert id in ids && forall x :: x in before ==> x in ids;
      StaleFragmentsRefused(n, w, before, pooled);
      PieceIsFragment(n.e.config, w, id);
    }
  }

  lemma {:induction false} PieceIsFragment(config: Config, w: Protocol.Write, id: u8)
    requires Sendable(config, w) && id < Total(config, w)
    ensures var piece := Piece(config, w, id);
      && Toggled(piece[0], FLAG_FRAGMENT)
      && OpenFragment(piece, config.maxFragments).3.Accepted?
      && OpenFragment(piece, config.maxFragments).0.sn == w.header.sn
  {
    hide Total, OpenFragment, FragmentDatagram;
    FragmentOpens(config, w, Total(config, w), id);
    PieceAccepted(config, w, id);
  }

  /** Nor at most once for a payload sent in fragments. In any reachable state without an open entry for
      its number, whether it was processed before or not, receiving all its fragments processes it
      exactly when its number is too old for neither of the two buffers. */
  lemma {:induction false} FragmentsProcessedIff(start: Node, w: Protocol.Write, ids: seq<u8>, id: u8, pooled: bytes)
    requires Good(start) && Sendable(start.e.config, w) && !start.e.assembler.Has(w.header.sn)
    requires forall x :: x in ids + [id] ==> x < Total(start.e.config, w)
    requires IdsOf(ids) != Below(Total(start.e.config, w)) == IdsOf(ids + [id])
    ensures Feed(start, start.e.config, w, ids + [id], pooled).log.processed == start.log.processed +
      if Current(start.e.assembler.latest, start.e.config.fragmentReassemblyBufferSize, w.header.sn)
         && Current(start.e.recv.latest, start.e.config.recvPacketBufferSize, w.header.sn)
      then [Delivery(w.header.sn, w.payload)] else []
  {
    hide Good, NumFragments, Piece, ReadPacket, Rem, Feed, Current;
    StaleIff(start.e.assembler, w.header.sn);
    StaleIff(start.e.recv, w.header.sn);
    if start.e.assembler.IsOutdated(w.header.sn) {
      StaleFragmentsRefused(start, w, ids + [id], pooled);
    } else {
      assert forall x :: x in ids ==> x in ids + [id];
      LastPieceCompletes(start, w, ids, id, pooled);
    }
  }
}
