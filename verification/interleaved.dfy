/** Reassembly of one payload while the node goes on with everything else: other packets and fragments
    arrive and the node writes, ticks and resends in between. Only a fragment that opens an entry of
    its own can evict that of the payload, and it is said exactly when. */
module Interleaved {
  import opened Words
  import opened Rings
  import opened Headers
  import opened Reassembly
  import opened Protocol
  import opened History
  import opened Acknowledge
  import opened Network
  import opened NodeRuns
  import opened AnyOrder

  /** A fragment of the payload arrives, or anything else happens. */
  datatype Arrival = Ours(id: u8, pooled: bytes) | Other(event: Event)

  function EventOf(config: Config, w: Protocol.Write, a: Arrival): Event
    requires Sendable(config, w) && (a.Ours? ==> a.id < Total(config, w))
  {
    match a
    case Ours(id, pooled) => Receive(Piece(config, w, id), pooled)
    case Other(event) => event
  }

  /** Not a fragment with number sn. */
  predicate Elsewhere(event: Event, sn: u16) {
    event.Receive? && 0 < |event.buf| && Toggled(event.buf[0], FLAG_FRAGMENT) && DecodeFragment(event.buf).ok
    ==> DecodeFragment(event.buf).header.sn != sn
  }

  function IdsIn(arrivals: seq<Arrival>): set<u8> {
    if arrivals == [] then {}
    else
      var last := arrivals[|arrivals| - 1];
      IdsIn(arrivals[..|arrivals| - 1]) + if last.Ours? then {last.id} else {}
  }

  /** The states that these arrivals lead through. */
  ghost predicate Passage(config: Config, w: Protocol.Write, states: seq<Node>, arrivals: seq<Arrival>)
    ensures Passage(config, w, states, arrivals) ==>
      Sendable(config, w) && |states| == |arrivals| + 1
      && forall k :: 0 <= k < |states| ==> states[k].Shape() && states[k].e.config == config
  {
    && Sendable(config, w) && |states| == |arrivals| + 1
    && (forall k :: 0 <= k < |states| ==> states[k].Shape() && states[k].e.config == config)
    && forall k :: 0 <= k < |arrivals| ==> Stage(config, w, states[k], arrivals[k], states[k + 1])
  }

  ghost predicate Stage(config: Config, w: Protocol.Write, n: Node, a: Arrival, r: Node)
    requires Sendable(config, w) && n.Shape()
  {
    && (a.Ours? ==> a.id < Total(config, w)) && (a.Other? ==> Elsewhere(a.event, w.header.sn))
    && Possible(n, EventOf(config, w, a)) && r == React(n, EventOf(config, w, a))
  }

  // ---------------------------------------------------------------- what else happens leaves the entry alone

  lemma RemoveElsewhere(assembler: Ring<Fragment>, s: u16, sn: u16)
    requires assembler.WellFormed() && assembler.Has(s) && s != sn
    ensures assembler.Remove(s).Has(sn) <==> assembler.Has(sn)
    ensures assembler.Remove(s).At(sn) == assembler.At(sn)
  {
    hide Rem;
  }

  /** The entry of sn, if r still has it, is the one n had. */
  ghost predicate SameEntry(n: Node, r: Node, sn: u16)
    requires n.Shape() && r.Shape()
  {
    r.e.assembler.Has(sn) ==> n.e.assembler.Has(sn) && r.e.assembler.At(sn) == n.e.assembler.At(sn)
  }

  lemma SameEntryOn(a: Node, b: Node, c: Node, sn: u16)
    requires a.Shape() && b.Shape() && c.Shape() && SameEntry(a, b, sn) && SameEntry(b, c, sn)
    ensures SameEntry(a, c, sn)
  {
    hide Rem, Node.Shape;
  }

  lemma OpenElsewhere(n: Node, h: FragmentHeader, pooled: bytes, sn: u16)
    requires n.Shape() && h.sn != sn
    ensures SameEntry(n, OpenEntry(n, h, pooled), sn) && OpenEntry(n, h, pooled).e.assembler.Has(h.sn)
  {
    hide Rem, Open;
    if !n.e.assembler.Has(h.sn) && OpenEntry(n, h, pooled).e.assembler.Has(sn) {
      InsertedElsewhere(n.e.assembler, h.sn, sn);
    }
  }

  lemma StoreElsewhere(n: Node, h: FragmentHeader, phb: bytes, data: bytes, sn: u16)
    requires n.Shape() && |phb| <= MAX_PACKET_HEADER_SIZE && h.id <= h.total && h.sn != sn
    requires h.total + 1 == n.e.assembler.At(h.sn).total && n.e.assembler.Has(h.sn)
    ensures var r := StoreFragment(n, h, phb, data);
      SameEntry(n, r, sn) && r.e.assembler.Has(h.sn) && (n.e.assembler.Has(sn) ==> r.e.assembler.Has(sn))
  {
    hide Rem, File;
  }

  lemma {:induction false} DeliverElsewhere(n: Node, s: u16, sn: u16)
    requires Good(n) && s != sn && n.e.assembler.Has(s)
    ensures var r := Deliver(n, s).0; SameEntry(n, r, sn) && (n.e.assembler.Has(sn) ==> r.e.assembler.Has(sn))
  {
    hide Good, RecvCompact, Decode, Visited, Assembled, Rem;
    var g := n.e.assembler.At(s);
    EntryShape(n.e.assembler, n.e.config.fragmentSize, s);
    if g.recv == g.total && Fits(g) {
      RecvCompactKeeps(n, Assembled(g));
      RemoveElsewhere(RecvCompact(n, Assembled(g)).0.e.assembler, s, sn);
    }
  }

  lemma {:induction false} FileElsewhere(n: Node, h: FragmentHeader, phb: bytes, data: bytes, sn: u16)
    requires Good(n) && |phb| <= MAX_PACKET_HEADER_SIZE && h.id <= h.total && h.sn != sn && n.e.assembler.Has(h.sn)
    ensures var r := FileFragment(n, h, phb, data).0;
      SameEntry(n, r, sn) && (n.e.assembler.Has(sn) ==> r.e.assembler.Has(sn))
  {
    hide Good, RecvCompact, StoreFragment, Deliver, Marked, Rem;
    var f := n.e.assembler.At(h.sn);
    EntryShape(n.e.assembler, n.e.config.fragmentSize, h.sn);
    if h.total + 1 == f.total && !Marked(f.marked, h.id) {
      var p := StoreFragment(n, h, phb, data);
      AssemblerOnly(n, p);
      StoreElsewhere(n, h, phb, data, sn);
      DeliverElsewhere(p, h.sn, sn);
      SameEntryOn(n, p, Deliver(p, h.sn).0, sn);
    }
  }

  /** What an event must be to evict the entry of sn: an accepted fragment of another number that opens
      an entry of its own, in the same slot or clearing that slot on its way. */
  ghost predicate Evicts(n: Node, event: Event, sn: u16)
    requires n.Shape()
  {
    event.Receive? && 0 < |event.buf| && Toggled(event.buf[0], FLAG_FRAGMENT) &&
    var (h, _, _, outcome) := OpenFragment(event.buf, n.e.config.maxFragments);
    && outcome.Accepted? && !n.e.assembler.Has(h.sn) && !n.e.assembler.IsOutdated(h.sn)
    && (n.e.assembler.IndexOf(sn) == n.e.assembler.IndexOf(h.sn) || Clears(n.e.assembler, h.sn, sn))
  }

  lemma {:induction false} OpenEvictsIff(n: Node, h: FragmentHeader, pooled: bytes, sn: u16)
    requires n.Shape() && h.sn != sn && n.e.assembler.Has(sn)
    ensures !OpenEntry(n, h, pooled).e.assembler.Has(sn) <==>
      && !n.e.assembler.Has(h.sn)
      && (n.e.assembler.IndexOf(sn) == n.e.assembler.IndexOf(h.sn) || Clears(n.e.assembler, h.sn, sn))
  {
    hide Rem, Open, Clears;
    InsertLosesIff(n.e.assembler, h.sn, sn);
  }

  lemma {:induction false} ReadElsewhere(n: Node, buf: bytes, pooled: bytes, sn: u16)
    requires Good(n) && 0 < |buf| && Elsewhere(Receive(buf, pooled), sn)
    ensures var r := ReadPacket(n, buf, pooled).0;
      && SameEntry(n, r, sn)
      && (n.e.assembler.Has(sn) ==> (!r.e.assembler.Has(sn) <==> Evicts(n, Receive(buf, pooled), sn)))
  {
    hide Good, Decode, DecodeFragment, RecvCompact, FileFragment, OpenEntry, Visited, Rem, Clears;
    if Toggled(buf[0], FLAG_FRAGMENT) {
      var (h, phb, data, outcome) := OpenFragment(buf, n.e.config.maxFragments);
      if outcome.Accepted? && !(!n.e.assembler.Has(h.sn) && n.e.assembler.IsOutdated(h.sn)) {
        var m := OpenEntry(n, h, pooled);
        OpenElsewhere(n, h, pooled, sn);
        if n.e.assembler.Has(sn) {
          OpenEvictsIff(n, h, pooled, sn);
        }
        AssemblerOnly(n, m);
        FileElsewhere(m, h, phb, data, sn);
        SameEntryOn(n, m, FileFragment(m, h, phb, data).0, sn);
      }
    } else {
      RecvCompactKeeps(n, buf);
    }
  }

  /** Nothing but fragments of number sn touches its entry, and what evicts it is exactly what Evicts says. */
  lemma {:induction false} EvictedIff(n: Node, event: Event, sn: u16)
    requires Good(n) && Possible(n, event) && Elsewhere(event, sn)
    ensures var r := React(n, event);
      && SameEntry(n, r, sn)
      && (n.e.assembler.Has(sn) ==> (!r.e.assembler.Has(sn) <==> Evicts(n, event, sn)))
  {
    hide Good, ReadPacket, Perform, Enabled, Elsewhere, Rem, OpenFragment, Clears;
    match event
    case Receive(buf, pooled) => ReadElsewhere(n, buf, pooled, sn);
    case Local(op) => PerformKeeps(n, op);
  }

  // ---------------------------------------------------------------- the payload's own fragments

  /** An entry for the number holds some of these fragments and nothing else. */
  ghost predicate HeldOf(n: Node, w: Protocol.Write, ids: set<u8>)
    requires n.Shape() && Sendable(n.e.config, w)
  {
    n.e.assembler.Has(w.header.sn) ==> exists got :: got <= ids && got != {} && Partial(n, n, w, got)
  }

  /** One of the payload's fragments comes and others are missing: whether it is filed in the open entry,
      opens one, or is refused as too old, nothing is processed. */
  lemma {:induction false} OurStep(n: Node, w: Protocol.Write, ids: set<u8>, id: u8, pooled: bytes)
    requires Good(n) && Sendable(n.e.config, w) && HeldOf(n, w, ids) && id < Total(n.e.config, w)
    requires ids + {id} < Below(Total(n.e.config, w))
    ensures var r := ReadPacket(n, Piece(n.e.config, w, id), pooled).0;
      r.log.processed == n.log.processed && r.e.config == n.e.config && HeldOf(r, w, ids + {id})
  {
    hide Good, Rem, Assembles, Piece, ReadPacket, NumFragments;
    var r := ReadPacket(n, Piece(n.e.config, w, id), pooled).0;
    if n.e.assembler.Has(w.header.sn) {
      var got :| got <= ids && got != {} && Partial(n, n, w, got);
      PieceArrives(n, n, w, got, id, pooled);
      assert Partial(r, r, w, got + {id});
    } else if n.e.assembler.IsOutdated(w.header.sn) {
      PieceRefused(n, w, id, pooled);
    } else {
      PieceArrives(n, n, w, {}, id, pooled);
      assert Partial(r, r, w, {} + {id});
    }
  }

  lemma {:induction false} PieceRefused(n: Node, w: Protocol.Write, id: u8, pooled: bytes)
    requires n.Shape() && Sendable(n.e.config, w) && id < Total(n.e.config, w)
    requires !n.e.assembler.Has(w.header.sn) && n.e.assembler.IsOutdated(w.header.sn)
    ensures ReadPacket(n, Piece(n.e.config, w, id), pooled).0 == n
  {
    hide Rem, Piece, OpenFragment, FileFragment, OpenEntry, NumFragments, Node.Shape;
    PieceIsFragment(n.e.config, w, id);
  }

  lemma {:induction false} OtherStep(n: Node, w: Protocol.Write, ids: set<u8>, event: Event)
    requires Good(n) && Sendable(n.e.config, w) && HeldOf(n, w, ids) && Possible(n, event)
    requires Elsewhere(event, w.header.sn)
    ensures var r := React(n, event); r.e.config == n.e.config && HeldOf(r, w, ids)
  {
    hide Good, Rem, Assembles, React, Elsewhere, Possible, NumFragments, Evicts;
    ReactKeeps(n, event);
    EvictedIff(n, event, w.header.sn);
    var r := React(n, event);
    if r.e.assembler.Has(w.header.sn) {
      var got :| got <= ids && got != {} && Partial(n, n, w, got);
      assert Partial(r, r, w, got);
    }
  }

  /** Whatever happens in between, evictions and a number gone stale included: while some fragment has
      never come, none of the payload's fragments causes anything to be processed. */
  lemma {:induction false} NeverEarlierAmongOthers(
    config: Config, w: Protocol.Write, states: seq<Node>, arrivals: seq<Arrival>, k: nat)
    requires Passage(config, w, states, arrivals) && k <= |arrivals|
    requires Good(states[0]) && !states[0].e.assembler.Has(w.header.sn)
    requires IdsIn(arrivals) != Below(Total(config, w))
    ensures Good(states[k]) && HeldOf(states[k], w, IdsIn(arrivals[..k]))
    ensures k > 0 && arrivals[k - 1].Ours? ==> states[k].log.processed == states[k - 1].log.processed
  {
    hide Good, HeldOf, React, Possible, Elsewhere, Total, Piece, Stage;
    if k > 0 {
      NeverEarlierAmongOthers(config, w, states, arrivals, k - 1);
      AnyStep(config, w, states, arrivals, k);
      var a := arrivals[k - 1];
      match a {
        case Ours(id, pooled) => OurStep(states[k - 1], w, IdsIn(arrivals[..k - 1]), id, pooled);
        case Other(event) => OtherStep(states[k - 1], w, IdsIn(arrivals[..k - 1]), event);
      }
    } else {
      NothingHeld(states[0], w);
    }
  }

  lemma NothingHeld(n: Node, w: Protocol.Write)
    requires n.Shape() && Sendable(n.e.config, w) && !n.e.assembler.Has(w.header.sn)
    ensures HeldOf(n, w, {})
  {
    hide Rem, Partial;
  }

  /** What step k of a passage is, and which fragments have come before and after it. */
  lemma {:induction false} AnyStep(
    config: Config, w: Protocol.Write, states: seq<Node>, arrivals: seq<Arrival>, k: nat)
    requires Passage(config, w, states, arrivals) && 0 < k <= |arrivals|
    requires Good(states[k - 1]) && IdsIn(arrivals) != Below(Total(config, w))
    ensures Good(states[k]) && IdsIn(arrivals[..k]) < Below(Total(config, w))
    ensures match arrivals[k - 1]
      case Ours(id, pooled) =>
        && id < Total(config, w) && IdsIn(arrivals[..k]) == IdsIn(arrivals[..k - 1]) + {id}
        && states[k] == ReadPacket(states[k - 1], Piece(config, w, id), pooled).0
      case Other(event) =>
        && IdsIn(arrivals[..k]) == IdsIn(arrivals[..k - 1])
        && Possible(states[k - 1], event) && Elsewhere(event, w.header.sn) && states[k] == React(states[k - 1], event)
  {
    hide Good, React, Possible, Elsewhere, Total, Piece, Passage;
    var a := arrivals[k - 1];
    StageOf(config, w, states, arrivals, k - 1);
    ReactKeeps(states[k - 1], EventOf(config, w, a));
    assert arrivals[..k][..k - 1] == arrivals[..k - 1];
    assert arrivals[..|arrivals|] == arrivals;
    IdsBelow(config, w, states, arrivals, k);
    IdsBelow(config, w, states, arrivals, |arrivals|);
    IdsGrow(arrivals, k);
    if a.Ours? {
      ReactOurs(states[k - 1], config, w, a.id, a.pooled);
    }
  }

  lemma StageOf(config: Config, w: Protocol.Write, states: seq<Node>, arrivals: seq<Arrival>, k: nat)
    requires Passage(config, w, states, arrivals) && k < |arrivals|
    ensures Stage(config, w, states[k], arrivals[k], states[k + 1])
  {
    hide Stage, Node.Shape;
  }

  lemma ReactOurs(n: Node, config: Config, w: Protocol.Write, id: u8, pooled: bytes)
    requires n.Shape() && Sendable(config, w) && id < Total(config, w)
    requires Possible(n, EventOf(config, w, Ours(id, pooled)))
    ensures React(n, EventOf(config, w, Ours(id, pooled))) == ReadPacket(n, Piece(config, w, id), pooled).0
  {
    hide ReadPacket, Node.Shape, Total, Piece;
  }

  lemma {:induction false} IdsBelow(
    config: Config, w: Protocol.Write, states: seq<Node>, arrivals: seq<Arrival>, k: nat)
    requires Passage(config, w, states, arrivals) && k <= |arrivals|
    ensures IdsIn(arrivals[..k]) <= Below(Total(config, w))
  {
    hide Possible, React, Elsewhere, Total;
    if k > 0 {
      IdsBelow(config, w, states, arrivals, k - 1);
      assert arrivals[..k][..k - 1] == arrivals[..k - 1];
      assert Stage(config, w, states[k - 1], arrivals[k - 1], states[k]);
    }
  }

  /** Ids only get more, so that a set still incomplete at the end was so before. */
  lemma {:induction false} IdsGrow(arrivals: seq<Arrival>, k: nat)
    requires k <= |arrivals|
    ensures IdsIn(arrivals[..k]) <= IdsIn(arrivals)
    decreases |arrivals|
  {
    if k < |arrivals| {
      var before := arrivals[..|arrivals| - 1];
      IdsGrow(before, k);
      assert before[..k] == arrivals[..k];
    } else {
      assert arrivals[..k] == arrivals;
    }
  }

  // ---------------------------------------------------------------- the last fragment

  /** The number is not too old when the payload's first fragment comes, and nothing that comes after
      it is of the kind that evicts. */
  ghost predicate Undisturbed(config: Config, w: Protocol.Write, states: seq<Node>, arrivals: seq<Arrival>)
    requires Passage(config, w, states, arrivals)
  {
    && (forall k :: 0 <= k < |arrivals| && arrivals[k].Ours? ==> InTime(states[k], w, IdsIn(arrivals[..k])))
    && forall k :: 0 <= k < |arrivals| && arrivals[k].Other? && IdsIn(arrivals[..k]) != {} ==>
         !Evicts(states[k], arrivals[k].event, w.header.sn)
  }

  ghost predicate InTime(n: Node, w: Protocol.Write, ids: set<u8>) {
    ids == {} ==> !n.e.assembler.IsOutdated(w.header.sn)
  }

  /** No entry while none of these fragments has come, else an entry with exactly these. */
  ghost predicate Collected(n: Node, w: Protocol.Write, ids: set<u8>)
    requires n.Shape() && Sendable(n.e.config, w)
  {
    if ids == {} then !n.e.assembler.Has(w.header.sn) else Partial(n, n, w, ids)
  }

  lemma {:induction false} OurStepCollects(n: Node, w: Protocol.Write, ids: set<u8>, id: u8, pooled: bytes)
    requires Good(n) && Sendable(n.e.config, w) && Collected(n, w, ids) && InTime(n, w, ids)
    requires id < Total(n.e.config, w) && ids + {id} < Below(Total(n.e.config, w))
    ensures var r := ReadPacket(n, Piece(n.e.config, w, id), pooled).0;
      r.e.config == n.e.config && Collected(r, w, ids + {id})
  {
    hide Good, Rem, Assembles, Piece, ReadPacket, NumFragments;
    PieceArrives(n, n, w, ids, id, pooled);
  }

  lemma {:induction false} OtherStepCollects(n: Node, w: Protocol.Write, ids: set<u8>, event: Event)
    requires Good(n) && Sendable(n.e.config, w) && Collected(n, w, ids) && Possible(n, event)
    requires Elsewhere(event, w.header.sn) && (ids != {} ==> !Evicts(n, event, w.header.sn))
    ensures var r := React(n, event); r.e.config == n.e.config && Collected(r, w, ids)
  {
    hide Good, Rem, Assembles, React, Elsewhere, Possible, NumFragments, Evicts;
    ReactKeeps(n, event);
    EvictedIff(n, event, w.header.sn);
  }

  lemma {:induction false} AllCollected(
    config: Config, w: Protocol.Write, states: seq<Node>, arrivals: seq<Arrival>, k: nat)
    requires Passage(config, w, states, arrivals) && Undisturbed(config, w, states, arrivals) && k <= |arrivals|
    requires Good(states[0]) && !states[0].e.assembler.Has(w.header.sn)
    requires IdsIn(arrivals) != Below(Total(config, w))
    ensures Good(states[k]) && Collected(states[k], w, IdsIn(arrivals[..k]))
  {
    hide Good, Collected, React, Possible, Elsewhere, Total, Piece, Stage, Evicts, InTime;
    if k > 0 {
      AllCollected(config, w, states, arrivals, k - 1);
      AnyStep(config, w, states, arrivals, k);
      var a := arrivals[k - 1];
      match a {
        case Ours(id, pooled) => OurStepCollects(states[k - 1], w, IdsIn(arrivals[..k - 1]), id, pooled);
        case Other(event) => OtherStepCollects(states[k - 1], w, IdsIn(arrivals[..k - 1]), event);
      }
    } else {
      NothingCollected(states[0], w);
    }
  }

  lemma NothingCollected(n: Node, w: Protocol.Write)
    requires n.Shape() && Sendable(n.e.config, w) && !n.e.assembler.Has(w.header.sn)
    ensures Collected(n, w, {})
  {
  }

  /** Whatever else happens in between short of evicting the entry: when the last missing fragment
      comes, the payload is processed once and byte for byte, unless its number has become too old for
      the receive buffer meanwhile. */
  lemma {:induction false} LastPieceCompletesAmongOthers(
    config: Config, w: Protocol.Write, states: seq<Node>, arrivals: seq<Arrival>, id: u8, pooled: bytes)
    requires Passage(config, w, states, arrivals) && Undisturbed(config, w, states, arrivals)
    requires Good(states[0]) && !states[0].e.assembler.Has(w.header.sn)
    requires id < Total(config, w) && InTime(states[|arrivals|], w, IdsIn(arrivals))
    requires IdsIn(arrivals) != Below(Total(config, w)) == IdsIn(arrivals) + {id}
    ensures var n := states[|arrivals|];
      var r := ReadPacket(n, Piece(config, w, id), pooled).0;
      && r.log.processed == n.log.processed +
           (if n.e.recv.IsOutdated(w.header.sn) then [] else [Delivery(w.header.sn, w.payload)])
      && !r.e.assembler.Has(w.header.sn)
  {
    hide Good, Rem, Assembles, Piece, ReadPacket, Total, Stage, Undisturbed;
    AllCollected(config, w, states, arrivals, |arrivals|);
    assert arrivals[..|arrivals|] == arrivals;
    PieceArrives(states[|arrivals|], states[|arrivals|], w, IdsIn(arrivals), id, pooled);
  }
}
