/** The sequence buffers as values: what Insert, Remove, Find and NextACK compute. The classes
    of module Buffers are proved against this module. */
module Rings {
  import opened Words
  import opened Bits
  import opened Serial

  const EMPTY: u32 := 0xFFFF_FFFF

  /** SequenceBuffer.RemoveRange: both ends are reduced modulo cap + 1, not modulo cap. */
  function ClearRange(slots: seq<u32>, start: u16, end: u16): (r: seq<u32>)
    requires 0 < |slots|
    ensures |r| == |slots|
  {
    var lo, hi := Rem(start, |slots| + 1), Rem(end, |slots| + 1);
    seq(|slots|, i requires 0 <= i < |slots| =>
      if hi < lo then if lo <= i || i < hi then EMPTY else slots[i]
      else if lo <= i < hi then EMPTY else slots[i])
  }

  datatype Ring<T> = Ring(latest: u16, slots: seq<u32>, entries: seq<T>) {

    /** Capacities for which no index computation of the buffers goes wrong: 0 divides by
        zero, and cap + 1 wraps to 0 at 65535. */
    ghost predicate WellFormed() {
      1 <= |slots| < 0xFFFF && |entries| == |slots|
    }

    function Cap(): nat {
      |slots|
    }

    function IndexOf(sn: u16): nat
      requires WellFormed()
    {
      Rem(sn, |slots|)
    }

    predicate Has(sn: u16)
      requires WellFormed()
    {
      slots[Rem(sn, |slots|)] == sn
    }

    predicate IsOutdated(sn: u16) {
      SeqLessThan(sn, Wrap16(latest - |slots|))
    }

    function Insert(sn: u16): (r: Ring<T>)
      requires WellFormed()
      ensures r.WellFormed() && r.Cap() == Cap() && r.entries == entries
    {
      var newest := SeqGreaterThan(Wrap16(sn + 1), latest);
      var kept := if newest then ClearRange(slots, latest, sn) else slots;
      Ring(if newest then Wrap16(sn + 1) else latest, kept[Rem(sn, |slots|) := sn], entries)
    }

    function Remove(sn: u16): (r: Ring<T>)
      requires WellFormed()
      ensures r.WellFormed() && r.Cap() == Cap() && r.entries == entries && r.latest == latest
    {
      this.(slots := slots[Rem(sn, |slots|) := EMPTY])
    }

    /** The entry that the pointer returned by Insert or Find refers to. */
    function At(sn: u16): T
      requires WellFormed()
    {
      entries[Rem(sn, |slots|)]
    }

    function Put(sn: u16, x: T): (r: Ring<T>)
      requires WellFormed()
      ensures r.WellFormed() && r.Cap() == Cap() && r.slots == slots && r.latest == latest
    {
      this.(entries := entries[Rem(sn, |slots|) := x])
    }

    /** The newest number and a set bit i for each recorded number newest - i. */
    function NextACK(): (u16, u32)
      requires WellFormed()
    {
      AckBitsBound(this, Wrap16(latest - 1), 32);
      WordSizes();
      (Wrap16(latest - 1), AckBits(this, Wrap16(latest - 1), 32))
    }
  }

  function EmptyRing<T>(cap: nat, fill: T): (r: Ring<T>)
    requires 1 <= cap < 0xFFFF
    ensures r.WellFormed() && r.Cap() == cap
  {
    Ring(0, seq(cap, _ => EMPTY), seq(cap, _ => fill))
  }

  // ---------------------------------------------------------------- RemoveRange

  /** Slot i is cleared exactly when it lies in the cyclic interval from start to end of the
      residues modulo cap + 1, the form its caller had in mind. */
  lemma ClearRangeIsCyclic(slots: seq<u32>, start: u16, end: u16, i: nat)
    requires i < |slots|
    ensures var m := |slots| + 1;
      ClearRange(slots, start, end)[i] ==
        if Cyclic(i, Rem(start, m), m) < Cyclic(Rem(end, m), Rem(start, m), m) then EMPTY else slots[i]
  {
  }

  /** How far x lies beyond y going up around a circle of m positions. */
  function Cyclic(x: nat, y: nat, m: nat): nat
    requires x < m && y < m
  {
    if y <= x then x - y else x + m - y
  }

  // ---------------------------------------------------------------- sequential use

  /** Writing the next number in turn: never stale, clears nothing but its own slot. */
  lemma {:induction false} InsertNext<T>(r: Ring<T>, n: nat)
    requires r.WellFormed() && IsCap(r.Cap()) && r.latest == Wrap16(n)
    ensures !r.IsOutdated(Wrap16(n))
    ensures r.Insert(Wrap16(n)) ==
      Ring(Wrap16(n + 1), r.slots[Rem(Wrap16(n), r.Cap()) := Wrap16(n)], r.entries)
  {
    hide Rem, SeqGreaterThan;
    SeqFollowsCounters(n - r.Cap(), n);
    SeqFollowsCounters(n + 1, n);
    WrapSum(n, 0 - r.Cap());
    WrapSum(n, 1);
    assert ClearRange(r.slots, r.latest, r.latest) == r.slots;
  }

  /** Writing the newest number once more, as every fragment after the first does. */
  lemma {:induction false} InsertAgain<T>(r: Ring<T>, n: nat)
    requires r.WellFormed() && IsCap(r.Cap()) && r.latest == Wrap16(n + 1)
    ensures !r.IsOutdated(Wrap16(n))
    ensures r.Insert(Wrap16(n)) == r.(slots := r.slots[Rem(Wrap16(n), r.Cap()) := Wrap16(n)])
  {
    hide ClearRange, Rem, SeqGreaterThan;
    SeqFollowsCounters(n + 1 - r.Cap(), n);
    SeqFollowsCounters(n + 1, n + 1);
    WrapSum(n + 1, 0 - r.Cap());
    WrapSum(n, 1);
  }

  lemma WrapSum(n: int, k: int)
    ensures Wrap16(Wrap16(n) + k) == Wrap16(n + k)
  {
  }

  /** What slot i holds after the numbers 0, ..., n-1 were written in turn. */
  function SlotAfter(n: nat, cap: nat, i: nat): u32
    requires i < cap
  {
    if Last(n, cap, i) < 0 then EMPTY else Wrap16(Last(n, cap, i))
  }

  ghost predicate Sequential<T>(r: Ring<T>, n: nat)
    requires r.WellFormed()
  {
    r.latest == Wrap16(n) && forall i :: 0 <= i < r.Cap() ==> r.slots[i] == SlotAfter(n, r.Cap(), i)
  }

  lemma {:induction false} SequentialStart<T>(cap: nat, fill: T)
    requires IsCap(cap)
    ensures Sequential(EmptyRing(cap, fill), 0)
  {
  }

  lemma {:induction false} SequentialStep<T>(r: Ring<T>, n: nat)
    requires r.WellFormed() && IsCap(r.Cap()) && Sequential(r, n)
    ensures !r.IsOutdated(Wrap16(n)) && Sequential(r.Insert(Wrap16(n)), n + 1)
  {
    InsertNext(r, n);
    RemOfWrap(n, r.Cap());
    var r' := r.Insert(Wrap16(n));
    forall i | 0 <= i < r.Cap() ensures r'.slots[i] == SlotAfter(n + 1, r.Cap(), i) {
      LastStep(n, r.Cap(), i);
      assert r.slots[i] == SlotAfter(n, r.Cap(), i);
    }
  }

  /** The counter that wire number sn stands for when n numbers have been written: the most
      recent one with that residue. Negative when no number written so far has it. */
  function CounterOf(n: nat, sn: u16): (c: int)
    ensures c < n
  {
    Last(n, 0x1_0000, sn)
  }

  lemma {:induction false} CounterWraps(n: nat, sn: u16)
    requires 0 <= CounterOf(n, sn)
    ensures Wrap16(CounterOf(n, sn)) == sn
  {
    LastRem(n, 0x1_0000, sn);
    RemWrap(CounterOf(n, sn));
  }

  lemma {:induction false} CounterUnique(n: nat, c: nat)
    requires n - 0x1_0000 <= c < n
    ensures CounterOf(n, Wrap16(c)) == c
  {
    RemWrap(c);
    LastUnique(n, 0x1_0000, c);
  }

  /** Found exactly when the counter behind sn is one of the last min(n, cap) written,
      whatever n is. */
  lemma {:induction false} SequentialFind<T>(r: Ring<T>, n: nat, sn: u16)
    requires r.WellFormed() && IsCap(r.Cap()) && Sequential(r, n)
    ensures r.Has(sn) <==> CounterOf(n, sn) >= 0 && CounterOf(n, sn) >= n - r.Cap()
    ensures r.Has(sn) ==> Rem(CounterOf(n, sn), r.Cap()) == r.IndexOf(sn)
  {
    var cap, i := r.Cap(), r.IndexOf(sn);
    var c := CounterOf(n, sn);
    assert r.slots[i] == SlotAfter(n, cap, i);
    if c >= 0 {
      CounterWraps(n, sn);
      RemOfWrap(c, cap);
      if c >= n - cap {
        LastUnique(n, cap, c);
      }
    }
    if r.Has(sn) {
      CounterUnique(n, Last(n, cap, i));
    }
  }

  /** A capacity of 32768 also divides 65536, but there the very first insert is refused. */
  lemma HalfCapRefusesFirstInsert()
    ensures EmptyRing(0x8000, 0).IsOutdated(0)
  {
  }

  // ---------------------------------------------------------------- any history

  datatype RingOp = Inserted(sn: u16) | Removed(sn: u16)

  function Apply(r: Ring<()>, op: RingOp): (r': Ring<()>)
    requires r.WellFormed()
    ensures r'.WellFormed() && r'.Cap() == r.Cap()
  {
    match op
    case Inserted(sn) => if r.IsOutdated(sn) then r else r.Insert(sn)
    case Removed(sn) => r.Remove(sn)
  }

  function Replay(cap: nat, ops: seq<RingOp>): (r: Ring<()>)
    requires 1 <= cap < 0xFFFF
    ensures r.WellFormed() && r.Cap() == cap
  {
    if ops == [] then EmptyRing(cap, ()) else Apply(Replay(cap, ops[..|ops| - 1]), ops[|ops| - 1])
  }

  /** The number most recently accepted into slot i. */
  function LastInto(cap: nat, ops: seq<RingOp>, i: nat): Option<u16>
    requires 1 <= cap < 0xFFFF
  {
    if ops == [] then None
    else
      var before, op := ops[..|ops| - 1], ops[|ops| - 1];
      if op.Inserted? && Rem(op.sn, cap) == i && !Replay(cap, before).IsOutdated(op.sn) then Some(op.sn)
      else LastInto(cap, before, i)
  }

  /** Whatever was inserted and removed, a non-empty slot holds the number accepted there last:
      the buffers lose numbers, they never invent or resurrect one. */
  lemma {:induction false} SlotsHoldLastInserted(cap: nat, ops: seq<RingOp>, i: nat)
    requires 1 <= cap < 0xFFFF && i < cap
    ensures var v := Replay(cap, ops).slots[i];
      v != EMPTY ==> LastInto(cap, ops, i) == Some(v) && Rem(v, cap) == i
  {
    if ops != [] {
      SlotsHoldLastInserted(cap, ops[..|ops| - 1], i);
    }
  }

  // ---------------------------------------------------------------- what each operation does

  /** sn lies at or above the lowest number of the window, going at most half way around the circle; at
      exactly half way, where above and below are the same, the lowest number itself decides. */
  predicate Current(latest: u16, cap: nat, sn: u16) {
    var above := Wrap16(sn - (latest - cap));
    above < 0x8000 || (above == 0x8000 && Wrap16(latest - cap) < 0x8000)
  }

  /** Too old is exactly what is not current. */
  lemma StaleIff<T>(r: Ring<T>, sn: u16)
    ensures r.IsOutdated(sn) <==> !Current(r.latest, r.Cap(), sn)
  {
  }

  /** On the counters behind the wire numbers: what lies no more than cap behind latest. */
  lemma CurrentFollowsCounters(n: int, cap: nat, m: int)
    requires -0x8000 < m - (n - cap) < 0x8000
    ensures Current(Wrap16(n), cap, Wrap16(m)) <==> m >= n - cap
  {
    hide Wrap16;
    WrapSum(n, 0 - cap);
    WrapSum(m, cap - Wrap16(n));
    WrapMinus(m + cap, n);
    WrapNear(m - (n - cap));
  }

  lemma WrapMinus(k: int, n: int)
    ensures Wrap16(k - Wrap16(n)) == Wrap16(k - n)
  {
  }

  lemma WrapNear(d: int)
    requires -0x8000 < d < 0x8000
    ensures Wrap16(d) == if d >= 0 then d else d + 0x1_0000
  {
  }

  /** What an insert does, in or out of order, to latest and to every number recorded. */
  lemma {:induction false} InsertIs<T>(r: Ring<T>, n: int, m: int, t: u16)
    requires r.WellFormed() && r.latest == Wrap16(n) && -0x8000 < m + 1 - n < 0x8000
    ensures var r', cap, sn := r.Insert(Wrap16(m)), r.Cap(), Wrap16(m);
      && r'.latest == Wrap16(if m >= n then m + 1 else n)
      && (r'.Has(t) <==> (t == sn || (r.Has(t) && Rem(t, cap) != Rem(sn, cap) && !(m >= n && Between(r, t, sn)))))
  {
    hide Rem, ClearRange, SeqGreaterThan, Cyclic;
    SeqFollowsCounters(m + 1, n);
    WrapSum(m, 1);
    ClearRangeIsCyclic(r.slots, r.latest, Wrap16(m), r.IndexOf(t));
  }

  /** Removing a number empties its slot, whoever is there, and nothing else. */
  lemma RemoveIs<T>(r: Ring<T>, sn: u16, t: u16)
    requires r.WellFormed()
    ensures r.Remove(sn).Has(t) <==> r.Has(t) && Rem(t, r.Cap()) != Rem(sn, r.Cap())
  {
    hide Rem;
  }

  /** NextACK names the newest number, and in bit i whether the number i before it is recorded. */
  lemma {:induction false} NextACKIs<T>(r: Ring<T>, n: int, i: nat)
    requires r.WellFormed() && r.latest == Wrap16(n)
    ensures r.NextACK().0 == Wrap16(n - 1)
    ensures Bit(r.NextACK().1, i) <==> i < 32 && r.Has(Wrap16(n - 1 - i))
  {
    hide Rem;
    WrapSum(n, -1);
    WrapSum(n - 1, -1 * i);
    AckBitsExact(r, Wrap16(n - 1), 32, i);
  }

  /** An accepted number is among the cap numbers below latest, and latest moves forward. */
  lemma {:induction false} InsertedInWindow<T>(r: Ring<T>, sn: u16)
    requires r.WellFormed() && 2 <= r.Cap() < 0x8000 && !r.IsOutdated(sn)
    ensures var r' := r.Insert(sn);
      && Wrap16(sn - (r'.latest - r.Cap())) < r.Cap()
      && (r'.latest == r.latest || SeqGreaterThan(r'.latest, r.latest))
  {
  }

  lemma {:induction false} WindowSlotsDistinct(latest: u16, cap: nat, s: u16, t: u16)
    requires IsCap(cap) && Rem(s, cap) == Rem(t, cap)
    requires Wrap16(s - (latest - cap)) < cap && Wrap16(t - (latest - cap)) < cap
    ensures s == t
  {
    var base := latest - cap;
    var a, b := 0x1_0000 + base + Wrap16(s - base), 0x1_0000 + base + Wrap16(t - base);
    WrapOffset(s, base);
    WrapOffset(t, base);
    RemOfWrap(a, cap);
    RemOfWrap(b, cap);
    RemUnique(a, b, cap);
  }

  lemma WrapOffset(s: u16, base: int)
    ensures Wrap16(0x1_0000 + base + Wrap16(s - base)) == s
  {
  }

  // ---------------------------------------------------------------- acknowledgement sets

  function AckBits<T>(r: Ring<T>, ack: u16, n: nat): nat
    requires r.WellFormed()
  {
    if n == 0 then 0
    else
      var low := AckBits(r, ack, n - 1);
      if r.Has(Back(ack, n - 1)) then SetBit(low, n - 1) else low
  }

  lemma {:induction false} AckBitsBound<T>(r: Ring<T>, ack: u16, n: nat)
    requires r.WellFormed()
    ensures AckBits(r, ack, n) < Pow2(n)
  {
    if n > 0 {
      AckBitsBound(r, ack, n - 1);
      if r.Has(Back(ack, n - 1)) {
        SetBitBound(AckBits(r, ack, n - 1), n - 1, n);
      }
    }
  }

  /** Bit i says whether ack - i is recorded, with the 16-bit wrap of the subtraction. */
  lemma {:induction false} AckBitsExact<T>(r: Ring<T>, ack: u16, n: nat, i: nat)
    requires r.WellFormed()
    ensures Bit(AckBits(r, ack, n), i) <==> i < n && r.Has(Back(ack, i))
  {
    if n == 0 {
      NoHighBits(0, 0, i);
    } else {
      AckBitsExact(r, ack, n - 1, i);
      SetBitIsOr(AckBits(r, ack, n - 1), n - 1, i);
    }
  }

  // ---------------------------------------------------------------- the receive buffer

  function InsertAll(r: Ring<()>, arrivals: seq<u16>): (r': Ring<()>)
    requires r.WellFormed()
    ensures r'.WellFormed() && r'.Cap() == r.Cap()
  {
    if arrivals == [] then r
    else Apply(InsertAll(r, arrivals[..|arrivals| - 1]), Inserted(arrivals[|arrivals| - 1]))
  }

  ghost predicate Exactly(r: Ring<()>, arrivals: seq<u16>)
    requires r.WellFormed()
  {
    && r.latest <= r.Cap()
    && (forall s :: s in arrivals ==> s < r.latest)
    && (r.latest > 0 ==> r.latest - 1 in arrivals)
    && forall i {:trigger r.slots[i]} :: 0 <= i < r.Cap() ==> r.slots[i] == if i in arrivals then i else EMPTY
  }

  /** Numbers below cap, in any order and with any repetition: the buffer is the set received. */
  lemma {:induction false} FirstLapIsExact(cap: nat, arrivals: seq<u16>)
    requires IsCap(cap) && forall s :: s in arrivals ==> s < cap
    ensures Exactly(InsertAll(EmptyRing(cap, ()), arrivals), arrivals)
  {
    if arrivals != [] {
      var before, s := arrivals[..|arrivals| - 1], arrivals[|arrivals| - 1];
      assert arrivals == before + [s];
      assert s in arrivals && forall x :: x in before ==> x in arrivals;
      FirstLapIsExact(cap, before);
      var r := InsertAll(EmptyRing(cap, ()), before);
      FirstLapStep(r, before, s);
      assert InsertAll(EmptyRing(cap, ()), arrivals) == Apply(r, Inserted(s));
    }
  }

  lemma {:induction false} FirstLapStep(r: Ring<()>, arrivals: seq<u16>, s: u16)
    requires r.WellFormed() && IsCap(r.Cap()) && Exactly(r, arrivals) && s < r.Cap()
    ensures Exactly(Apply(r, Inserted(s)), arrivals + [s])
  {
    var cap, r' := r.Cap(), Apply(r, Inserted(s));
    FirstLapInsert(r, s);
    ClearForward(r.slots, r.latest, if s >= r.latest then s else r.latest);
    forall i | 0 <= i < cap ensures r'.slots[i] == if i in arrivals + [s] then i else EMPTY {
      assert r.slots[i] == if i in arrivals then i else EMPTY;
    }
  }

  lemma {:induction false} FirstLapInsert(r: Ring<()>, s: u16)
    requires r.WellFormed() && IsCap(r.Cap()) && r.latest <= r.Cap() && s < r.Cap()
    ensures Apply(r, Inserted(s)) ==
      if s >= r.latest then Ring(s + 1, ClearRange(r.slots, r.latest, s)[s := s], r.entries)
      else r.(slots := r.slots[s := s])
  {
    hide ClearRange, SeqGreaterThan;
    SeqFollowsCounters(r.latest - r.Cap(), s);
    SeqFollowsCounters(s + 1, r.latest);
  }

  lemma ClearForward(slots: seq<u32>, start: u16, end: u16)
    requires 0 < |slots| && start <= end <= |slots|
    ensures forall i :: 0 <= i < |slots| ==>
      ClearRange(slots, start, end)[i] == if start <= i < end then EMPTY else slots[i]
  {
  }

  /** ... and NextACK reports exactly the numbers received among the 32 up to the newest. */
  lemma {:induction false} FirstLapAcksExact(cap: nat, arrivals: seq<u16>, i: nat)
    requires IsCap(cap) && forall s :: s in arrivals ==> s < cap
    requires i < 32
    ensures var (ack, acks) := InsertAll(EmptyRing(cap, ()), arrivals).NextACK();
      Bit(acks, i) <==> Back(ack, i) in arrivals
  {
    FirstLapIsExact(cap, arrivals);
    var r := InsertAll(EmptyRing(cap, ()), arrivals);
    var ack := Wrap16(r.latest - 1);
    AckBitsExact(r, ack, 32, i);
    ExactlyHas(r, arrivals, Back(ack, i));
  }

  lemma {:induction false} ExactlyHas(r: Ring<()>, arrivals: seq<u16>, sn: u16)
    requires r.WellFormed() && Exactly(r, arrivals)
    ensures r.Has(sn) <==> sn in arrivals
  {
    var j := r.IndexOf(sn);
    assert r.slots[j] == if j in arrivals then j else EMPTY;
    assert sn < r.Cap() ==> j == sn;
  }

  /** The slot of t lies in the range from latest to sn, modulo cap + 1. */
  predicate Between<T>(r: Ring<T>, t: u16, sn: u16)
    requires r.WellFormed()
  {
    var m := r.Cap() + 1;
    Cyclic(Rem(t, r.Cap()), Rem(r.latest, m), m) < Cyclic(Rem(sn, m), Rem(r.latest, m), m)
  }

  /** The insert of sn moves latest, and the slot of t lies in the range cleared then, modulo cap + 1. */
  predicate Clears<T>(r: Ring<T>, sn: u16, t: u16)
    requires r.WellFormed()
  {
    SeqGreaterThan(Wrap16(sn + 1), r.latest) && Between(r, t, sn)
  }

  /** An insert loses a recorded number exactly when it takes its slot or clears it. */
  lemma {:induction false} InsertLosesIff<T>(r: Ring<T>, sn: u16, t: u16)
    requires r.WellFormed() && r.Has(t) && t != sn
    ensures !r.Insert(sn).Has(t) <==> r.IndexOf(t) == r.IndexOf(sn) || Clears(r, sn, t)
  {
    hide Rem, ClearRange, SeqGreaterThan;
    ClearRangeIsCyclic(r.slots, r.latest, sn, r.IndexOf(t));
  }

  /** When an insert loses a recorded number that is still inside the window: slots are taken modulo
      cap but cleared modulo cap + 1, so exactly when the insert moves latest and the number's slot
      lies in the cleared range. */
  lemma {:induction false} LiveEntryLostIff<T>(r: Ring<T>, sn: u16, t: u16)
    requires r.WellFormed() && IsCap(r.Cap()) && !r.IsOutdated(sn) && r.Has(t) && t != sn
    requires Wrap16(t - (r.Insert(sn).latest - r.Cap())) < r.Cap()
    ensures !r.Insert(sn).Has(t) <==> Clears(r, sn, t)
  {
    hide Rem, ClearRange, SeqGreaterThan, IsCap, Clears;
    InsertedInWindowHere(r, sn);
    InsertLosesIff(r, sn, t);
    if r.IndexOf(t) == r.IndexOf(sn) {
      WindowSlotsDistinct(r.Insert(sn).latest, r.Cap(), t, sn);
    }
  }

  lemma InsertedInWindowHere<T>(r: Ring<T>, sn: u16)
    requires r.WellFormed() && IsCap(r.Cap()) && !r.IsOutdated(sn)
    ensures Wrap16(sn - (r.Insert(sn).latest - r.Cap())) < r.Cap()
  {
    hide Rem;
    InsertedInWindow(r, sn);
  }

  /** In particular the next number in turn loses nothing inside the window. */
  lemma {:induction false} NextInTurnLosesNothing<T>(r: Ring<T>, t: u16)
    requires r.WellFormed() && IsCap(r.Cap()) && !r.IsOutdated(r.latest) && r.Has(t) && t != r.latest
    requires Wrap16(t - (r.Insert(r.latest).latest - r.Cap())) < r.Cap()
    ensures r.Insert(r.latest).Has(t)
  {
    hide Rem, SeqGreaterThan, IsCap, ClearRange;
    LiveEntryLostIff(r, r.latest, t);
  }

  /** Beyond the first lap entries can get lost: slots are taken modulo cap but cleared modulo
      cap + 1, so a gap wipes out a number that is still inside the window. */
  lemma {:induction false} LaterLapsLoseEntries()
    ensures var r := InsertAll(EmptyRing(4, ()), [4, 6]);
      && Wrap16(4 - (r.latest - 4)) < 4
      && !r.Has(4)
  {
    var start := EmptyRing(4, ());
    assert [4, 6][..1] == [4] && [4][..0] == [];
    var r := Apply(start, Inserted(4));
    assert r == InsertAll(start, [4]);
    assert r.latest == 5 && |r.slots| == 4;
    assert ClearRange(r.slots, 5, 6)[0] == EMPTY;
    assert InsertAll(start, [4, 6]) == Apply(r, Inserted(6));
  }
}
