/** The sequence buffers as objects. buffer_sent.go, buffer_recv.go, buffer_fragment.go and
    buffer_packet.go repeat one structure over different entry types, each with a SequenceBuffer
    embedded by value; here it is one class, with the fields of the embedded buffer inlined. */
module Buffers {
  import opened Words
  import opened Bits
  import opened Serial
  import opened Rings

  /** memset.go keeps one row of empty markers and clears slots by copying from it. */
  const EMPTY_CACHE: seq<u32> := seq(0xFFFF, _ => EMPTY)

  method ResetSlots(b: array<u32>, lo: nat, hi: nat)
    requires lo <= hi <= b.Length && hi - lo <= |EMPTY_CACHE|
    modifies b
    ensures forall i :: 0 <= i < b.Length ==> b[i] == if lo <= i < hi then EMPTY else old(b[i])
  {
    for i := lo to hi
      invariant forall j :: 0 <= j < b.Length ==> b[j] == if lo <= j < i then EMPTY else old(b[j])
    {
      b[i] := EMPTY_CACHE[i - lo];
    }
  }

  class RingBuffer<T> {
    var latest: u16
    const slots: array<u32>
    const entries: array<T>

    ghost function Repr(): set<object> {
      {this, slots, entries}
    }

    ghost predicate Valid() {
      && 1 <= slots.Length < 0xFFFF && entries.Length == slots.Length
      && slots as object != entries as object
    }

    ghost function Value(): (r: Ring<T>)
      requires Valid()
      reads this, slots, entries
      ensures r.WellFormed() && r.Cap() == slots.Length
    {
      Ring(latest, slots[..], entries[..])
    }

    /** A buffer of capacity cap; zero is the zero value of an entry. */
    constructor (cap: u16, zero: T)
      requires 1 <= cap < 0xFFFF
      ensures Valid() && fresh(Repr()) && Value() == EmptyRing(cap, zero)
    {
      slots := new u32[cap](_ => 0);
      entries := new T[cap](_ => zero);
      new;
      Reset();
      assert slots[..] == seq(cap, _ => EMPTY);
      assert entries[..] == seq(cap, _ => zero);
    }

    method Reset()
      requires Valid()
      modifies this, slots
      ensures Value() == old(Value()).(latest := 0, slots := seq(slots.Length, _ => EMPTY))
    {
      latest := 0;
      ResetSlots(slots, 0, slots.Length);
      assert slots[..] == seq(slots.Length, _ => EMPTY);
    }

    method RemoveRange(start: u16, end: u16)
      requires Valid()
      modifies slots
      ensures slots[..] == ClearRange(old(slots[..]), start, end)
    {
      var lo: nat, hi: nat := start % (slots.Length + 1), end % (slots.Length + 1);
      QuotRemAreGo(start, slots.Length + 1);
      QuotRemAreGo(end, slots.Length + 1);
      if hi < lo {
        ResetSlots(slots, lo, slots.Length);
        ResetSlots(slots, 0, hi);
        return;
      }
      ResetSlots(slots, lo, hi);
    }

    method IsOutdated(sn: u16) returns (outdated: bool)
      requires Valid()
      ensures outdated == Value().IsOutdated(sn) == !Current(latest, slots.Length, sn)
    {
      StaleIff(Value(), sn);
      outdated := SeqLessThan(sn, Wrap16(latest - entries.Length));
    }

    /** Records sn and returns the index of its entry, or nothing when sn is stale. */
    method Insert(sn: u16) returns (entry: Option<nat>)
      requires Valid()
      modifies this, slots
      ensures entry == if old(Value()).IsOutdated(sn) then None else Some(Value().IndexOf(sn))
      ensures entry.None? <==> !Current(old(latest), slots.Length, sn)
      ensures Value() == if entry.None? then old(Value()) else old(Value()).Insert(sn)
    {
      var outdated := IsOutdated(sn);
      if outdated {
        return None;
      }
      if SeqGreaterThan(Wrap16(sn + 1), latest) {
        RemoveRange(latest, sn);
        latest := Wrap16(sn + 1);
      }
      var i: nat := sn % entries.Length;
      QuotRemAreGo(sn, entries.Length);
      slots[i] := sn;
      entry := Some(i);
    }

    method Remove(sn: u16)
      requires Valid()
      modifies slots
      ensures Value() == old(Value()).Remove(sn)
    {
      QuotRemAreGo(sn, entries.Length);
      slots[sn % entries.Length] := EMPTY;
    }

    method Find(sn: u16) returns (entry: Option<nat>)
      requires Valid()
      ensures entry == if Value().Has(sn) then Some(Value().IndexOf(sn)) else None
    {
      var i: nat := sn % entries.Length;
      QuotRemAreGo(sn, entries.Length);
      entry := if slots[i] == sn then Some(i) else None;
    }

    /** Writes through the pointer that Insert or Find handed out for sn. */
    method Store(i: nat, sn: u16, x: T)
      requires Valid() && i == Value().IndexOf(sn)
      modifies entries
      ensures Value() == old(Value()).Put(sn, x)
    {
      entries[i] := x;
    }

    /** The newest number, and a set of the numbers recorded among it and the 31 before it. */
    method NextACK() returns (ack: u16, acks: u32)
      requires Valid()
      ensures (ack, acks) == Value().NextACK()
    {
      hide AckBits, Pow2, Bit, Rem;
      ack, acks := Wrap16(latest - 1), 0;
      var i: nat, m: u32 := 0, 1;
      AckStart(Value(), ack);
      while i < 32
        invariant i <= 32 && acks == AckBits(Value(), ack, i) && acks < Pow2(i)
        invariant i < 32 ==> m == Pow2(i)
      {
        var sn := Wrap16(ack - i);
        QuotRemAreGo(sn, entries.Length);
        AckTurn(Value(), ack, i);
        if slots[sn % entries.Length] == sn {
          acks := acks + m;
        }
        i, m := i + 1, m * 2 % 0x1_0000_0000;
      }
    }
  }

  lemma AckStart<T>(r: Ring<T>, ack: u16)
    requires r.WellFormed()
    ensures AckBits(r, ack, 0) == 0 && Pow2(0) == 1 && Pow2(32) == 0x1_0000_0000
  {
    WordSizes();
  }

  /** Bit i is still clear when turn i sets it, so that or-ing the mask in is adding it. */
  lemma {:induction false} AckTurn<T>(r: Ring<T>, ack: u16, i: nat)
    requires r.WellFormed() && i < 32
    ensures AckBits(r, ack, i + 1) == AckBits(r, ack, i) + if r.Has(Back(ack, i)) then Pow2(i) else 0
    ensures AckBits(r, ack, i + 1) < Pow2(i + 1) <= 0x1_0000_0000
    ensures Pow2(i + 1) == 2 * Pow2(i) && (i + 1 < 32 ==> Pow2(i + 1) < 0x1_0000_0000)
  {
    AckBitsBound(r, ack, i);
    AckBitsBound(r, ack, i + 1);
    NoHighBits(AckBits(r, ack, i), i, i);
    Pow2Below(i + 1);
    if i + 1 < 32 {
      Pow2Below(i + 2);
    }
  }

  lemma {:induction false} Pow2Below(i: nat)
    requires i <= 32
    ensures Pow2(i) <= 0x1_0000_0000
    decreases 32 - i
  {
    if i < 32 {
      Pow2Below(i + 1);
    } else {
      WordSizes();
    }
  }
}
