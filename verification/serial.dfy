/** Serial-number comparison of 16-bit sequence numbers (utils.go). */
module Serial {
  import opened Words

  const HALF_MAX_UINT16: u16 := 0xFFFF / 2 + 1

  predicate SeqGreaterThan(a: u16, b: u16) {
    (a > b && a - b <= HALF_MAX_UINT16) || (a < b && b - a > HALF_MAX_UINT16)
  }

  predicate SeqLessThan(a: u16, b: u16) {
    SeqGreaterThan(b, a)
  }

  predicate SeqLTE(a: u16, b: u16) {
    a == b || SeqGreaterThan(b, a)
  }

  /** Total and antisymmetric on all pairs, the exact half included; SeqLTE is the complement. */
  lemma SeqTotal(a: u16, b: u16)
    ensures a != b ==> (SeqGreaterThan(a, b) <==> !SeqGreaterThan(b, a))
    ensures SeqLTE(a, b) <==> !SeqGreaterThan(a, b)
  {
  }

  /** Agreement with the order of the unbounded counters behind the wire numbers. The bound
      is exact: at distance 32768 the answer follows the wrapped values instead. */
  lemma SeqFollowsCounters(m: int, n: int)
    requires -0x8000 < m - n < 0x8000
    ensures SeqGreaterThan(Wrap16(m), Wrap16(n)) <==> m > n
    ensures SeqLTE(Wrap16(m), Wrap16(n)) <==> m <= n
  {
    var d := m - n;
    assert Wrap16(m) == Wrap16(Wrap16(n) + d);
  }

  lemma SeqHalfWay(m: int)
    ensures SeqGreaterThan(Wrap16(m + 0x8000), Wrap16(m)) <==> Wrap16(m) < 0x8000
  {
  }
}
