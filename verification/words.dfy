/** Go's fixed-width unsigned integers as bounded integers, and the facts about
    remainders that every ring buffer of the protocol rests on. */
module Words {

  type u8 = x: int | 0 <= x < 0x100
  type u16 = x: int | 0 <= x < 0x1_0000
  type u32 = x: int | 0 <= x < 0x1_0000_0000
  type u64 = x: int | 0 <= x < 0x1_0000_0000_0000_0000
  type bytes = seq<u8>

  datatype Option<+T> = None | Some(value: T)

  /** The 16-bit wrap-around of Go's uint16 arithmetic. */
  function Wrap16(x: int): u16 {
    x % 0x1_0000
  }

  /** The number i before sn, with the wrap. */
  function Back(sn: u16, i: nat): u16 {
    Wrap16(sn - i)
  }

  /** The number k after sn, with the wrap. */
  function Ahead(sn: u16, k: nat): u16 {
    Wrap16(sn + k)
  }

  /** Go's quotient, remainder and product of unsigned numbers as repeated subtraction and
      addition: recursive definitions keep them out of non-linear arithmetic. */
  function Quot(x: nat, m: nat): nat
    requires 0 < m
  {
    if x < m then 0 else 1 + Quot(x - m, m)
  }

  function Rem(x: nat, m: nat): (r: nat)
    requires 0 < m
    ensures r < m
  {
    if x < m then x else Rem(x - m, m)
  }

  function Times(k: nat, m: nat): nat {
    if k == 0 then 0 else Times(k - 1, m) + m
  }

  lemma {:induction false} TimesIsProduct(k: nat, m: nat)
    ensures Times(k, m) == k * m
  {
    if k > 0 {
      TimesIsProduct(k - 1, m);
      assert k * m == (k - 1) * m + m;
    }
  }

  lemma {:induction false} QuotRemAreGo(x: nat, m: nat)
    requires 0 < m
    ensures Quot(x, m) == x / m && Rem(x, m) == x % m
    decreases x
  {
    if x >= m {
      QuotRemAreGo(x - m, m);
      var q, r := (x - m) / m, (x - m) % m;
      assert x - m == m * q + r;
      assert m * (q + 1) == m * q + m;
      DivisionUnique(x, m, q + 1, r);
    } else {
      DivisionUnique(x, m, 0, x);
    }
  }

  lemma {:induction false} DivisionUnique(x: int, m: int, q: int, r: int)
    requires 0 <= r < m && x == m * q + r
    ensures x / m == q && x % m == r
  {
    var d := x / m - q;
    assert x == m * (x / m) + x % m;
    assert m * d == m * (x / m) - m * q;
    assert d >= 1 ==> m * d >= m;
    assert d <= -1 ==> m * d <= -m;
  }

  lemma {:induction false} TimesMonotone(i: nat, j: nat, m: nat)
    requires i < j
    ensures Times(i, m) + m <= Times(j, m)
  {
    if i < j - 1 {
      TimesMonotone(i, j - 1, m);
    }
  }

  lemma {:induction false} RemWrap(x: nat)
    ensures Rem(x, 0x1_0000) == Wrap16(x)
  {
    if x >= 0x1_0000 {
      RemWrap(x - 0x1_0000);
    }
  }

  /** Adding a multiple of m does not change the remainder. */
  lemma {:induction false} RemAdd(x: nat, a: nat, m: nat)
    requires 0 < m && Rem(a, m) == 0
    ensures Rem(x + a, m) == Rem(x, m)
    decreases a
  {
    if a >= m {
      RemAdd(x, a - m, m);
    }
  }

  lemma {:induction false} RemUnique(a: nat, b: nat, m: nat)
    requires 0 < m && Rem(a, m) == Rem(b, m) && a < b + m && b < a + m
    ensures a == b
    decreases a
  {
    if a >= m && b >= m {
      RemUnique(a - m, b - m, m);
    }
  }

  /** Capacities for which slot numbers survive the 16-bit wrap and the stale test leaves
      room for a full window: the powers of two from 2 to 16384. */
  predicate IsCap(cap: int) {
    2 <= cap <= 0x4000 && Rem(0x1_0000, cap) == 0
  }

  lemma WrapPeriodic(m: int)
    ensures Wrap16(m + 0x1_0000) == Wrap16(m)
  {
  }

  /** The slot of a counter is the slot of its wire number when cap divides 65536. */
  lemma {:induction false} RemOfWrap(n: nat, cap: nat)
    requires IsCap(cap)
    ensures Rem(Wrap16(n), cap) == Rem(n, cap)
  {
    if n >= 0x1_0000 {
      hide Rem;
      var m := n - 0x1_0000;
      RemOfWrap(m, cap);
      RemAdd(m, 0x1_0000, cap);
      WrapPeriodic(m);
    }
  }

  /** The largest number below n with remainder i modulo m; negative when there is none. */
  function Last(n: nat, m: nat, i: nat): (c: int)
    requires i < m
    ensures n - m <= c < n
    ensures 0 <= c <==> i < n
    decreases n
  {
    if n <= i then i - m else if n <= i + m then i else m + Last(n - m, m, i)
  }

  lemma {:induction false} LastRem(n: nat, m: nat, i: nat)
    requires i < m && i < n
    ensures Rem(Last(n, m, i), m) == i
    decreases n
  {
    if n > i + m {
      LastRem(n - m, m, i);
    }
  }

  /** Last is the only number with its remainder within m of n. */
  lemma {:induction false} LastUnique(n: nat, m: nat, c: nat)
    requires 0 < m && n - m <= c < n
    ensures c == Last(n, m, Rem(c, m))
  {
    RemAtMost(c, m);
    LastRem(n, m, Rem(c, m));
    RemUnique(c, Last(n, m, Rem(c, m)), m);
  }

  lemma {:induction false} RemAtMost(c: nat, m: nat)
    requires 0 < m
    ensures Rem(c, m) <= c
    decreases c
  {
    if c >= m {
      RemAtMost(c - m, m);
    }
  }

  lemma {:induction false} LastStep(n: nat, m: nat, i: nat)
    requires i < m
    ensures Last(n + 1, m, i) == if i == Rem(n, m) then n else Last(n, m, i)
  {
    var last := Last(n + 1, m, i);
    if i == Rem(n, m) {
      LastUnique(n + 1, m, n);
    } else if 0 <= last {
      LastRem(n + 1, m, i);
      LastUnique(n, m, last);
    }
  }
}
