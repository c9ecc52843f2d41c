/** Single bits of an unsigned word, counted from the least significant one. */
module Bits {

  function Pow2(i: nat): (p: nat)
    ensures 0 < p
  {
    if i == 0 then 1 else 2 * Pow2(i - 1)
  }

  predicate Bit(x: nat, i: nat) {
    if i == 0 then x % 2 == 1 else Bit(x / 2, i - 1)
  }

  /** x | 1 << i. */
  function SetBit(x: nat, i: nat): nat {
    if Bit(x, i) then x else x + Pow2(i)
  }

  lemma {:induction false} SetBitIsOr(x: nat, i: nat, j: nat)
    ensures Bit(SetBit(x, i), j) == (i == j || Bit(x, j))
  {
    if !Bit(x, i) && i > 0 {
      assert (x + 2 * Pow2(i - 1)) / 2 == x / 2 + Pow2(i - 1);
      if j > 0 {
        SetBitIsOr(x / 2, i - 1, j - 1);
      }
    }
  }

  lemma {:induction false} SetBitBound(x: nat, i: nat, width: nat)
    requires i < width && x < Pow2(width)
    ensures SetBit(x, i) < Pow2(width)
  {
    if !Bit(x, i) && i > 0 {
      assert (x + 2 * Pow2(i - 1)) / 2 == x / 2 + Pow2(i - 1);
      SetBitBound(x / 2, i - 1, width - 1);
    }
  }

  /** A number below 2^i has no bit i or above. */
  lemma {:induction false} NoHighBits(x: nat, i: nat, j: nat)
    requires x < Pow2(i) && i <= j
    ensures !Bit(x, j)
  {
    if i == 0 {
      if j > 0 {
        NoHighBits(0, 0, j - 1);
      }
    } else {
      NoHighBits(x / 2, i - 1, j - 1);
    }
  }

  lemma {:induction false} Pow2Add(i: nat, j: nat)
    ensures Pow2(i + j) == Pow2(i) * Pow2(j)
  {
    if i > 0 {
      Pow2Add(i - 1, j);
      assert Pow2(i + j) == 2 * Pow2(i - 1 + j);
    }
  }

  lemma {:induction false} WordSizes()
    ensures Pow2(32) == 0x1_0000_0000 && Pow2(64) == 0x1_0000_0000_0000_0000
  {
    assert Pow2(4) == 16;
    Pow2Add(4, 4);
    assert Pow2(8) == 0x100;
    Pow2Add(8, 8);
    assert Pow2(16) == 0x1_0000;
    Pow2Add(16, 16);
    Pow2Add(32, 32);
  }
}
