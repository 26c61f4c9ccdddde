/** Bitwise operations on natural numbers, and powers of two. */
module Bits {
  import opened Words

  function And(x: nat, y: nat): (r: nat)
    ensures r <= x && r <= y
    decreases x
  {
    if x == 0 then 0 else (if x % 2 == 1 && y % 2 == 1 then 1 else 0) + 2 * And(x / 2, y / 2)
  }

  function Or(x: nat, y: nat): nat {
    x + y - And(x, y)
  }

  function Pow2(k: nat): (r: nat)
    ensures 1 <= r
  {
    if k == 0 then 1 else 2 * Pow2(k - 1)
  }

  lemma {:induction false} Pow2Sum(x: nat, y: nat)
    ensures Pow2(x) * Pow2(y) == Pow2(x + y)
  {
    if x != 0 {
      Pow2Sum(x - 1, y);
      assert 2 * Pow2(x - 1) * Pow2(y) == 2 * (Pow2(x - 1) * Pow2(y));
    }
  }

  lemma Pow2Of32()
    ensures Pow2(32) == U32
  {
    assert Pow2(4) == 16;
    Pow2Sum(4, 4);
    Pow2Sum(8, 8);
    Pow2Sum(16, 16);
  }

  /** powerof2() of <sys/param.h>, which also holds of 0. */
  predicate PowerOf2(x: nat) {
    x == 0 || And(x - 1, x) == 0
  }

  lemma {:induction false} AndSelf(x: nat)
    ensures And(x, x) == x
  {
    if x != 0 {
      AndSelf(x / 2);
    }
  }

  lemma AndBelowEven(y: nat)
    requires 0 < y
    ensures And(2 * y - 1, 2 * y) == 2 * And(y - 1, y)
  {
    assert (2 * y - 1) / 2 == y - 1 && (2 * y) / 2 == y && (2 * y) % 2 == 0;
  }

  lemma AndBelowOdd(y: nat)
    ensures And(2 * y, 2 * y + 1) == 2 * y
  {
    assert (2 * y) / 2 == y && (2 * y + 1) / 2 == y && (2 * y) % 2 == 0;
    AndSelf(y);
  }

  lemma {:induction false} PowerOf2IsPow2(x: nat) returns (k: nat)
    requires 0 < x && PowerOf2(x)
    ensures x == Pow2(k)
  {
    var y := x / 2;
    if x == 2 * y + 1 {
      AndBelowOdd(y);
      k := 0;
    } else {
      AndBelowEven(y);
      k := PowerOf2IsPow2(y);
      k := k + 1;
    }
  }

  lemma {:induction false} Pow2IsPowerOf2(k: nat)
    ensures PowerOf2(Pow2(k))
  {
    if k == 0 {
      AndBelowOdd(0);
    } else {
      Pow2IsPowerOf2(k - 1);
      AndBelowEven(Pow2(k - 1));
    }
  }

  /** The mask test picks out exactly the powers of two, and 0. */
  lemma PowerOf2Exactly(x: nat)
    ensures PowerOf2(x) <==> x == 0 || exists k :: x == Pow2(k)
  {
    if 0 < x && PowerOf2(x) {
      var k := PowerOf2IsPow2(x);
    }
    if k :| x == Pow2(k) {
      Pow2IsPowerOf2(k);
    }
  }

  lemma {:induction false} AndZero(x: nat)
    ensures And(x, 0) == 0
  {
  }

  lemma AndEven(x: nat, y: nat)
    ensures And(x, 2 * y) == 2 * And(x / 2, y)
  {
    assert (2 * y) % 2 == 0 && (2 * y) / 2 == y;
  }

  lemma AndOdd(x: nat, y: nat)
    ensures And(x, 2 * y + 1) == x % 2 + 2 * And(x / 2, y)
  {
    assert (2 * y + 1) % 2 == 1 && (2 * y + 1) / 2 == y;
  }

  lemma Halves(x: nat)
    ensures x / 2 / 2 == x / 4 && x / 4 / 2 == x / 8 && x / 8 / 2 == x / 16 && x / 16 / 2 == x / 32
  {
  }

  /** A mask of ones leaves the low bits ... */
  lemma LowBit(x: nat)
    ensures And(x, 0x01) == x % 0x02
  {
    AndZero(x / 2);
    AndOdd(x, 0x00);
    hide And;
  }

  lemma LowTwoBits(x: nat)
    ensures And(x, 0x03) == x % 0x04
  {
    hide And;
    AndOdd(x, 0x01);
    LowBit(x / 2);
  }

  lemma LowThreeBits(x: nat)
    ensures And(x, 0x07) == x % 0x08
  {
    hide And;
    AndOdd(x, 0x03);
    LowTwoBits(x / 2);
  }

  lemma LowFourBits(x: nat)
    ensures And(x, 0x0f) == x % 0x10
  {
    hide And;
    AndOdd(x, 0x07);
    LowThreeBits(x / 2);
  }

  lemma LowFiveBits(x: nat)
    ensures And(x, 0x1f) == x % 0x20
  {
    hide And;
    AndOdd(x, 0x0f);
    LowFourBits(x / 2);
  }

  /** ... and one shifted to the left leaves those of the number shifted to the right. */
  lemma ShiftedByThree(x: nat, y: nat)
    ensures And(x, 0x08 * y) == 0x08 * And(x / 0x08, y)
  {
    hide And;
    Halves(x);
    AndEven(x, 4 * y);
    AndEven(x / 2, 2 * y);
    AndEven(x / 4, y);
  }

  lemma ShiftedByFour(x: nat, y: nat)
    ensures And(x, 0x10 * y) == 0x10 * And(x / 0x10, y)
  {
    hide And;
    Halves(x);
    ShiftedByThree(x, 2 * y);
    AndEven(x / 8, y);
  }

  lemma ShiftedByFive(x: nat, y: nat)
    ensures And(x, 0x20 * y) == 0x20 * And(x / 0x20, y)
  {
    hide And;
    Halves(x);
    ShiftedByFour(x, 2 * y);
    AndEven(x / 16, y);
  }
}
