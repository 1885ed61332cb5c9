/** The count of equal low bytes without a count-trailing-zeros instruction: mask, multiply
    and shift, on 64-bit words. */
module Lz4BitCount {
  import opened Lz4Words

  const M := 0x0101_0101_0101_0101

  function And(a: nat, b: nat): (r: nat)
    decreases a + b
  {
    if a == 0 || b == 0 then 0
    else (if a % 2 == 1 && b % 2 == 1 then 1 else 0) + 2 * And(a / 2, b / 2)
  }

  /** `val ^= val - 1`, then `((val & (m - 1)) * m) >> 56` with the product's wrap-around. */
  function SoftwareCount(val: nat): (r: nat)
    requires val > 0
  {
    TopByte(And(Xor(val, val - 1), M - 1) * M)
  }

  /** The first step sets the lowest set bit and all below it, and nothing else. */
  lemma {:induction false} XorPredecessor(v: nat)
    requires v > 0
    ensures Xor(v, v - 1) == Pow2(TrailingZeros(v) + 1) - 1
  {
    if v % 2 == 1 {
      XorBit(v / 2, v / 2, 1, 0);
      XorSelf(v / 2);
      assert Pow2(1) == 2 * Pow2(0);
    } else {
      XorPredecessor(v / 2);
      XorBit(v / 2, v / 2 - 1, 0, 1);
    }
  }

  lemma AndOddMask(p: nat, a: nat, bit: nat)
    requires p > 0 && bit < 2
    ensures And(2 * p - 1, 2 * a + bit) == bit + 2 * And(p - 1, a)
  {
    assert (2 * p - 1) / 2 == p - 1 && (2 * p - 1) % 2 == 1;
    assert (2 * a + bit) / 2 == a && (2 * a + bit) % 2 == bit;
  }

  /** A mask of k ones leaves the low k bits. */
  lemma {:induction false} AndMask(k: nat, c: nat, low: nat)
    requires low < Pow2(k)
    ensures And(Pow2(k) - 1, Pow2(k) * c + low) == low
  {
    if k > 0 {
      var p := Pow2(k - 1);
      AndMask(k - 1, c, low / 2);
      MulDouble(p, c);
      AndOddMask(p, p * c + low / 2, low % 2);
    }
  }

  /** The bytes 1 to q of M. */
  function LowOnes(q: nat): (r: nat) { if q == 0 then 0 else LowOnes(q - 1) + Pow2(8 * q) }

  /** The trailing zeros of a 64-bit word, in bytes and bits. */
  lemma {:induction false} TrailingZerosBound(v: nat, k: nat)
    requires 0 < v < Pow2(k)
    ensures TrailingZeros(v) < k
  {
    if v % 2 == 0 {
      TrailingZerosBound(v / 2, k - 1);
    }
  }

  lemma {:induction false} LowOnesSmall(q: nat)
    ensures LowOnes(q) < 2 * Pow2(8 * q)
  {
    if q > 0 {
      LowOnesSmall(q - 1);
      Pow2Add(8, 8 * (q - 1));
      assert Pow2(8) == 256 by { Pow2Add(4, 4); Pow2Add(2, 2); }
    }
  }

  lemma {:induction false} LowOnesSplit(j: nat, q: nat, k: nat) returns (c: nat)
    requires q <= j && 8 * q < k <= 8 * q + 8
    ensures LowOnes(j) == Pow2(k) * c + LowOnes(q)
    decreases j
  {
    if q == j {
      c := 0;
    } else {
      var d := LowOnesSplit(j - 1, q, k);
      var e := Pow2(8 * j - k);
      Pow2Add(k, 8 * j - k);
      c := d + e;
      assert Pow2(k) * (d + e) == Pow2(k) * d + Pow2(k) * e;
    }
  }

  lemma LowOnesValues()
    ensures LowOnes(0) == 0 && LowOnes(1) == 0x100 && LowOnes(2) == 0x1_0100 && LowOnes(3) == 0x101_0100
    ensures LowOnes(4) == 0x1_0101_0100 && LowOnes(5) == 0x101_0101_0100
    ensures LowOnes(6) == 0x1_0101_0101_0100 && LowOnes(7) == M - 1
  {
    assert Pow2(8) == 256 by { Pow2Add(4, 4); Pow2Add(2, 2); }
    Pow2Add(8, 8);
    Pow2Add(8, 16);
    Pow2Add(8, 24);
    Pow2Add(8, 32);
    Pow2Add(8, 40);
    Pow2Add(8, 48);
  }

  function TopByte(x: nat): (r: nat) { x % 0x1_0000_0000_0000_0000 / 0x100_0000_0000_0000 }

  /** The multiplication adds the ones up in the top byte. */
  lemma OnesAddUp(q: nat)
    requires q < 8
    ensures TopByte(LowOnes(q) * M) == q
  {
    LowOnesValues();
    if q == 0 { assert LowOnes(q) * M == 0;
    } else if q == 1 { assert LowOnes(q) * M == 0x1_0101_0101_0101_0100;
    } else if q == 2 { assert LowOnes(q) * M == 0x102_0202_0202_0202_0100;
    } else if q == 3 { assert LowOnes(q) * M == 0x1_0203_0303_0303_0302_0100;
    } else if q == 4 { assert LowOnes(q) * M == 0x102_0304_0404_0404_0302_0100;
    } else if q == 5 { assert LowOnes(q) * M == 0x1_0203_0405_0505_0504_0302_0100;
    } else if q == 6 { assert LowOnes(q) * M == 0x102_0304_0506_0606_0504_0302_0100;
    } else { assert LowOnes(q) * M == 0x1_0203_0405_0607_0706_0504_0302_0100;
    }
  }

  lemma Pow2Of64()
    ensures Pow2(64) == 0x1_0000_0000_0000_0000
  {
    assert Pow2(8) == 256 by { Pow2Add(4, 4); Pow2Add(2, 2); }
    assert Pow2(16) == 65536 by { Pow2Add(8, 8); }
    assert Pow2(32) == 0x1_0000_0000 by { Pow2Add(16, 16); }
    Pow2Add(32, 32);
  }

  /** What the mask leaves of the set bits. */
  lemma MaskedOnes(t: nat, j: nat, b: nat)
    requires t / 8 <= j && b == LowOnes(j)
    ensures And(Pow2(t + 1) - 1, b) == LowOnes(t / 8)
  {
    var q, k := t / 8, t + 1;
    var c := LowOnesSplit(j, q, k);
    assert LowOnes(q) < Pow2(k) by {
      LowOnesSmall(q);
      Pow2Grows(8 * q + 1, k - (8 * q + 1));
    }
    AndMask(k, c, LowOnes(q));
  }

  /** For every 64-bit word the two ways of counting agree. */
  lemma SoftwareCountAgrees(val: nat)
    requires 0 < val < 0x1_0000_0000_0000_0000
    ensures SoftwareCount(val) == NbCommonBytes(val)
  {
    var t := TrailingZeros(val);
    assert t < 64 by {
      Pow2Of64();
      TrailingZerosBound(val, 64);
    }
    XorPredecessor(val);
    LowOnesValues();
    MaskedOnes(t, 7, M - 1);
    OnesAddUp(t / 8);
  }
}
