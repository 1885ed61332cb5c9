/** Word-wise comparison of input bytes on a little-endian 64-bit machine: reading words,
    counting equal low bytes of a difference, and the match length counter built on both. */
module Lz4Words {
  import opened Bytes
  import opened Lz4Format

  // ----- Words --------------------------------------------------------------

  function LittleEndian(s: seq<byte>): (r: nat) {
    if s == [] then 0 else s[0] + 256 * LittleEndian(s[1..])
  }

  function ReadWord(src: seq<byte>, p: nat, width: nat): (r: nat)
    requires p + width <= |src|
  { LittleEndian(src[p..p + width]) }

  lemma {:induction false} LittleEndianInjective(a: seq<byte>, b: seq<byte>)
    requires |a| == |b|
    ensures LittleEndian(a) == LittleEndian(b) <==> a == b
  {
    if a != [] {
      LittleEndianInjective(a[1..], b[1..]);
      assert a == [a[0]] + a[1..] && b == [b[0]] + b[1..];
    }
  }

  // ----- Bits ---------------------------------------------------------------

  function Pow2(k: nat): (r: nat)
    ensures r >= 1
  { if k == 0 then 1 else 2 * Pow2(k - 1) }

  lemma {:induction false} Pow2Add(j: nat, k: nat)
    ensures Pow2(j + k) == Pow2(j) * Pow2(k)
  {
    if j > 0 {
      Pow2Add(j - 1, k);
      assert 2 * (Pow2(j - 1) * Pow2(k)) == (2 * Pow2(j - 1)) * Pow2(k);
    }
  }

  lemma {:induction false} Pow2Grows(j: nat, k: nat)
    ensures Pow2(j + k) >= Pow2(j)
  {
    if k > 0 {
      Pow2Grows(j, k - 1);
    }
  }

  function Xor(a: nat, b: nat): (r: nat)
    decreases a + b
  {
    if a == 0 && b == 0 then 0
    else (if a % 2 != b % 2 then 1 else 0) + 2 * Xor(a / 2, b / 2)
  }

  /** The count-trailing-zeros instruction. */
  function TrailingZeros(v: nat): (r: nat)
    requires v > 0
  {
    if v % 2 == 1 then 0 else 1 + TrailingZeros(v / 2)
  }

  lemma XorBit(a: nat, b: nat, c: nat, d: nat)
    requires c < 2 && d < 2
    ensures Xor(2 * a + c, 2 * b + d) == 2 * Xor(a, b) + if c == d then 0 else 1
  {
    assert (2 * a + c) / 2 == a && (2 * b + d) / 2 == b;
    assert (2 * a + c) % 2 == c && (2 * b + d) % 2 == d;
  }

  /** `u` is `a` shifted left by k bits, with `x` in the free low bits. */
  predicate Shifted(u: nat, k: nat, x: nat, a: nat) {
    x < Pow2(k) && u == x + Pow2(k) * a
  }

  lemma MulDouble(p: nat, a: nat)
    ensures (2 * p) * a == 2 * (p * a)
  {
  }

  lemma ShiftedHalf(u: nat, k: nat, x: nat, a: nat)
    requires Shifted(u, k, x, a) && k > 0
    ensures Shifted(u / 2, k - 1, x / 2, a) && u % 2 == x % 2
  {
    MulDouble(Pow2(k - 1), a);
  }

  /** Equal low parts cancel. */
  lemma {:induction false} XorEqualLow(u: nat, v: nat, k: nat, x: nat, a: nat, b: nat)
    requires Shifted(u, k, x, a) && Shifted(v, k, x, b)
    ensures Xor(u, v) == Pow2(k) * Xor(a, b)
  {
    if k > 0 {
      ShiftedHalf(u, k, x, a);
      ShiftedHalf(v, k, x, b);
      XorEqualLow(u / 2, v / 2, k - 1, x / 2, a, b);
      assert Xor(u, v) == 2 * Xor(u / 2, v / 2) by { XorBit(u / 2, v / 2, u % 2, v % 2); }
      MulDouble(Pow2(k - 1), Xor(a, b));
    } else {
      assert u == a && v == b;
    }
  }

  /** Different low parts leave a bit set among them. */
  lemma {:induction false} XorDifferentLow(u: nat, v: nat, k: nat, x: nat, y: nat, a: nat, b: nat)
    requires Shifted(u, k, x, a) && Shifted(v, k, y, b) && x != y
    ensures Xor(u, v) > 0 && TrailingZeros(Xor(u, v)) < k
  {
    ShiftedHalf(u, k, x, a);
    ShiftedHalf(v, k, y, b);
    XorBit(u / 2, v / 2, u % 2, v % 2);
    if x % 2 == y % 2 {
      XorDifferentLow(u / 2, v / 2, k - 1, x / 2, y / 2, a, b);
    }
  }

  lemma {:induction false} TrailingZerosShift(k: nat, v: nat)
    requires v > 0
    ensures Pow2(k) * v > 0 && TrailingZeros(Pow2(k) * v) == k + TrailingZeros(v)
  {
    if k > 0 {
      TrailingZerosShift(k - 1, v);
      MulDouble(Pow2(k - 1), v);
    }
  }

  // ----- Equal low bytes ----------------------------------------------------

  /** How many leading bytes two strings share. */
  function CommonPrefix(a: seq<byte>, b: seq<byte>): (r: nat)
    requires |a| == |b|
    ensures r <= |a| && a[..r] == b[..r]
    ensures r < |a| ==> a[r] != b[r]
  {
    if a == [] || a[0] != b[0] then 0
    else
      var r := 1 + CommonPrefix(a[1..], b[1..]);
      assert a[..r] == [a[0]] + a[1..][..r - 1] && b[..r] == [b[0]] + b[1..][..r - 1];
      r
  }

  function NbCommonBytes(diff: nat): (r: nat)
    requires diff > 0
  { TrailingZeros(diff) / 8 }

  /** The lowest set bit of the difference of two words lies in the first byte in which
      they differ. */
  lemma {:induction false} NbCommonBytesIsPrefix(a: seq<byte>, b: seq<byte>)
    requires |a| == |b| && a != b
    ensures Xor(LittleEndian(a), LittleEndian(b)) > 0
    ensures NbCommonBytes(Xor(LittleEndian(a), LittleEndian(b))) == CommonPrefix(a, b)
  {
    var x, y := LittleEndian(a[1..]), LittleEndian(b[1..]);
    assert Pow2(8) == 256 by { Pow2Add(4, 4); Pow2Add(2, 2); }
    if a[0] == b[0] {
      assert a == [a[0]] + a[1..] && b == [b[0]] + b[1..];
      NbCommonBytesIsPrefix(a[1..], b[1..]);
      XorEqualLow(LittleEndian(a), LittleEndian(b), 8, a[0], x, y);
      TrailingZerosShift(8, Xor(x, y));
    } else {
      XorDifferentLow(LittleEndian(a), LittleEndian(b), 8, a[0], b[0], x, y);
    }
  }

  lemma {:induction false} XorSelf(a: nat)
    ensures Xor(a, a) == 0
  {
    if a > 0 {
      XorSelf(a / 2);
    }
  }

  /** The difference of two words is 0 exactly when their bytes agree; otherwise it tells
      how many of them do. */
  lemma WordDifference(a: seq<byte>, b: seq<byte>)
    requires |a| == |b|
    ensures var diff := Xor(LittleEndian(a), LittleEndian(b));
            if a == b then diff == 0 else diff > 0 && NbCommonBytes(diff) == CommonPrefix(a, b)
  {
    if a == b {
      XorSelf(LittleEndian(a));
    } else {
      NbCommonBytesIsPrefix(a, b);
    }
  }

  // ----- LZ4_count ----------------------------------------------------------

  /** From p on, every byte repeats the one `offset` places back up to e, where the
      agreement breaks or the limit is reached. */
  predicate Longest(src: seq<byte>, p: nat, e: nat, offset: nat, limit: nat) {
    Periodic(src, p, e, offset) && e <= limit <= |src| && (e < limit ==> src[e] != src[e - offset])
  }

  lemma PeriodicIffWords(src: seq<byte>, p: nat, q: nat, offset: nat)
    requires offset <= p <= q <= |src|
    ensures ReadWord(src, p, q - p) == ReadWord(src, p - offset, q - p) <==> Periodic(src, p, q, offset)
  {
    var a, b := src[p..q], src[p - offset..q - offset];
    LittleEndianInjective(a, b);
    if a == b {
      forall k | p <= k < q
        ensures src[k] == src[k - offset]
      {
        assert a[k - p] == b[k - p];
      }
    }
  }

  /** One step of the word loop. */
  lemma WordStep(src: seq<byte>, p: nat, offset: nat)
    requires offset <= p && p + 8 <= |src|
    ensures var diff := Xor(ReadWord(src, p - offset, 8), ReadWord(src, p, 8));
            if diff == 0 then Periodic(src, p, p + 8, offset)
            else NbCommonBytes(diff) < 8 && Longest(src, p, p + NbCommonBytes(diff), offset, p + 8)
  {
    var a, b := src[p - offset..p - offset + 8], src[p..p + 8];
    WordDifference(a, b);
    if a == b {
      PeriodicIffWords(src, p, p + 8, offset);
    } else {
      var c := CommonPrefix(a, b);
      assert c < 8 && a[c] != b[c];
      forall k | p <= k < p + c
        ensures src[k] == src[k - offset]
      {
        assert a[..c][k - p] == b[..c][k - p];
      }
    }
  }

  /** Steps over one more word if there is room for it and it agrees. */
  method TryWord(src: seq<byte>, p: nat, width: nat, offset: nat, limit: nat) returns (q: nat)
    requires offset <= p <= limit <= |src| && width > 0
    ensures p <= q <= limit && Periodic(src, p, q, offset)
    ensures q == p + width || (q == p && (p + width <= limit ==> !Periodic(src, p, p + width, offset)))
  {
    q := p;
    if p + width <= limit {
      PeriodicIffWords(src, p, p + width, offset);
      if ReadWord(src, p - offset, width) == ReadWord(src, p, width) { q := p + width; }
    }
  }

  /** Words of 4, 2 and 1 bytes for what is left after the word loop. */
  method CountTail(src: seq<byte>, p: nat, offset: nat, limit: nat) returns (e: nat)
    requires offset <= p <= limit <= |src| && limit < p + 8
    ensures Longest(src, p, e, offset, limit)
  {
    e := TryWord(src, p, 4, offset, limit);
    assert e + 4 <= limit ==> !Periodic(src, e, e + 4, offset);
    e := TryWord(src, e, 2, offset, limit);
    if e < limit && src[e - offset] == src[e] { e := e + 1; }
  }

  /** How far the bytes at `start` agree with those `offset` places back, eight at a time. */
  method Count(src: seq<byte>, start: nat, offset: nat, limit: nat) returns (c: nat)
    requires offset <= start <= limit <= |src|
    ensures Longest(src, start, start + c, offset, limit)
  {
    var p := start;
    while p + 8 <= limit
      invariant start <= p <= limit && Periodic(src, start, p, offset)
    {
      var diff := Xor(ReadWord(src, p - offset, 8), ReadWord(src, p, 8));
      WordStep(src, p, offset);
      if diff != 0 { return p + NbCommonBytes(diff) - start; }
      p := p + 8;
    }
    var e := CountTail(src, p, offset, limit);
    c := e - start;
  }
}
