/** Copies in whole chunks that overshoot the requested end: of literals from the input,
    and of matches inside the output, where they must still equal the one-byte-at-a-time
    copy. */
module Lz4Copies {
  import opened Bytes
  import opened Lz4Format

  // ----- From the input -----------------------------------------------------

  /** Literals in stripes of `stripe` bytes, overshooting the end by at most a stripe. */
  method CopyStripes(dst: array<byte>, op: nat, src: seq<byte>, ip: nat, cpy: nat, stripe: nat)
    requires stripe >= 1 && op <= cpy
    requires op + stripe <= dst.Length && cpy + stripe - 1 <= dst.Length
    requires ip + stripe <= |src| && ip + (cpy - op) + stripe - 1 <= |src|
    modifies dst
    ensures dst[..cpy] == old(dst[..op]) + src[ip..ip + (cpy - op)]
    ensures forall k :: cpy + stripe <= k < dst.Length ==> dst[k] == old(dst[k])
  {
    var d := op;
    var first := true;
    while first || d < cpy
      invariant op <= d <= dst.Length && (first ==> d == op)
      invariant !first ==> d < cpy + stripe || d == op + stripe
      invariant ip + (d - op) <= |src|
      invariant forall k :: op <= k < d ==> dst[k] == src[ip + (k - op)]
      invariant dst[..op] == old(dst[..op])
      invariant forall k :: cpy + stripe <= k < dst.Length ==> dst[k] == old(dst[k])
      decreases first, cpy - d
    {
      forall k | d <= k < d + stripe {
        dst[k] := src[ip + (k - op)];
      }
      d := d + stripe;
      first := false;
    }
    assert dst[..cpy] == dst[..op] + dst[op..cpy];
    assert dst[op..cpy] == src[ip..ip + (cpy - op)];
  }

  /** One stripe of 16 bytes for at most 16 literals. */
  method CopyOneStripe(dst: array<byte>, op: nat, src: seq<byte>, ip: nat, length: nat)
    requires length <= 16 && op + 16 <= dst.Length && ip + 16 <= |src|
    modifies dst
    ensures dst[..op + length] == old(dst[..op]) + src[ip..ip + length]
  {
    forall k | op <= k < op + 16 {
      dst[k] := src[ip + (k - op)];
    }
  }

  // ----- Within the output --------------------------------------------------

  /** memcpy of n bytes within the output. */
  method Move(dst: array<byte>, d: nat, s: nat, n: nat)
    requires d + n <= dst.Length && s + n <= dst.Length
    modifies dst
    ensures forall k :: 0 <= k < dst.Length ==>
              dst[k] == if d <= k < d + n then old(dst[k - d + s]) else old(dst[k])
  {
    forall k | d <= k < d + n {
      dst[k] := dst[k - d + s];
    }
  }

  /** Eight bytes at a time from s to d until e is passed. The bytes written repeat those
      d - s places back; nothing else changes. */
  method WildCopy8(dst: array<byte>, d: nat, s: nat, e: nat) returns (end: nat)
    requires s + 8 <= d && d + 8 <= dst.Length && e + 7 <= dst.Length
    modifies dst
    ensures d + 8 <= end <= dst.Length && e <= end && (end <= e + 7 || end == d + 8)
    ensures Periodic(dst[..], d, end, d - s)
    ensures forall k :: 0 <= k < d || end <= k < dst.Length ==> dst[k] == old(dst[k])
  {
    Move(dst, d, s, 8);
    end := d + 8;
    while end < e
      invariant d + 8 <= end <= dst.Length && (end <= e + 7 || end == d + 8)
      invariant Periodic(dst[..], d, end, d - s)
      invariant forall k :: 0 <= k < d || end <= k < dst.Length ==> dst[k] == old(dst[k])
    {
      Move(dst, end, end - (d - s), 8);
      end := end + 8;
    }
  }

  /** Two times sixteen bytes at a time, for offsets of 16 and more. */
  method WildCopy32(dst: array<byte>, d: nat, s: nat, e: nat) returns (end: nat)
    requires s + 16 <= d && d + 32 <= dst.Length && e + 31 <= dst.Length
    modifies dst
    ensures d <= end <= dst.Length && e <= end && (end <= e + 31 || end == d + 32)
    ensures Periodic(dst[..], d, end, d - s)
    ensures forall k :: 0 <= k < d || end <= k < dst.Length ==> dst[k] == old(dst[k])
  {
    end := d;
    var first := true;
    while first || end < e
      invariant d <= end <= dst.Length && (first ==> end == d)
      invariant !first ==> end <= e + 31 || end == d + 32
      invariant Periodic(dst[..], d, end, d - s)
      invariant forall k :: 0 <= k < d || end <= k < dst.Length ==> dst[k] == old(dst[k])
      decreases first, e - end
    {
      Move(dst, end, end - (d - s), 16);
      Move(dst, end + 16, end + 16 - (d - s), 16);
      end := end + 32;
      first := false;
    }
  }

  const INC32: seq<int> := [0, 1, 2, 1, 0, 4, 4, 4]
  const DEC64: seq<int> := [0, 0, 0, -1, -4, 1, 2, 3]

  /** How far behind the output the source is after the start of an overlapping copy. */
  function StartDistance(offset: nat): (r: int)
    requires offset < 8
  { 8 + offset - INC32[offset] + DEC64[offset] }

  function StartMultiple(offset: nat): (m: nat)
    requires 1 <= offset < 8
    ensures StartDistance(offset) == m * offset
  { [0, 8, 4, 3, 2, 2, 2, 2][offset] }

  /** For every short offset the start leaves a distance that is a multiple of the offset,
      long enough for chunks of 8, and not before the first byte of the match. */
  lemma StartDistances(offset: nat)
    requires offset < 8
    ensures 8 <= StartDistance(offset) <= 8 + offset
    ensures offset > 0 ==> StartDistance(offset) % offset == 0
    ensures 0 <= offset + 4 - INC32[offset] && (offset > 0 ==> (offset + 4 - INC32[offset]) % offset == 0)
  {
    assert offset in {0, 1, 2, 3, 4, 5, 6, 7};
  }

  /** Four bytes, one at a time, after clearing them. */
  method FirstFour(dst: array<byte>, op: nat, offset: nat)
    requires offset <= op && op + 4 <= dst.Length
    modifies dst
    ensures offset >= 1 ==> Periodic(dst[..], op, op + 4, offset)
    ensures forall k :: 0 <= k < op || op + 4 <= k < dst.Length ==> dst[k] == old(dst[k])
  {
    dst[op], dst[op + 1], dst[op + 2], dst[op + 3] := 0, 0, 0, 0;
    var m := op - offset;
    dst[op] := dst[m];
    dst[op + 1] := dst[m + 1];
    dst[op + 2] := dst[m + 2];
    dst[op + 3] := dst[m + 3];
  }

  /** The next four, `distance` back: a multiple of the offset. */
  method NextFour(dst: array<byte>, op: nat, offset: nat, distance: nat, ghost m: nat)
    requires distance <= offset + 4 && offset <= op && op + 8 <= dst.Length
    requires offset >= 1 ==> Periodic(dst[..], op, op + 4, offset) && m >= 1 && distance == m * offset >= 4
    modifies dst
    ensures offset >= 1 ==> Periodic(dst[..], op, op + 8, offset)
    ensures forall k :: 0 <= k < op || op + 8 <= k < dst.Length ==> dst[k] == old(dst[k])
  {
    ghost var before := dst[..];
    Move(dst, op + 4, op + 4 - distance, 4);
    if offset >= 1 {
      assert Periodic(dst[..], op, op + 4, offset) by {
        assert forall k :: 0 <= k < op + 4 ==> dst[k] == before[k];
      }
      ChunkContinuesPeriod(dst[..], op, op + 4, op + 8, offset, m);
    }
  }

  /** The first eight bytes of a match copy. The source is left a multiple m of the offset
      behind the output, at least 8 bytes and at most to the start of the match. */
  method MatchStart(dst: array<byte>, op: nat, offset: nat) returns (match0: nat, ghost m: nat)
    requires offset <= op && op + 8 <= dst.Length
    modifies dst
    ensures match0 <= op
    ensures offset >= 1 ==> && Periodic(dst[..], op, op + 8, offset)
                            && m >= 1 && m * offset == op + 8 - match0 <= 8 + offset
    ensures forall k :: 0 <= k < op || op + 8 <= k < dst.Length ==> dst[k] == old(dst[k])
  {
    m := 1;
    if offset < 8 {
      StartDistances(offset);
      FirstFour(dst, op, offset);
      ghost var n := [0, 4, 2, 2, 2, 1, 1, 1][offset];
      NextFour(dst, op, offset, offset + 4 - INC32[offset], n);
      match0 := op - offset + INC32[offset] - DEC64[offset];
      if offset >= 1 { m := StartMultiple(offset); }
    } else {
      Move(dst, op, op - offset, 8);
      match0 := op - offset + 8;
    }
  }

  /** LZ4_memcpy_using_offset_base. */
  method CopyUsingOffsetBase(dst: array<byte>, op: nat, cpy: nat, offset: nat)
    requires offset <= op && op + 4 <= cpy && cpy + 15 <= dst.Length
    modifies dst
    ensures offset >= 1 ==> Periodic(dst[..], op, cpy, offset)
    ensures dst[..op] == old(dst[..op])
  {
    var match0, m := MatchStart(dst, op, offset);
    ghost var started := dst[..];
    var end := WildCopy8(dst, op + 8, match0, cpy);
    if offset >= 1 {
      ContinueStart(started, dst[..], op, end, offset, m);
    }
  }

  /** Whatever was copied after a start of eight bytes continues its period. */
  lemma ContinueStart(started: seq<byte>, r: seq<byte>, op: nat, end: nat, offset: nat, m: nat)
    requires offset >= 1 && m >= 1 && |r| == |started| && op + 8 <= end <= |r|
    requires Periodic(started, op, op + 8, offset)
    requires forall k :: 0 <= k < op + 8 ==> r[k] == started[k]
    requires m * offset <= 8 + offset && Periodic(r, op + 8, end, m * offset)
    ensures Periodic(r, op, end, offset)
  {
    ChunkContinuesPeriod(r, op, op + 8, end, offset, m);
  }

  /** LZ4_memcpy_using_offset: offsets 1, 2 and 4 lay down a repeated pattern of 8 bytes. */
  method CopyUsingOffset(dst: array<byte>, op: nat, cpy: nat, offset: nat)
    requires offset <= op && op + 4 <= cpy && cpy + 15 <= dst.Length
    modifies dst
    ensures offset >= 1 ==> Periodic(dst[..], op, cpy, offset)
    ensures dst[..op] == old(dst[..op])
  {
    if offset == 1 || offset == 2 || offset == 4 {
      var s := dst[op - offset..op];
      var v := if offset == 1 then [s[0], s[0], s[0], s[0], s[0], s[0], s[0], s[0]]
               else if offset == 2 then s + s + (s + s)
               else s + s;
      CopyPattern(dst, op, cpy, v, offset, 8 / offset);
    } else {
      CopyUsingOffsetBase(dst, op, cpy, offset);
    }
  }

  /** The pattern v over and over again. */
  method CopyPattern(dst: array<byte>, op: nat, cpy: nat, v: seq<byte>, offset: nat, ghost m: nat)
    requires 1 <= offset <= 8 && offset <= op && op + 4 <= cpy && cpy + 15 <= dst.Length
    requires |v| == 8 == m * offset
    requires v[..offset] == dst[op - offset..op] && Periodic(v, offset, 8, offset)
    modifies dst
    ensures Periodic(dst[..], op, cpy, offset)
    ensures dst[..op] == old(dst[..op])
  {
    ghost var before := dst[..];
    StorePattern(dst, op, v);
    PatternStart(before, dst[..], op, v, offset);
    var d := op + 8;
    while d < cpy
      invariant op + 8 <= d < cpy + 8
      invariant dst[..op] == old(dst[..op])
      invariant dst[d - 8..d] == v
      invariant Periodic(dst[..], op, d, offset)
    {
      before := dst[..];
      StorePattern(dst, d, v);
      PatternStep(before, dst[..], op, d, v, offset, m);
      d := d + 8;
    }
  }

  lemma PatternStart(before: seq<byte>, r: seq<byte>, op: nat, v: seq<byte>, offset: nat)
    requires |v| == 8 && 1 <= offset <= op && op + 8 <= |r| == |before|
    requires offset <= 8 && v[..offset] == before[op - offset..op] && Periodic(v, offset, 8, offset)
    requires r[..op] == before[..op] && r[op..op + 8] == v
    ensures Periodic(r, op, op + 8, offset)
  {
    forall k | op <= k < op + 8
      ensures r[k] == r[k - offset]
    {
      assert r[k] == r[op..op + 8][k - op] == v[k - op];
      if k - op >= offset {
        assert r[k - offset] == r[op..op + 8][k - op - offset] == v[k - op - offset];
      } else {
        assert r[k - offset] == r[..op][k - offset] == before[..op][k - offset];
        assert v[..offset][k - op] == before[op - offset..op][k - op];
      }
    }
  }

  lemma PatternStep(before: seq<byte>, r: seq<byte>, op: nat, d: nat, v: seq<byte>, offset: nat, m: nat)
    requires |v| == 8 == m * offset && 1 <= offset <= op && op + 8 <= d && d + 8 <= |r| == |before|
    requires Periodic(before, op, d, offset) && before[d - 8..d] == v
    requires r[..d] == before[..d] && r[d..d + 8] == v
    ensures Periodic(r, op, d + 8, offset)
  {
    assert forall k :: 0 <= k < d ==> r[k] == r[..d][k] && before[k] == before[..d][k];
    forall k | d <= k < d + 8
      ensures r[k] == r[k - m * offset]
    {
      assert r[k] == r[d..d + 8][k - d] == v[k - d];
      assert r[k - 8] == before[k - 8] == before[d - 8..d][k - d];
    }
    ChunkContinuesPeriod(r, op, d, d + 8, offset, m);
  }

  method StorePattern(dst: array<byte>, d: nat, v: seq<byte>)
    requires |v| == 8 && d + 8 <= dst.Length
    modifies dst
    ensures forall k :: 0 <= k < dst.Length ==> dst[k] == if d <= k < d + 8 then v[k - d] else old(dst[k])
  {
    forall k | d <= k < d + 8 {
      dst[k] := v[k - d];
    }
  }

  /** Eighteen bytes from at least eight back, in chunks of 8, 8 and 2. */
  method Copy18(dst: array<byte>, op: nat, offset: nat)
    requires 8 <= offset <= op && op + 18 <= dst.Length
    modifies dst
    ensures Periodic(dst[..], op, op + 18, offset)
    ensures dst[..op] == old(dst[..op])
  {
    Move(dst, op, op - offset, 8);
    Move(dst, op + 8, op + 8 - offset, 8);
    Move(dst, op + 16, op + 16 - offset, 2);
  }

  /** The match copy of the fast loop. */
  method FastMatchCopy(dst: array<byte>, op: nat, cpy: nat, offset: nat)
    requires offset <= op && op + 4 <= cpy && cpy + 31 <= dst.Length
    modifies dst
    ensures offset >= 1 ==> Periodic(dst[..], op, cpy, offset)
    ensures dst[..op] == old(dst[..op])
  {
    if offset < 16 {
      CopyUsingOffset(dst, op, cpy, offset);
    } else {
      var end := WildCopy32(dst, op, op - offset, cpy);
    }
  }

  /** One byte at a time from s to d until e is reached. */
  method CopyBytes(dst: array<byte>, d: nat, s: nat, e: nat)
    requires s < d && d <= dst.Length && e <= dst.Length
    modifies dst
    ensures d <= e ==> Periodic(dst[..], d, e, d - s)
    ensures forall k :: 0 <= k < d || d <= e <= k < dst.Length ==> dst[k] == old(dst[k])
    ensures e < d ==> dst[..] == old(dst[..])
  {
    var op := d;
    while op < e
      invariant d <= op && (op <= e || op == d)
      invariant Periodic(dst[..], d, op, d - s)
      invariant forall k :: 0 <= k < d || op <= k < dst.Length ==> dst[k] == old(dst[k])
    {
      dst[op] := dst[op - (d - s)];
      op := op + 1;
    }
  }

  /** The end of a match that stops within 12 bytes of the end of the output: chunks
      while they fit, then single bytes. */
  method CopyNearEnd(dst: array<byte>, d: nat, s: nat, cpy: nat)
    requires s + 8 <= d <= dst.Length && 12 <= dst.Length && cpy + 5 <= dst.Length
    modifies dst
    ensures d <= cpy ==> Periodic(dst[..], d, cpy, d - s)
    ensures forall k :: 0 <= k < d ==> dst[k] == old(dst[k])
  {
    var oCopyLimit := dst.Length - 7;
    if d < oCopyLimit {
      var end := WildCopy8(dst, d, s, oCopyLimit);
      ghost var before := dst[..];
      CopyBytes(dst, oCopyLimit, oCopyLimit - (d - s), cpy);
      assert forall k :: 0 <= k < oCopyLimit ==> dst[k] == before[k];
      if oCopyLimit <= cpy {
        assert Periodic(dst[..], d, oCopyLimit, d - s);
        assert Periodic(dst[..], oCopyLimit, cpy, d - s);
      }
    } else {
      CopyBytes(dst, d, s, cpy);
    }
  }

  /** The match copy of the safe loop. It refuses a match that stops less than 5 bytes
      before the end of the output. */
  method SafeMatchCopy(dst: array<byte>, op: nat, length: nat, offset: nat) returns (ok: bool)
    requires offset <= op && op + 12 <= dst.Length && length >= 4
    modifies dst
    ensures ok <==> op + length + LAST_LITERALS <= dst.Length
    ensures ok && offset >= 1 ==> Periodic(dst[..], op, op + length, offset)
    ensures dst[..op] == old(dst[..op])
  {
    var cpy := op + length;
    var match0, m := MatchStart(dst, op, offset);
    ghost var started := dst[..];
    var d := op + 8;
    ghost var end := if cpy < d then d else cpy;
    if cpy > dst.Length - 12 {
      if cpy > dst.Length - LAST_LITERALS { return false; }
      CopyNearEnd(dst, d, match0, cpy);
    } else {
      FinishCopy(dst, d, match0, cpy, length > 16);
    }
    if offset >= 1 {
      ContinueStart(started, dst[..], op, end, offset, m);
    }
    ok := true;
  }

  /** Eight more bytes, and as many more chunks as a long match needs. */
  method FinishCopy(dst: array<byte>, d: nat, s: nat, cpy: nat, long: bool)
    requires s + 8 <= d && d + 8 <= dst.Length && cpy + 12 <= dst.Length
    requires long <==> cpy > d + 8
    modifies dst
    ensures d <= cpy ==> Periodic(dst[..], d, cpy, d - s)
    ensures forall k :: 0 <= k < d ==> dst[k] == old(dst[k])
  {
    Move(dst, d, s, 8);
    if long {
      assert Periodic(dst[..], d, d + 8, d - s);
      ghost var before := dst[..];
      var end := WildCopy8(dst, d + 8, s + 8, cpy);
      assert forall k :: 0 <= k < d + 8 ==> dst[k] == before[k];
    }
  }
}
