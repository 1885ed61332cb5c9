/** How the compressor lays a sequence out in its output: wild copies and 4-byte writes that
    overshoot, but never by more than the bytes still to be written. */
module Lz4Writer {
  import opened Bytes
  import opened Lz4Format
  import opened Lz4Copies

  /** A run of bytes 255. */
  function Full(k: nat): (r: seq<byte>)
    ensures |r| == k
  { seq(k, _ => 255) }

  lemma {:induction false} LengthBytesSplit(n: nat, k: nat)
    requires 255 * k <= n
    ensures LengthBytes(n) == Full(k) + LengthBytes(n - 255 * k)
  {
    if k > 0 {
      LengthBytesSplit(n - 255, k - 1);
      assert Full(k) == [255] + Full(k - 1);
    }
  }

  /** One byte at a time, as after a literal token. */
  method WriteLengthBytes(dst: array<byte>, op0: nat, len0: nat) returns (op: nat)
    requires op0 + |LengthBytes(len0)| <= dst.Length
    modifies dst
    ensures op == op0 + |LengthBytes(len0)|
    ensures dst[..op] == old(dst[..op0]) + LengthBytes(len0)
    ensures forall k :: op <= k < dst.Length ==> dst[k] == old(dst[k])
  {
    op := op0;
    var len := len0;
    while len >= 255
      invariant op0 <= op && op + |LengthBytes(len)| == op0 + |LengthBytes(len0)|
      invariant dst[..op] + LengthBytes(len) == old(dst[..op0]) + LengthBytes(len0)
      invariant forall k :: op <= k < dst.Length ==> dst[k] == old(dst[k])
      decreases len
    {
      ghost var before := dst[..op];
      dst[op] := 255;
      assert dst[..op + 1] == before + [255];
      op := op + 1;
      len := len - 255;
    }
    ghost var before := dst[..op];
    dst[op] := len;
    op := op + 1;
    assert dst[..op] == before + [len];
  }

  method Write32Full(dst: array<byte>, op: nat)
    requires op + 4 <= dst.Length
    modifies dst
    ensures dst[..op + 4] == old(dst[..op]) + Full(4)
    ensures forall k :: op + 4 <= k < dst.Length ==> dst[k] == old(dst[k])
  {
    dst[op], dst[op + 1], dst[op + 2], dst[op + 3] := 255, 255, 255, 255;
  }

  /** Blocks of four bytes 255, always one block ahead of the length. */
  method WriteFullBlocks(dst: array<byte>, op0: nat, code0: nat) returns (op: nat, code: nat, ghost done: nat)
    requires op0 + |LengthBytes(code0)| + 3 <= dst.Length
    modifies dst
    ensures op == op0 + done && code0 == code + 255 * done && code < 4 * 255 && op + 4 <= dst.Length
    ensures dst[..op + 4] == old(dst[..op0]) + Full(done + 4)
    ensures forall k :: op + 4 <= k < dst.Length ==> dst[k] == old(dst[k])
  {
    op, code, done := op0, code0, 0;
    Write32Full(dst, op);
    while code >= 4 * 255
      invariant op == op0 + done && code0 == code + 255 * done
      invariant op + 4 <= dst.Length && dst[..op + 4] == old(dst[..op0]) + Full(done + 4)
      invariant forall k :: op + 4 <= k < dst.Length ==> dst[k] == old(dst[k])
      decreases code
    {
      LengthBytesSplit(code0, done + 4);
      assert Full(done + 4) + Full(4) == Full(done + 8);
      op := op + 4;
      Write32Full(dst, op);
      code := code - 4 * 255;
      done := done + 4;
    }
  }

  /** Four bytes at a time, as after an offset: the same bytes, and up to three more that
      later output replaces. */
  method WriteLengthBlocks(dst: array<byte>, op0: nat, code0: nat) returns (op: nat)
    requires op0 + |LengthBytes(code0)| + 3 <= dst.Length
    modifies dst
    ensures op == op0 + |LengthBytes(code0)|
    ensures dst[..op] == old(dst[..op0]) + LengthBytes(code0)
    ensures forall k :: op + 3 <= k < dst.Length ==> dst[k] == old(dst[k])
  {
    ghost var before := dst[..op0];
    var start, code, done := WriteFullBlocks(dst, op0, code0);
    var q := code / 255;
    LengthBytesSplit(code0, done + q);
    op := start + q;
    assert dst[..op] == before + Full(done + q) by {
      assert dst[..op] == dst[..start + 4][..op];
    }
    ghost var full := dst[..op];
    dst[op] := code % 255;
    op := op + 1;
    assert dst[..op] == full + [code % 255];
  }

  // ----- Literals -----------------------------------------------------------

  /** Token and length of a literal run; the lower half of the token is left 0. */
  method WriteLiteralLength(dst: array<byte>, op0: nat, length: nat) returns (op: nat)
    requires op0 + 1 + |Extension(length)| <= dst.Length
    modifies dst
    ensures op == op0 + 1 + |Extension(length)|
    ensures dst[..op] == old(dst[..op0]) + ([Token(Nibble(length), 0)] + Extension(length))
    ensures forall k :: op <= k < dst.Length ==> dst[k] == old(dst[k])
  {
    ghost var before := dst[..op0];
    if length >= 15 {
      dst[op0] := 240;
      assert dst[..op0 + 1] == before + [240];
      op := WriteLengthBytes(dst, op0 + 1, length - 15);
    } else {
      dst[op0] := length * 16;
      op := op0 + 1;
      assert dst[..op] == before + [length * 16];
    }
  }

  /** The literals before a match. The wild copy writes at most 8 bytes too many. */
  method WriteLiterals(dst: array<byte>, op0: nat, src: seq<byte>, anchor: nat, ip: nat) returns (op: nat)
    requires anchor <= ip && ip + 8 <= |src|
    requires op0 + |EncodeLiterals(src[anchor..ip], 0)| + 8 <= dst.Length
    modifies dst
    ensures op == op0 + |EncodeLiterals(src[anchor..ip], 0)|
    ensures dst[..op0] == old(dst[..op0]) && dst[op0..op] == EncodeLiterals(src[anchor..ip], 0)
    ensures forall k :: op + 8 <= k < dst.Length ==> dst[k] == old(dst[k])
  {
    ghost var before, lits := dst[..op0], src[anchor..ip];
    op := WriteLiteralLength(dst, op0, |src[anchor..ip]|);
    ghost var header := dst[..op][op0..];
    assert dst[..op] == before + header;
    CopyStripes(dst, op, src, anchor, op + (ip - anchor), 8);
    op := op + (ip - anchor);
    Halves(dst[..op], before, header, lits);
    assert dst[op0..op] == dst[..op][op0..];
  }

  lemma Halves(all: seq<byte>, p: seq<byte>, a: seq<byte>, b: seq<byte>)
    requires all == p + a + b
    ensures all[..|p|] == p && all[|p|..] == a + b
  {
  }

  /** The token of a match that directly follows another. */
  method WriteEmptyToken(dst: array<byte>, op: nat)
    requires op < dst.Length
    modifies dst
    ensures dst[..op] == old(dst[..op]) && dst[op..op + 1] == EncodeLiterals([], 0)
    ensures forall k :: op + 1 <= k < dst.Length ==> dst[k] == old(dst[k])
  {
    dst[op] := 0;
    assert dst[op..op + 1] == [0];
  }

  /** The last literals, copied exactly. */
  method WriteLast(dst: array<byte>, op0: nat, src: seq<byte>, anchor: nat) returns (op: nat)
    requires anchor <= |src| && op0 + |EncodeLiterals(src[anchor..], 0)| <= dst.Length
    modifies dst
    ensures op == op0 + |EncodeLiterals(src[anchor..], 0)|
    ensures dst[..op] == old(dst[..op0]) + EncodeLiterals(src[anchor..], 0)
    ensures forall k :: op <= k < dst.Length ==> dst[k] == old(dst[k])
  {
    var last := src[anchor..];
    op := WriteLiteralLength(dst, op0, |last|);
    ghost var before := dst[..op];
    forall k | op <= k < op + |last| {
      dst[k] := last[k - op];
    }
    op := op + |last|;
    assert dst[..op] == before + last;
  }

  // ----- Matches ------------------------------------------------------------

  /** *token += low. */
  method AddToToken(dst: array<byte>, token: nat, op: nat, ghost lits: seq<byte>, low: nat)
    requires token < op <= dst.Length && low < 16 && dst[token..op] == EncodeLiterals(lits, 0)
    modifies dst
    ensures dst[..op] == old(dst[..token]) + EncodeLiterals(lits, low)
    ensures forall k :: op <= k < dst.Length ==> dst[k] == old(dst[k])
  {
    ghost var was := dst[token..op];
    assert was[0] == dst[token];
    dst[token] := dst[token] + low;
    assert dst[token..op] == [dst[token]] + was[1..];
    assert EncodeLiterals(lits, low)[1..] == was[1..];
    assert dst[..op] == dst[..token] + dst[token..op];
  }

  method WriteOffset(dst: array<byte>, op: nat, offset: nat)
    requires offset <= DISTANCE_MAX && op + 2 <= dst.Length
    modifies dst
    ensures dst[..op] == old(dst[..op]) && dst[op..op + 2] == OffsetBytes(offset)
    ensures forall k :: op + 2 <= k < dst.Length ==> dst[k] == old(dst[k])
  {
    dst[op], dst[op + 1] := offset % 256, offset / 256;
  }

  /** Offset and match length, the latter partly into the token already written. */
  method WriteMatch(dst: array<byte>, token: nat, op0: nat, ghost lits: seq<byte>, offset: nat, matchCode: nat)
    returns (op: nat)
    requires offset <= DISTANCE_MAX && token < op0
    requires op0 + 2 + |Extension(matchCode)| + 3 <= dst.Length
    requires dst[token..op0] == EncodeLiterals(lits, 0)
    modifies dst
    ensures op == op0 + 2 + |Extension(matchCode)|
    ensures dst[..op] == old(dst[..token]) + EncodeSequence(Sequence(lits, offset, matchCode + MIN_MATCH))
    ensures forall k :: op + 3 <= k < dst.Length ==> dst[k] == old(dst[k])
  {
    ghost var p, l := dst[..token], EncodeLiterals(lits, Nibble(matchCode));
    WriteOffset(dst, op0, offset);
    ghost var o := dst[op0..op0 + 2];
    assert dst[token..op0] == EncodeLiterals(lits, 0) && o == OffsetBytes(offset) && dst[..token] == p;
    AddToToken(dst, token, op0, lits, if matchCode >= 15 then 15 else matchCode);
    op := op0 + 2;
    assert dst[..op] == p + l + OffsetBytes(offset) by { assert dst[op0..op] == o; }
    if matchCode >= 15 {
      op := WriteLengthBlocks(dst, op, matchCode - 15);
    }
    assert dst[..op] == p + l + OffsetBytes(offset) + Extension(matchCode);
    Regroup(p, l, OffsetBytes(offset), Extension(matchCode));
  }

  lemma Regroup(p: seq<byte>, a: seq<byte>, b: seq<byte>, c: seq<byte>)
    ensures p + a + b + c == p + (a + b + c)
  {
  }
}
