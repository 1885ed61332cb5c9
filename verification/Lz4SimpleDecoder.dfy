/** The byte-by-byte decoder as the code runs it, writing into an output array. */
module Lz4SimpleDecoder {
  import opened Bytes
  import opened Lz4Format
  import opened Lz4Decode

  /** What the code presumes of its input. */
  predicate Presumed(d: Decoded) { d.Ok? || d.Invalid? }

  /** The code reads on without looking for the end of its input. */
  method ReadLongLengthNoCheck(src: seq<byte>, ip: nat) returns (l: nat, next: nat)
    requires LongLength(src, ip).Length?
    ensures LongLength(src, ip) == Length(l, next)
  {
    l, next := 0, ip;
    var b: byte := 255;
    while b == 255
      invariant b == 255 ==> LongLength(src, next).Length?
      invariant b == 255 ==> LongLength(src, ip) == Length(l + LongLength(src, next).value, LongLength(src, next).next)
      invariant b != 255 ==> LongLength(src, ip) == Length(l, next)
      decreases b == 255, |src| - next
    {
      b := src[next];
      next := next + 1;
      l := l + b;
    }
  }

  /** memmove of `n` input bytes to the output. */
  method CopyLiterals(dst: array<byte>, op: nat, src: seq<byte>, ip: nat, n: nat)
    requires op + n <= dst.Length && ip + n <= |src|
    modifies dst
    ensures dst[..op + n] == old(dst[..op]) + src[ip..ip + n]
    ensures dst[op + n..] == old(dst[op + n..])
  {
    forall k | op <= k < op + n {
      dst[k] := src[ip + (k - op)];
    }
  }

  /** The slow match copy, supporting overlap. */
  method CopyMatchSlow(dst: array<byte>, op: nat, offset: nat, ml: nat)
    requires 1 <= offset <= op && op + ml <= dst.Length
    modifies dst
    ensures dst[..op + ml] == CopyMatch(old(dst[..op]), offset, ml)
    ensures dst[op + ml..] == old(dst[op + ml..])
  {
    ghost var base := dst[..op];
    var u := 0;
    while u < ml
      invariant u <= ml
      invariant dst[..op + u] == CopyMatch(base, offset, u)
      invariant dst[op + ml..] == old(dst[op + ml..])
    {
      dst[op + u] := dst[op - offset + u];
      assert dst[..op + u + 1] == dst[..op + u] + [dst[op + u]];
      u := u + 1;
    }
  }

  datatype Status = GoOn | Finished | Failed

  /** The literal half of one sequence. `d` is what the whole block decodes to. */
  method LiteralRun(src: seq<byte>, ip0: nat, dst: array<byte>, op0: nat, ghost d: Decoded)
    returns (status: Status, low: nat, ip: nat, op: nat)
    requires ip0 <= |src| && op0 <= dst.Length && Presumed(d)
    requires DecodeToken(src, ip0, dst[..op0], dst.Length) == d
    modifies dst
    ensures low < 16 && ip0 < ip <= |src| && op0 <= op <= dst.Length
    ensures status == Failed ==> d == Invalid
    ensures status == Finished ==> d == Ok(dst[..], ip)
    ensures status == GoOn ==> DecodeOffset(src, ip, low, dst[..op], dst.Length) == d
  {
    var token := src[ip0];
    ip, op, low := ip0 + 1, op0, token % 16;
    var ll: nat := token / 16;
    if ll == 15 {
      var l;
      l, ip := ReadLongLengthNoCheck(src, ip);
      ll := ll + l;
    }
    assert DecodeLiterals(src, ip, low, ll, dst[..op], dst.Length) == d;
    if dst.Length - op < ll { return Failed, low, ip, op; }
    CopyLiterals(dst, op, src, ip, ll);
    op, ip := op + ll, ip + ll;
    if dst.Length - op < MF_LIMIT {
      if op == dst.Length {
        assert dst[..op] == dst[..];
        return Finished, low, ip, op;
      }
      return Failed, low, ip, op;
    }
    status := GoOn;
  }

  /** The match half of one sequence. */
  method MatchRun(src: seq<byte>, ip0: nat, low: nat, dst: array<byte>, op0: nat, ghost d: Decoded)
    returns (status: Status, ip: nat, op: nat)
    requires ip0 <= |src| && op0 <= dst.Length && Presumed(d)
    requires DecodeOffset(src, ip0, low, dst[..op0], dst.Length) == d
    modifies dst
    ensures ip0 <= ip <= |src| && op0 <= op <= dst.Length && status != Finished
    ensures status == Failed ==> d == Invalid
    ensures status == GoOn ==> DecodeToken(src, ip, dst[..op], dst.Length) == d
  {
    var offset: nat := src[ip0] as int + 256 * src[ip0 + 1] as int;
    ip, op := ip0 + 2, op0;
    assert DecodeMatchLength(src, ip, low, offset, dst[..op], dst.Length) == d;
    var ml: nat := low;
    if ml == 15 {
      var l;
      l, ip := ReadLongLengthNoCheck(src, ip);
      ml := ml + l;
    }
    ml := ml + MIN_MATCH;
    assert DecodeCopy(src, ip, offset, ml, dst[..op], dst.Length) == d;
    if dst.Length - op < ml || offset > op { return Failed, ip, op; }
    CopyMatchSlow(dst, op, offset, ml);
    op := op + ml;
    status := if dst.Length - op < LAST_LITERALS then Failed else GoOn;
  }

  /** Decodes a full block into exactly `dst.Length` bytes. The caller vouches for the
      input being large enough and for no offset being 0; -1 reports any other fault,
      otherwise the result is the number of input bytes used. */
  method DecompressUnsafe(src: seq<byte>, dst: array<byte>) returns (r: int)
    requires Presumed(Decode(src, dst.Length))
    modifies dst
    ensures r == -1 || r >= 0
    ensures r == -1 <==> Decode(src, dst.Length) == Invalid
    ensures r >= 0 ==> Decode(src, dst.Length) == Ok(dst[..], r)
  {
    ghost var d := Decode(src, dst.Length);
    var ip: nat, op: nat := 0, 0;
    assert dst[..0] == [];
    while true
      invariant ip <= |src| && op <= dst.Length
      invariant DecodeToken(src, ip, dst[..op], dst.Length) == d
      decreases |src| - ip
    {
      var status, low;
      status, low, ip, op := LiteralRun(src, ip, dst, op, d);
      if status == Finished { return ip; }
      if status == Failed { return -1; }
      status, ip, op := MatchRun(src, ip, low, dst, op, d);
      if status == Failed { return -1; }
    }
  }
}
