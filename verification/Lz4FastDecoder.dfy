/** The optimised decoder: a fast loop while at least 64 bytes of output remain, a safe
    loop for the rest, and jumps from one into the middle of the other. A phase says
    where in the two loops control is. */
module Lz4FastDecoder {
  import opened Bytes
  import opened Lz4Format
  import opened Lz4Decode
  import opened Lz4LenientDecode
  import opened Lz4LenientRoundTrip
  import opened Lz4CapacityDecode
  import opened Lz4Copies

  // ----- Phases -------------------------------------------------------------

  /** Where control is: at the top of either loop, at the offset in the fast loop, at one
      of the labels `safe_literal_copy`, `_copy_match` and `safe_match_copy`, or out. */
  datatype Phase =
    | FastToken(ip: nat, op: nat)
    | FastOffset(ip: nat, op: nat, low: nat)
    | SafeToken(ip: nat, op: nat)
    | SafeLiterals(ip: nat, op: nat, low: nat, length: nat)
    | MatchLength(ip: nat, op: nat, low: nat, offset: nat)
    | SafeMatch(ip: nat, op: nat, offset: nat, length: nat)
    | Done(op: nat)
    | Error(ip: nat)

  /** What keeps every access of a phase inside its buffer, for any input whatever. */
  predicate InBounds(p: Phase, srcSize: nat, n: nat) {
    match p
    case FastToken(ip, op) => ip < srcSize && op + 64 <= n
    case FastOffset(ip, op, low) => ip + 3 <= srcSize && op + 32 <= n && low < 16
    case SafeToken(ip, op) => ip < srcSize && op <= n
    case SafeLiterals(ip, op, low, length) => ip <= srcSize && op <= n && low < 16
    case MatchLength(ip, op, low, offset) => ip < srcSize && op + 12 <= n && low < 16
    case SafeMatch(ip, op, offset, length) => ip < srcSize && op + 12 <= n && length >= 4
    case Done(op) => op <= n
    case Error(ip) => true
  }

  /** What is still made of the input from a phase on. */
  ghost predicate Follows(p: Phase, src: seq<byte>, buf: seq<byte>, d: Decoded)
    requires InBounds(p, |src|, |buf|)
  {
    match p
    case FastToken(ip, op) => TokenWithin(src, ip, buf[..op], |buf|) == d
    case FastOffset(ip, op, low) => OffsetWithin(src, ip, low, buf[..op], |buf|, false) == d
    case SafeToken(ip, op) => TokenWithin(src, ip, buf[..op], |buf|) == d
    case SafeLiterals(ip, op, low, length) => LiteralsWithin(src, ip, low, length, buf[..op], |buf|, false) == d
    case MatchLength(ip, op, low, offset) => MatchLengthWithin(src, ip, low, offset, buf[..op], |buf|, false) == d
    case SafeMatch(ip, op, offset, length) => CopyWithin(src, ip, offset, length, buf[..op], |buf|, false) == d
    case Done(op) => d == Ok(buf[..op], |src|)
    case Error(ip) => d == Invalid
  }

  function Position(p: Phase): (r: nat) {
    match p
    case FastToken(ip, _) => ip
    case FastOffset(ip, _, _) => ip
    case SafeToken(ip, _) => ip
    case SafeLiterals(ip, _, _, _) => ip
    case MatchLength(ip, _, _, _) => ip
    case SafeMatch(ip, _, _, _) => ip
    case Done(_) => 0
    case Error(ip) => ip
  }

  /** In step with the decoding function, as long as no offset of 0 is met. */
  ghost predicate Simulates(p: Phase, src: seq<byte>, buf: seq<byte>, d: Decoded) {
    InBounds(p, |src|, |buf|) && (d != ZeroOffset ==> Follows(p, src, buf, d))
  }

  // ----- Length fields ------------------------------------------------------

  /** read_variable_length: an error is reported exactly when the field does not end by
      the limit. */
  method ReadVariableLength(src: seq<byte>, ip: nat, ilimit: int, initialCheck: bool)
    returns (ok: bool, length: nat, next: nat)
    requires ilimit < |src| && ip <= |src| && (initialCheck || ip < |src|)
    ensures ok <==> LongLength(src, ip).Length? && LongLength(src, ip).next <= ilimit
    ensures ok ==> LongLength(src, ip) == Length(length, next)
    ensures next >= ip
  {
    ok, length, next := false, 0, ip;
    if initialCheck && ip >= ilimit { return; }
    length, next := src[ip], ip + 1;
    if next > ilimit { return; }
    if src[ip] != 255 { return true, length, next; }
    var s: byte := 255;
    while s == 255
      invariant next <= ilimit && ip < next
      invariant s == 255 ==> LongLength(src, ip) == match LongLength(src, next)
                                                    case Length(v, e) => Length(length + v, e)
                                                    case OffEnd => OffEnd
      invariant s != 255 ==> LongLength(src, ip) == Length(length, next)
      decreases s == 255, |src| - next
    {
      s := src[next];
      next := next + 1;
      length := length + s;
      if next > ilimit { return; }
    }
    ok := true;
  }

  // ----- Literals -----------------------------------------------------------

  /** Past literals the decoding function is at an offset, or at the end. */
  lemma AfterLiterals(src: seq<byte>, ip: nat, low: nat, ll: nat, out: seq<byte>, out': seq<byte>, n: nat, short: bool,
                      d: Decoded)
    requires ip + ll <= |src| && |out| <= n && out' == out + src[ip..ip + ll] && |out'| <= n
    requires short ==> ip + ll + 2 < |src| && |out| + ll + 18 <= n
    requires LiteralsWithin(src, ip, low, ll, out, n, short) == d
    ensures d == if short || (|out'| + 12 <= n && ip + ll + 8 <= |src|) then OffsetWithin(src, ip + ll, low, out', n, short)
                 else if ip + ll == |src| then Ok(out', |src|)
                 else Invalid
  {
    if ip + ll == |src| { assert src[ip..ip + ll] == src[ip..]; }
  }

  /** A short run of literals, copied as one stripe of 16 bytes. */
  method ShortLiterals(src: seq<byte>, ip0: nat, dst: array<byte>, op0: nat, ghost d: Decoded)
    returns (ip: nat, op: nat)
    requires op0 <= dst.Length && ShortcutOpen(src, ip0, op0, dst.Length)
    requires d != ZeroOffset ==> TokenWithin(src, ip0, dst[..op0], dst.Length) == d
    modifies dst
    ensures ip0 < ip <= ip0 + 15 && op0 <= op <= op0 + 14
    ensures ip + 2 < |src| && op + 18 <= dst.Length
    ensures d != ZeroOffset ==> OffsetWithin(src, ip, src[ip0] % 16, dst[..op], dst.Length, true) == d
  {
    var length: nat := src[ip0] / 16;
    ghost var out := dst[..op0];
    CopyOneStripe(dst, op0, src, ip0 + 1, length);
    ip, op := ip0 + 1 + length, op0 + length;
    if d != ZeroOffset {
      AfterLiterals(src, ip0 + 1, src[ip0] % 16, length, out, dst[..op], dst.Length, true, d);
    }
  }

  /** From the top of the fast loop to the offset, or out of the loop. */
  method FastLiterals(src: seq<byte>, ip0: nat, dst: array<byte>, op: nat, ghost d: Decoded) returns (p: Phase)
    requires Simulates(FastToken(ip0, op), src, dst[..], d)
    modifies dst
    ensures Simulates(p, src, dst[..], d)
    ensures p.FastOffset? || p.SafeLiterals? || p.Error?
    ensures Position(p) > ip0
  {
    hide OffsetWithin, LongLength;
    var token := src[ip0];
    var ip, length: nat, low := ip0 + 1, token / 16, token % 16;
    if length == 15 {
      var ok, addl;
      ok, addl, ip := ReadVariableLength(src, ip, |src| - 15, true);
      if !ok { return Error(ip); }
      length := length + addl;
      if op + length > dst.Length - 32 || ip + length > |src| - 32 {
        return SafeLiterals(ip, op, low, length);
      }
      ghost var out := dst[..op];
      CopyStripes(dst, op, src, ip, op + length, 32);
      if d != ZeroOffset {
        AfterLiterals(src, ip, low, length, out, dst[..op + length], dst.Length, false, d);
      }
      p := FastOffset(ip + length, op + length, low);
    } else if ip <= |src| - 17 {
      var next, cpy := ShortLiterals(src, ip0, dst, op, d);
      if d != ZeroOffset { WaiverIrrelevant(src, next, low, dst[..cpy], dst.Length); }
      p := FastOffset(next, cpy, low);
    } else {
      p := SafeLiterals(ip, op, low, length);
    }
  }

  // ----- Matches ------------------------------------------------------------

  /** A periodic copy is the match copy, whatever was written after it. */
  lemma PeriodicIsCopy(before: seq<byte>, buf: seq<byte>, op: nat, length: nat, offset: nat)
    requires 1 <= offset <= op && op + length <= |buf| && op <= |before|
    requires buf[..op] == before[..op] && Periodic(buf, op, op + length, offset)
    ensures buf[..op + length] == CopyMatch(before[..op], offset, length)
  {
    var r := buf[..op + length];
    assert r[..op] == buf[..op];
    CopyMatchUnique(before[..op], offset, length, r);
  }

  /** Past a copied match the decoding function is at a token. */
  lemma AfterMatch(src: seq<byte>, ip: nat, offset: nat, ml: nat, before: seq<byte>, buf: seq<byte>, op: nat,
                   short: bool, d: Decoded)
    requires ip < |src| && offset <= op && op + ml <= |buf| == |before| && d != ZeroOffset
    requires short || op + ml + LAST_LITERALS <= |buf|
    requires CopyWithin(src, ip, offset, ml, before[..op], |buf|, short) == d
    ensures 1 <= offset
    ensures buf[..op] == before[..op] && Periodic(buf, op, op + ml, offset)
            ==> TokenWithin(src, ip, buf[..op + ml], |buf|) == d
  {
    if buf[..op] == before[..op] && Periodic(buf, op, op + ml, offset) {
      PeriodicIsCopy(before, buf, op, ml, offset);
    }
  }

  /** The length of a match, in either loop. */
  method ReadMatchLength(src: seq<byte>, ip0: nat, low: nat, offset: nat, ghost out: seq<byte>, ghost n: nat,
                         ghost d: Decoded)
    returns (ok: bool, ip: nat, length: nat)
    requires ip0 < |src| && low < 16 && |out| <= n
    requires d != ZeroOffset ==> MatchLengthWithin(src, ip0, low, offset, out, n, false) == d
    ensures ip >= ip0
    ensures ok ==> ip < |src| && length >= MIN_MATCH && (low < 15 ==> length == low + MIN_MATCH)
    ensures ok && d != ZeroOffset ==> CopyWithin(src, ip, offset, length, out, n, false) == d
    ensures !ok && d != ZeroOffset ==> d == Invalid
  {
    hide CopyWithin, LongLength;
    ok, ip, length := true, ip0, low;
    if low == 15 {
      var addl;
      ok, addl, ip := ReadVariableLength(src, ip0, |src| - 4, false);
      length := low + addl;
    }
    length := length + MIN_MATCH;
  }

  /** From the offset in the fast loop to the top of it, or out of the loop. */
  method FastMatch(src: seq<byte>, ip0: nat, low: nat, dst: array<byte>, op: nat, ghost d: Decoded) returns (p: Phase)
    requires Simulates(FastOffset(ip0, op, low), src, dst[..], d)
    modifies dst
    ensures Simulates(p, src, dst[..], d)
    ensures p.FastToken? || p.SafeMatch? || p.Error?
    ensures Position(p) > ip0
  {
    ghost var before := dst[..];
    var offset: nat := src[ip0] as int + 256 * src[ip0 + 1] as int;
    assert d != ZeroOffset ==> MatchLengthWithin(src, ip0 + 2, low, offset, dst[..op], dst.Length, false) == d;
    var ok, ip, length := ReadMatchLength(src, ip0 + 2, low, offset, dst[..op], dst.Length, d);
    if !ok { return Error(ip); }
    var cpy := op + length;
    if cpy >= dst.Length - 64 { return SafeMatch(ip, op, offset, length); }
    if low != 15 && offset <= op && offset >= 8 {
      Copy18(dst, op, offset);
    } else if offset > op {
      return Error(ip);
    } else {
      FastMatchCopy(dst, op, cpy, offset);
    }
    if d != ZeroOffset {
      AfterMatch(src, ip, offset, length, before, dst[..], op, false, d);
    }
    p := FastToken(ip, cpy);
  }

  // ----- The safe loop ------------------------------------------------------

  /** The second stage of the shortcut: 18 bytes at once, wherever the match ends. */
  method ShortMatch(src: seq<byte>, ip: nat, low: nat, offset: nat, dst: array<byte>, op: nat, ghost d: Decoded)
    returns (cpy: nat)
    requires ip < |src| && low < 15 && 8 <= offset <= op && op + 18 <= dst.Length
    requires d != ZeroOffset ==> CopyWithin(src, ip, offset, low + MIN_MATCH, dst[..op], dst.Length, true) == d
    modifies dst
    ensures cpy == op + low + MIN_MATCH
    ensures d != ZeroOffset ==> TokenWithin(src, ip, dst[..cpy], dst.Length) == d
  {
    ghost var before := dst[..];
    cpy := op + low + MIN_MATCH;
    Copy18(dst, op, offset);
    if d != ZeroOffset {
      AfterMatch(src, ip, offset, low + MIN_MATCH, before, dst[..], op, true, d);
    }
  }

  /** The shortcut for short literals and matches, taken with room to spare. */
  method Shortcut(src: seq<byte>, ip0: nat, dst: array<byte>, op0: nat, ghost d: Decoded) returns (p: Phase)
    requires Simulates(SafeToken(ip0, op0), src, dst[..], d)
    requires src[ip0] / 16 < 15 && ip0 + 1 < |src| - 16 && op0 <= dst.Length - 32
    modifies dst
    ensures Simulates(p, src, dst[..], d)
    ensures p.SafeToken? || p.MatchLength?
    ensures Position(p) > ip0
  {
    hide TokenWithin, MatchLengthWithin, CopyWithin;
    var low: nat := src[ip0] % 16;
    var ip, op := ShortLiterals(src, ip0, dst, op0, d);
    var offset: nat := src[ip] as int + 256 * src[ip + 1] as int;
    if low != 15 && offset >= 8 && offset <= op {
      if d != ZeroOffset { ShortcutCopies(src, ip + 2, low, offset, dst[..op], dst.Length); }
      var cpy := ShortMatch(src, ip + 2, low, offset, dst, op, d);
      p := SafeToken(ip + 2, cpy);
    } else {
      assert d != ZeroOffset ==> MatchLengthWithin(src, ip + 2, low, offset, dst[..op], dst.Length, false) == d;
      p := MatchLength(ip + 2, op, low, offset);
    }
  }

  lemma ShortcutCopies(src: seq<byte>, ip: nat, low: nat, offset: nat, out: seq<byte>, n: nat)
    requires ip < |src| && low < 15 && |out| + 18 <= n
    ensures MatchLengthWithin(src, ip, low, offset, out, n, true) == CopyWithin(src, ip, offset, low + MIN_MATCH, out, n, true)
  {
  }

  /** From the top of the safe loop to one of its labels, or back to the top. */
  method SafeTop(src: seq<byte>, ip0: nat, dst: array<byte>, op: nat, ghost d: Decoded) returns (p: Phase)
    requires Simulates(SafeToken(ip0, op), src, dst[..], d)
    modifies dst
    ensures Simulates(p, src, dst[..], d)
    ensures p.SafeToken? || p.MatchLength? || p.SafeLiterals? || p.Error?
    ensures Position(p) > ip0
  {
    var length: nat, low := src[ip0] / 16, src[ip0] % 16;
    if length != 15 && ip0 + 1 < |src| - 16 && op <= dst.Length - 32 {
      p := Shortcut(src, ip0, dst, op, d);
      return;
    }
    var ip := ip0 + 1;
    if length == 15 {
      var ok, addl;
      ok, addl, ip := ReadVariableLength(src, ip, |src| - 15, true);
      if !ok { return Error(ip); }
      length := length + addl;
    }
    p := SafeLiterals(ip, op, low, length);
  }

  /** Literals that meet the end of the input or of the output must end both. */
  method LastLiterals(src: seq<byte>, ip: nat, low: nat, length: nat, dst: array<byte>, op: nat, ghost d: Decoded)
    returns (p: Phase)
    requires Simulates(SafeLiterals(ip, op, low, length), src, dst[..], d)
    requires op + length > dst.Length - MF_LIMIT || ip + length > |src| - 8
    modifies dst
    ensures Simulates(p, src, dst[..], d) && (p.Done? || p.Error?)
  {
    var cpy := op + length;
    ghost var out := dst[..op];
    if ip + length != |src| || cpy > dst.Length { return Error(ip); }
    forall k | op <= k < cpy {
      dst[k] := src[ip + (k - op)];
    }
    assert dst[..cpy] == out + src[ip..ip + length];
    if d != ZeroOffset {
      AfterLiterals(src, ip, low, length, out, dst[..cpy], dst.Length, false, d);
    }
    p := Done(cpy);
  }

  /** From `safe_literal_copy` to the match, or to the end of the block. */
  method SafeLiteralCopy(src: seq<byte>, ip: nat, low: nat, length: nat, dst: array<byte>, op: nat, ghost d: Decoded)
    returns (p: Phase)
    requires Simulates(SafeLiterals(ip, op, low, length), src, dst[..], d)
    modifies dst
    ensures Simulates(p, src, dst[..], d)
    ensures (p.MatchLength? && p.ip > ip) || p.Done? || p.Error?
  {
    var cpy := op + length;
    if cpy > dst.Length - MF_LIMIT || ip + length > |src| - 8 {
      p := LastLiterals(src, ip, low, length, dst, op, d);
      return;
    }
    ghost var out := dst[..op];
    CopyStripes(dst, op, src, ip, cpy, 8);
    if d != ZeroOffset {
      AfterLiterals(src, ip, low, length, out, dst[..cpy], dst.Length, false, d);
    }
    var next := ip + length;
    var offset: nat := src[next] as int + 256 * src[next + 1] as int;
    assert d != ZeroOffset ==> MatchLengthWithin(src, next + 2, low, offset, dst[..cpy], dst.Length, false) == d;
    p := MatchLength(next + 2, cpy, low, offset);
  }

  /** From `safe_match_copy` to the top of the safe loop. */
  method SafeMatchStep(src: seq<byte>, ip: nat, offset: nat, length: nat, dst: array<byte>, op: nat, ghost d: Decoded)
    returns (p: Phase)
    requires Simulates(SafeMatch(ip, op, offset, length), src, dst[..], d)
    modifies dst
    ensures Simulates(p, src, dst[..], d)
    ensures p == SafeToken(ip, op + length) || p == Error(ip)
  {
    if offset > op { return Error(ip); }
    ghost var before := dst[..];
    var ok := SafeMatchCopy(dst, op, length, offset);
    if ok && d != ZeroOffset {
      AfterMatch(src, ip, offset, length, before, dst[..], op, false, d);
    }
    p := if ok then SafeToken(ip, op + length) else Error(ip);
  }

  /** One block at a time from any phase of the safe loop to the next. */
  method SafeStep(src: seq<byte>, p0: Phase, dst: array<byte>, ghost d: Decoded) returns (p: Phase)
    requires Simulates(p0, src, dst[..], d)
    requires p0.SafeToken? || p0.SafeLiterals? || p0.MatchLength? || p0.SafeMatch?
    modifies dst
    ensures Simulates(p, src, dst[..], d)
    ensures !p.FastToken? && !p.FastOffset?
    ensures p.Done? || p.Error? || Position(p) > Position(p0) || (Position(p) == Position(p0) && Rank(p) < Rank(p0))
  {
    match p0
    case SafeToken(ip, op) =>
      p := SafeTop(src, ip, dst, op, d);
    case SafeLiterals(ip, op, low, length) =>
      p := SafeLiteralCopy(src, ip, low, length, dst, op, d);
    case MatchLength(ip0, op, low, offset) =>
      var ok, ip, length := ReadMatchLength(src, ip0, low, offset, dst[..op], dst.Length, d);
      p := if ok then SafeMatch(ip, op, offset, length) else Error(ip);
    case SafeMatch(ip, op, offset, length) =>
      p := SafeMatchStep(src, ip, offset, length, dst, op, d);
  }

  function Rank(p: Phase): (r: nat) {
    match p
    case MatchLength(_, _, _, _) => 2
    case SafeMatch(_, _, _, _) => 1
    case _ => 0
  }

  /** The fast loop, left at the top of the safe loop or at one of its labels. */
  method FastLoop(src: seq<byte>, dst: array<byte>, ghost d: Decoded) returns (p: Phase)
    requires Simulates(FastToken(0, 0), src, dst[..], d)
    modifies dst
    ensures Simulates(p, src, dst[..], d)
    ensures p.SafeLiterals? || p.SafeMatch? || p.Error?
  {
    p := FastToken(0, 0);
    while p.FastToken?
      invariant Simulates(p, src, dst[..], d)
      invariant p.FastToken? || p.SafeLiterals? || p.SafeMatch? || p.Error?
      decreases if p.FastToken? then 1 + |src| - Position(p) else 0
    {
      p := FastLiterals(src, p.ip, dst, p.op, d);
      if p.FastOffset? {
        p := FastMatch(src, p.ip, p.low, dst, p.op, d);
      }
    }
  }

  /** Decodes a block into `dst`, never reading or writing outside the two buffers whatever the
      input. A tolerated block that fits is decoded, whatever room there is to spare, and one
      that does not fit is an error. Unless an offset of 0 is met, what is decoded is always
      the content of a block laid out in the input, and the output is filled exactly when that
      block is a tolerated one of that size. */
  method DecompressSafe(src: seq<byte>, dst: array<byte>) returns (r: int)
    modifies dst
    ensures r <= dst.Length
    ensures dst.Length == 0 ==> r == if src == [0] then 0 else -1
    ensures dst.Length > 0 ==> forall b :: Tolerated(b) && Encode(b) == src ==>
              if ContentLength(b) <= dst.Length then r == ContentLength(b) && dst[..r] == Content(b) else r < 0
    ensures dst.Length > 0 && DecodeWithin(src, dst.Length) != ZeroOffset ==>
              && (r >= 0 ==> exists b :: Lays(b, src) && Content(b) == dst[..r])
              && (r == dst.Length <==> exists b :: Tolerated(b) && ContentLength(b) == dst.Length && Encode(b) == src)
    ensures dst.Length > 0 && Accepted(src, Decode(src, dst.Length))
            ==> r == dst.Length && Decode(src, dst.Length) == Ok(dst[..], |src|)
  {
    if dst.Length == 0 { return if |src| == 1 && src[0] == 0 then 0 else -1; }
    ghost var n, d := dst.Length, DecodeWithin(src, dst.Length);
    WithinCapacity(src, n);
    FillsIffAccepted(src, n);
    LenientAcceptsIff(src, n);
    if Accepted(src, Decode(src, n)) { StrictIsLenient(src, n); }
    if |src| == 0 { return -1; }
    assert dst[..0] == [];
    var p := SafeToken(0, 0);
    if dst.Length >= 64 {
      p := FastLoop(src, dst, d);
    }
    while !p.Done? && !p.Error?
      invariant Simulates(p, src, dst[..], d)
      invariant !p.FastToken? && !p.FastOffset?
      decreases if p.Done? || p.Error? then 0 else 1, |src| - Position(p), Rank(p)
    {
      p := SafeStep(src, p, dst, d);
    }
    r := if p.Done? then p.op else -(p.ip as int) - 1;
  }
}
