/** What the optimised decoder makes of an input, for an output buffer of any capacity: its
    limits at both ends of both buffers, step by step. What it accepts is the layout of a block
    with that content, and more room never changes an accepted result. */
module Lz4CapacityDecode {
  import opened Bytes
  import opened Lz4Format
  import opened Lz4Decode
  import opened Lz4RoundTrip
  import opened Lz4LenientDecode
  import opened Lz4LenientRoundTrip

  /** A long literal length must end 15 bytes before the end of the input. */
  function TokenWithin(src: seq<byte>, ip: nat, out: seq<byte>, n: nat): (r: Decoded)
    requires ip < |src| && |out| <= n
    ensures r.Ok? ==> r.used == |src| && |r.out| <= n
    decreases |src| - ip, 0
  {
    if src[ip] / 16 < 15 then
      LiteralsWithin(src, ip + 1, src[ip] % 16, src[ip] / 16, out, n, ShortcutOpen(src, ip, |out|, n))
    else match LongLength(src, ip + 1)
      case OffEnd => Invalid
      case Length(v, next) =>
        if next + 15 > |src| then Invalid else LiteralsWithin(src, next, src[ip] % 16, 15 + v, out, n, false)
  }

  /** Literals that come within 12 bytes of the end of the output, or within 8 of the end of the
      input, must be the last. The shortcut does not look. */
  function LiteralsWithin(src: seq<byte>, ip: nat, low: nat, ll: nat, out: seq<byte>, n: nat, short: bool): (r: Decoded)
    requires ip <= |src| && |out| <= n
    requires short ==> ip + ll + 2 < |src| && |out| + ll + 18 <= n
    ensures r.Ok? ==> r.used == |src| && |r.out| <= n
    decreases |src| - ip, 4
  {
    if !short && (|out| + ll + 12 > n || ip + ll + 8 > |src|) then
      if ip + ll == |src| && |out| + ll <= n then Ok(out + src[ip..], |src|) else Invalid
    else OffsetWithin(src, ip + ll, low, out + src[ip..ip + ll], n, short)
  }

  function OffsetWithin(src: seq<byte>, ip: nat, low: nat, out: seq<byte>, n: nat, short: bool): (r: Decoded)
    requires ip + 2 < |src| && |out| + 12 <= n && (short ==> |out| + 18 <= n)
    ensures r.Ok? ==> r.used == |src| && |r.out| <= n
    decreases |src| - ip, 3
  {
    var offset: nat := src[ip] as int + 256 * src[ip + 1] as int;
    MatchLengthWithin(src, ip + 2, low, offset, out, n, short && low < 15 && 8 <= offset <= |out|)
  }

  /** A long match length must end 4 bytes before the end of the input. */
  function MatchLengthWithin(src: seq<byte>, ip: nat, low: nat, offset: nat, out: seq<byte>, n: nat, short: bool)
    : (r: Decoded)
    requires ip < |src| && |out| <= n && (short ==> low < 15 && |out| + 18 <= n)
    ensures r.Ok? ==> r.used == |src| && |r.out| <= n
    decreases |src| - ip, 2
  {
    if low < 15 then CopyWithin(src, ip, offset, low + 4, out, n, short)
    else match LongLength(src, ip)
      case OffEnd => Invalid
      case Length(v, next) =>
        if next + 4 > |src| then Invalid else CopyWithin(src, next, offset, low + v + 4, out, n, false)
  }

  /** A match must stop 5 bytes before the end of the output, unless the shortcut copies it. */
  function CopyWithin(src: seq<byte>, ip: nat, offset: nat, ml: nat, out: seq<byte>, n: nat, short: bool): (r: Decoded)
    requires ip < |src| && |out| <= n && (short ==> |out| + ml <= n)
    ensures r.Ok? ==> r.used == |src| && |r.out| <= n
    decreases |src| - ip, 1
  {
    if offset > |out| || (!short && |out| + ml + 5 > n) then Invalid
    else if offset == 0 then ZeroOffset
    else TokenWithin(src, ip, CopyMatch(out, offset, ml), n)
  }

  function DecodeWithin(src: seq<byte>, n: nat): (r: Decoded) {
    if src == [] then Invalid else TokenWithin(src, 0, [], n)
  }

  /** A match that has to stop in time anyway does not need the waiver. */
  lemma WaiverIrrelevant(src: seq<byte>, ip: nat, low: nat, out: seq<byte>, n: nat)
    requires ip + 2 < |src| && low < 16 && |out| + 18 + LAST_LITERALS <= n
    ensures OffsetWithin(src, ip, low, out, n, true) == OffsetWithin(src, ip, low, out, n, false)
  {
    var offset: nat := src[ip] as int + 256 * src[ip + 1] as int;
    if low < 15 && 8 <= offset <= |out| {
      assert MatchLengthWithin(src, ip + 2, low, offset, out, n, true)
             == MatchLengthWithin(src, ip + 2, low, offset, out, n, false);
    }
  }

  // ----- More room ----------------------------------------------------------

  /** What is accepted is accepted alike with more room in the output. */
  lemma {:induction false} TokenGrows(src: seq<byte>, ip: nat, out: seq<byte>, n: nat, n': nat)
    requires ip < |src| && |out| <= n <= n' && TokenWithin(src, ip, out, n).Ok?
    ensures TokenWithin(src, ip, out, n') == TokenWithin(src, ip, out, n)
    decreases |src| - ip, 0
  {
    if src[ip] / 16 < 15 {
      LiteralsGrow(src, ip + 1, src[ip] % 16, src[ip] / 16, out, n, n', ShortcutOpen(src, ip, |out|, n),
                   ShortcutOpen(src, ip, |out|, n'));
    } else {
      var l := LongLength(src, ip + 1);
      LiteralsGrow(src, l.next, src[ip] % 16, 15 + l.value, out, n, n', false, false);
    }
  }

  lemma {:induction false} LiteralsGrow(src: seq<byte>, ip: nat, low: nat, ll: nat, out: seq<byte>, n: nat, n': nat,
                                        short: bool, short': bool)
    requires ip <= |src| && |out| <= n <= n' && (short ==> short') && low < 16
    requires short ==> ip + ll + 2 < |src| && |out| + ll + 18 <= n
    requires short' ==> ip + ll + 2 < |src| && |out| + ll + 18 <= n'
    requires LiteralsWithin(src, ip, low, ll, out, n, short).Ok?
    ensures LiteralsWithin(src, ip, low, ll, out, n', short') == LiteralsWithin(src, ip, low, ll, out, n, short)
    decreases |src| - ip, 2
  {
    if short || (|out| + ll + 12 <= n && ip + ll + 8 <= |src|) {
      MatchGrows(src, ip + ll, low, out + src[ip..ip + ll], n, n', short, short');
    }
  }

  lemma {:induction false} MatchGrows(src: seq<byte>, ip: nat, low: nat, out: seq<byte>, n: nat, n': nat, short: bool,
                                      short': bool)
    requires ip + 2 < |src| && |out| + 12 <= n <= n' && (short ==> short') && low < 16
    requires (short ==> |out| + 18 <= n) && (short' ==> |out| + 18 <= n')
    requires OffsetWithin(src, ip, low, out, n, short).Ok?
    ensures OffsetWithin(src, ip, low, out, n', short') == OffsetWithin(src, ip, low, out, n, short)
    decreases |src| - ip, 1
  {
    var offset: nat := src[ip] as int + 256 * src[ip + 1] as int;
    var m := ReadLength(src, ip + 2, low);
    MatchAt(src, ip, low, out, n, short);
    MatchAt(src, ip, low, out, n', short');
    TokenGrows(src, m.next, CopyMatch(out, offset, m.value + 4), n, n');
  }

  /** With less room it is accepted alike, or an error. */
  lemma {:induction false} TokenShrinks(src: seq<byte>, ip: nat, out: seq<byte>, n: nat, n': nat)
    requires ip < |src| && |out| <= n <= n' && TokenWithin(src, ip, out, n').Ok?
    ensures TokenWithin(src, ip, out, n) == TokenWithin(src, ip, out, n') || TokenWithin(src, ip, out, n) == Invalid
    decreases |src| - ip, 0
  {
    if src[ip] / 16 < 15 {
      LiteralsShrink(src, ip + 1, src[ip] % 16, src[ip] / 16, out, n, n', ShortcutOpen(src, ip, |out|, n),
                     ShortcutOpen(src, ip, |out|, n'));
    } else {
      var l := LongLength(src, ip + 1);
      LiteralsShrink(src, l.next, src[ip] % 16, 15 + l.value, out, n, n', false, false);
    }
  }

  lemma {:induction false} LiteralsShrink(src: seq<byte>, ip: nat, low: nat, ll: nat, out: seq<byte>, n: nat, n': nat,
                                          short: bool, short': bool)
    requires ip <= |src| && |out| <= n <= n' && (short ==> short') && low < 16
    requires short ==> ip + ll + 2 < |src| && |out| + ll + 18 <= n
    requires short' ==> ip + ll + 2 < |src| && |out| + ll + 18 <= n'
    requires LiteralsWithin(src, ip, low, ll, out, n', short').Ok?
    ensures var r := LiteralsWithin(src, ip, low, ll, out, n, short);
            r == LiteralsWithin(src, ip, low, ll, out, n', short') || r == Invalid
    decreases |src| - ip, 2
  {
    if short || (|out| + ll + 12 <= n && ip + ll + 8 <= |src|) {
      MatchShrinks(src, ip + ll, low, out + src[ip..ip + ll], n, n', short, short');
    }
  }

  lemma {:induction false} MatchShrinks(src: seq<byte>, ip: nat, low: nat, out: seq<byte>, n: nat, n': nat, short: bool,
                                        short': bool)
    requires ip + 2 < |src| && |out| + 12 <= n <= n' && (short ==> short') && low < 16
    requires (short ==> |out| + 18 <= n) && (short' ==> |out| + 18 <= n')
    requires OffsetWithin(src, ip, low, out, n', short').Ok?
    ensures var r := OffsetWithin(src, ip, low, out, n, short);
            r == OffsetWithin(src, ip, low, out, n', short') || r == Invalid
    decreases |src| - ip, 1
  {
    var offset: nat := src[ip] as int + 256 * src[ip + 1] as int;
    var m := ReadLength(src, ip + 2, low);
    MatchAt(src, ip, low, out, n, short);
    MatchAt(src, ip, low, out, n', short');
    if OffsetWithin(src, ip, low, out, n, short) != Invalid {
      TokenShrinks(src, m.next, CopyMatch(out, offset, m.value + 4), n, n');
    }
  }

  /** What an offset and a match length come down to. */
  lemma MatchAt(src: seq<byte>, ip: nat, low: nat, out: seq<byte>, n: nat, short: bool)
    requires ip + 2 < |src| && |out| + 12 <= n && (short ==> |out| + 18 <= n) && low < 16
    ensures var offset: nat := src[ip] as int + 256 * src[ip + 1] as int;
            var m := ReadLength(src, ip + 2, low);
            OffsetWithin(src, ip, low, out, n, short)
            == if m.OffEnd? || (low == 15 && m.next + 4 > |src|) then Invalid
               else CopyWithin(src, m.next, offset, m.value + 4, out, n, short && low < 15 && 8 <= offset <= |out|)
  {
    if low == 15 {
      var l := LongLength(src, ip + 2);
      if l.Length? { assert 15 + l.value + 4 == l.value + 15 + 4; }
    }
  }

  // ----- What is left of an accepted block ----------------------------------

  /** With 5 bytes of output to come there are a token and 5 literals of input to come. */
  lemma {:induction false} RoomAtToken(src: seq<byte>, ip: nat, out: seq<byte>, n: nat)
    requires ip <= |src| && |out| + LAST_LITERALS <= n
    requires Accepted(src, LenientToken(src, ip, out, n))
    ensures ip + 6 <= |src|
    decreases |src| - ip, 0
  {
    if !ShortcutOpen(src, ip, |out|, n) {
      var l := ReadLength(src, ip + 1, src[ip] / 16);
      RoomAtLiterals(src, l.next, src[ip] % 16, l.value, out, n);
    }
  }

  lemma {:induction false} RoomAtLiterals(src: seq<byte>, ip: nat, low: nat, ll: nat, out: seq<byte>, n: nat)
    requires ip <= |src| && |out| <= n
    requires Accepted(src, LenientLiterals(src, ip, low, ll, out, n, false))
    ensures |out| + ll <= n && ip + ll <= |src|
    ensures |out| + ll + MF_LIMIT > n ==> |out| + ll == n && ip + ll == |src|
    ensures |out| + ll + MF_LIMIT <= n ==> ip + ll + 8 <= |src|
    decreases |src| - ip, 3
  {
    var out' := out + src[ip..ip + ll];
    if |out| + ll + MF_LIMIT <= n {
      RoomAtOffset(src, ip + ll, low, out', n);
    }
  }

  lemma {:induction false} RoomAtOffset(src: seq<byte>, ip: nat, low: nat, out: seq<byte>, n: nat)
    requires ip <= |src| && |out| <= n
    requires Accepted(src, LenientOffset(src, ip, low, out, n, false))
    ensures ip + 8 <= |src|
    decreases |src| - ip, 2
  {
    var offset: nat := src[ip] as int + 256 * src[ip + 1] as int;
    assert LenientOffset(src, ip, low, out, n, false) == LenientMatchLength(src, ip + 2, low, offset, out, n, false);
    RoomAtMatchLength(src, ip + 2, low, offset, out, n);
  }

  lemma {:induction false} RoomAtMatchLength(src: seq<byte>, ip: nat, low: nat, offset: nat, out: seq<byte>, n: nat)
    requires ip <= |src| && |out| <= n
    requires Accepted(src, LenientMatchLength(src, ip, low, offset, out, n, false))
    ensures ReadLength(src, ip, low).Length? && ReadLength(src, ip, low).next + 6 <= |src|
    decreases |src| - ip, 1
  {
    var m := ReadLength(src, ip, low);
    assert LenientMatchLength(src, ip, low, offset, out, n, false)
           == LenientCopy(src, m.next, offset, m.value + MIN_MATCH, out, n, false);
    RoomAtToken(src, m.next, CopyMatch(out, offset, m.value + MIN_MATCH), n);
  }

  /** A long literal length is followed by at least the 15 literals it stands for. */
  lemma RoomAtLongLiterals(src: seq<byte>, ip: nat, out: seq<byte>, n: nat)
    requires ip < |src| && |out| <= n && src[ip] / 16 == 15
    requires Accepted(src, LenientToken(src, ip, out, n))
    ensures LongLength(src, ip + 1).Length? && LongLength(src, ip + 1).next + 15 <= |src|
  {
    var l := ReadLength(src, ip + 1, 15);
    RoomAtLiterals(src, l.next, src[ip] % 16, l.value, out, n);
  }

  // ----- Filling the output -------------------------------------------------

  lemma {:induction false} TokenAccepted(src: seq<byte>, ip: nat, out: seq<byte>, n: nat)
    requires ip <= |src| && |out| <= n && Accepted(src, LenientToken(src, ip, out, n))
    ensures ip < |src| && TokenWithin(src, ip, out, n) == LenientToken(src, ip, out, n)
    decreases |src| - ip, 0
  {
    var l := ReadLength(src, ip + 1, src[ip] / 16);
    if src[ip] / 16 == 15 { RoomAtLongLiterals(src, ip, out, n); }
    LiteralsAccepted(src, l.next, src[ip] % 16, l.value, out, n, ShortcutOpen(src, ip, |out|, n));
  }

  lemma {:induction false} LiteralsAccepted(src: seq<byte>, ip: nat, low: nat, ll: nat, out: seq<byte>, n: nat, short: bool)
    requires ip <= |src| && |out| <= n && low < 16
    requires short ==> ip + ll + 2 < |src| && |out| + ll + 18 <= n
    requires Accepted(src, LenientLiterals(src, ip, low, ll, out, n, short))
    ensures LiteralsWithin(src, ip, low, ll, out, n, short) == LenientLiterals(src, ip, low, ll, out, n, short)
    decreases |src| - ip, 2
  {
    if !short { RoomAtLiterals(src, ip, low, ll, out, n); }
    if |out| + ll + 12 <= n {
      assert LenientLiterals(src, ip, low, ll, out, n, short)
             == LenientOffset(src, ip + ll, low, out + src[ip..ip + ll], n, short);
      MatchAccepted(src, ip + ll, low, out + src[ip..ip + ll], n, short);
    } else {
      assert src[ip..ip + ll] == src[ip..];
    }
  }

  lemma {:induction false} MatchAccepted(src: seq<byte>, ip: nat, low: nat, out: seq<byte>, n: nat, short: bool)
    requires ip + 2 < |src| && |out| + 12 <= n && (short ==> |out| + 18 <= n) && low < 16
    requires Accepted(src, LenientOffset(src, ip, low, out, n, short))
    ensures OffsetWithin(src, ip, low, out, n, short) == LenientOffset(src, ip, low, out, n, short)
    decreases |src| - ip, 1
  {
    var offset: nat := src[ip] as int + 256 * src[ip + 1] as int;
    var waived := short && low != 15 && offset >= 8;
    var m := ReadLength(src, ip + 2, low);
    assert LenientOffset(src, ip, low, out, n, short) == LenientMatchLength(src, ip + 2, low, offset, out, n, waived);
    if low == 15 { RoomAtMatchLength(src, ip + 2, low, offset, out, n); }
    assert LenientOffset(src, ip, low, out, n, short) == LenientCopy(src, m.next, offset, m.value + 4, out, n, waived);
    MatchAt(src, ip, low, out, n, short);
    TokenAccepted(src, m.next, CopyMatch(out, offset, m.value + 4), n);
  }

  lemma {:induction false} TokenFills(src: seq<byte>, ip: nat, out: seq<byte>, n: nat)
    requires ip < |src| && |out| <= n && TokenWithin(src, ip, out, n).Ok? && |TokenWithin(src, ip, out, n).out| == n
    ensures LenientToken(src, ip, out, n) == TokenWithin(src, ip, out, n)
    decreases |src| - ip, 0
  {
    var l := ReadLength(src, ip + 1, src[ip] / 16);
    LiteralsFill(src, l.next, src[ip] % 16, l.value, out, n, ShortcutOpen(src, ip, |out|, n));
  }

  lemma {:induction false} LiteralsFill(src: seq<byte>, ip: nat, low: nat, ll: nat, out: seq<byte>, n: nat, short: bool)
    requires ip <= |src| && |out| <= n && low < 16
    requires short ==> ip + ll + 2 < |src| && |out| + ll + 18 <= n
    requires LiteralsWithin(src, ip, low, ll, out, n, short).Ok?
    requires |LiteralsWithin(src, ip, low, ll, out, n, short).out| == n
    ensures LenientLiterals(src, ip, low, ll, out, n, short) == LiteralsWithin(src, ip, low, ll, out, n, short)
    decreases |src| - ip, 2
  {
    if short || (|out| + ll + 12 <= n && ip + ll + 8 <= |src|) {
      MatchFills(src, ip + ll, low, out + src[ip..ip + ll], n, short);
      assert LenientLiterals(src, ip, low, ll, out, n, short)
             == LenientOffset(src, ip + ll, low, out + src[ip..ip + ll], n, short);
    } else {
      assert src[ip..ip + ll] == src[ip..];
    }
  }

  lemma {:induction false} MatchFills(src: seq<byte>, ip: nat, low: nat, out: seq<byte>, n: nat, short: bool)
    requires ip + 2 < |src| && |out| + 12 <= n && (short ==> |out| + 18 <= n) && low < 16
    requires OffsetWithin(src, ip, low, out, n, short).Ok? && |OffsetWithin(src, ip, low, out, n, short).out| == n
    ensures LenientOffset(src, ip, low, out, n, short) == OffsetWithin(src, ip, low, out, n, short)
    decreases |src| - ip, 1
  {
    var offset: nat := src[ip] as int + 256 * src[ip + 1] as int;
    var waived := short && low != 15 && offset >= 8;
    var m := ReadLength(src, ip + 2, low);
    MatchAt(src, ip, low, out, n, short);
    TokenFills(src, m.next, CopyMatch(out, offset, m.value + 4), n);
    assert LenientOffset(src, ip, low, out, n, short) == LenientMatchLength(src, ip + 2, low, offset, out, n, waived);
    assert LenientOffset(src, ip, low, out, n, short) == LenientCopy(src, m.next, offset, m.value + 4, out, n, waived);
  }

  /** The output is filled exactly where decoding to that many bytes succeeds, and alike. */
  lemma FillsIffAccepted(src: seq<byte>, n: nat)
    ensures var r, d := DecodeWithin(src, n), LenientDecode(src, n);
            && (r.Ok? && |r.out| == n <==> Accepted(src, d))
            && (Accepted(src, d) ==> r == d)
  {
    if Accepted(src, LenientDecode(src, n)) {
      TokenAccepted(src, 0, [], n);
      LenientAcceptsIff(src, n);
    }
    if src != [] && TokenWithin(src, 0, [], n).Ok? && |TokenWithin(src, 0, [], n).out| == n {
      TokenFills(src, 0, [], n);
    }
  }

  // ----- What is accepted was encoded ---------------------------------------

  /** Literals that are accepted are laid out as such: the last ones, or some before an offset. */
  lemma ParseLiteralsWithin(src: seq<byte>, a: nat, out: seq<byte>, n: nat)
    returns (d: nat, lits: seq<byte>, low: nat, short: bool)
    requires a < |src| && |out| <= n && TokenWithin(src, a, out, n).Ok?
    ensures a < d && low < 16 && Spans(src, a, d, EncodeLiterals(lits, low))
    ensures if d == |src| then TokenWithin(src, a, out, n) == Ok(out + lits, |src|)
            else && d + 2 < |src| && |out + lits| + 12 <= n && (short ==> |out + lits| + 18 <= n)
                 && TokenWithin(src, a, out, n) == OffsetWithin(src, d, low, out + lits, n, short)
  {
    hide OffsetWithin, LongLength, Extension;
    low := src[a] % 16;
    var l := ReadLength(src, a + 1, src[a] / 16);
    ReadLengthCanonical(src, a + 1, src[a] / 16);
    d := l.next + l.value;
    lits := src[l.next..d];
    short := src[a] / 16 < 15 && ShortcutOpen(src, a, |out|, n);
    var t := Token(Nibble(|lits|), low);
    assert src[a..a + 1] == [t];
    JoinSpans(src, a, a + 1, l.next, [t], Extension(|lits|));
    JoinSpans(src, a, l.next, d, [t] + Extension(|lits|), lits);
  }

  lemma ParseMatchWithin(src: seq<byte>, a: nat, d: nat, low: nat, lits: seq<byte>, out: seq<byte>, n: nat, short: bool)
    returns (f: nat, s: Sequence)
    requires low < 16 && Spans(src, a, d, EncodeLiterals(lits, low))
    requires d + 2 < |src| && |out + lits| + 12 <= n && (short ==> |out + lits| + 18 <= n)
    requires OffsetWithin(src, d, low, out + lits, n, short).Ok?
    ensures s.literals == lits && FitsLoosely(s, |out|, n) && a < f < |src| && Spans(src, a, f, EncodeSequence(s))
    ensures OffsetWithin(src, d, low, out + lits, n, short)
            == TokenWithin(src, f, CopyMatch(out + lits, s.offset, s.matchLength), n)
  {
    hide OffsetWithin, TokenWithin, LongLength, Extension, EncodeLiterals, CopyMatch;
    var offset: nat := src[d] as int + 256 * src[d + 1] as int;
    var m := ReadLength(src, d + 2, low);
    MatchAt(src, d, low, out + lits, n, short);
    ReadLengthCanonical(src, d + 2, low);
    f := m.next;
    s := Sequence(lits, offset, m.value + 4);
    assert src[d..d + 2] == OffsetBytes(offset);
    JoinSpans(src, a, d, d + 2, EncodeLiterals(lits, low), OffsetBytes(offset));
    JoinSpans(src, a, d + 2, f, EncodeLiterals(lits, low) + OffsetBytes(offset), Extension(m.value));
  }

  /** Whatever is accepted is the layout of a block with that content: `ss` has been read so far. */
  lemma {:induction false} ParseWithin(src: seq<byte>, a: nat, ss: seq<Sequence>, n: nat) returns (b: Block)
    requires a < |src| && ValidSequences(ss) && StartRules(ss, n) && Covered(ss) <= n
    requires Spans(src, 0, a, EncodeSequences(ss)) && TokenWithin(src, a, Expand(ss), n).Ok?
    ensures Lays(b, src) && TokenWithin(src, a, Expand(ss), n).out == Content(b)
    decreases |src| - a
  {
    hide TokenWithin, OffsetWithin, FitsLoosely, StartRules;
    var out := Expand(ss);
    var d, lits, low, short := ParseLiteralsWithin(src, a, out, n);
    if d == |src| {
      b := Block(ss, lits, low);
      JoinSpans(src, 0, a, d, EncodeSequences(ss), EncodeLiterals(lits, low));
      assert src[0..|src|] == src;
    } else {
      var f, s := ParseMatchWithin(src, a, d, low, lits, out, n, short);
      assert FitsLoosely(s, Covered(ss), n);
      AppendLoosely(ss, s, n);
      JoinSpans(src, 0, a, f, EncodeSequences(ss), EncodeSequence(s));
      b := ParseWithin(src, f, ss + [s], n);
    }
  }

  /** The input is the layout of b. */
  predicate Lays(b: Block, src: seq<byte>) { ValidSequences(b.sequences) && b.lastLow < 16 && Encode(b) == src }

  /** A result within a capacity is the content of a block laid out in the input, and of every
      tolerated one: what fits is decoded, and what does not fit is an error. */
  lemma WithinCapacity(src: seq<byte>, n: nat)
    ensures var r := DecodeWithin(src, n);
            && (r.Ok? ==> exists b: Block :: Lays(b, src) && Content(b) == r.out)
            && forall b :: Tolerated(b) && Encode(b) == src ==>
                 if ContentLength(b) <= n then r == Ok(Content(b), |src|) else r == Invalid
  {
    var r := DecodeWithin(src, n);
    if r.Ok? {
      var b := ParseWithin(src, 0, [], n);
    }
    forall b | Tolerated(b) && Encode(b) == src
      ensures if ContentLength(b) <= n then r == Ok(Content(b), |src|) else r == Invalid
    {
      var m := ContentLength(b);
      ToleratedDecodes(b);
      FillsIffAccepted(src, m);
      if m <= n {
        TokenGrows(src, 0, [], m, n);
      } else {
        TokenShrinks(src, 0, [], n, m);
      }
    }
  }
}
