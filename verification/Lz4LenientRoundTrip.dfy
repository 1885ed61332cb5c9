/** The blocks the optimised decoder accepts, told by their sequences: the well-formed ones, and
    those whose last match is short enough for the shortcut and stops too late. */
module Lz4LenientRoundTrip {
  import opened Bytes
  import opened Lz4Format
  import opened Lz4Decode
  import opened Lz4LenientDecode
  import opened Lz4RoundTrip

  /** Every match starts at least 12 bytes before the end. */
  predicate StartRules(ss: seq<Sequence>, n: nat) {
    ss == [] || (StartRules(Front(ss), n) && Covered(Front(ss)) + |Last(ss).literals| + MF_LIMIT <= n)
  }

  /** A short sequence from not too close, with enough bytes around it for the wide copies. */
  predicate ByShortcut(s: Sequence, tail: nat) {
    && |s.literals| <= 14 && s.matchLength <= 18 && s.offset >= 8
    && |s.literals| + tail >= 14 && |s.literals| + s.matchLength + tail >= 32
  }

  predicate Tolerated(b: Block) {
    && ValidSequences(b.sequences) && b.lastLow < 16
    && StartRules(b.sequences, ContentLength(b))
    && (b.sequences == [] || |b.last| >= LAST_LITERALS || ByShortcut(Last(b.sequences), |b.last|))
  }

  /** A match that another one follows stops in time. */
  lemma {:induction false} EarlierRules(ss: seq<Sequence>, n: nat)
    requires StartRules(ss, n) && ss != []
    ensures EndRules(Front(ss), n)
  {
    if Front(ss) != [] {
      EarlierRules(Front(ss), n);
    }
  }

  lemma {:induction false} EndRulesStart(ss: seq<Sequence>, n: nat)
    requires EndRules(ss, n)
    ensures StartRules(ss, n)
  {
    if ss != [] {
      EndRulesStart(Front(ss), n);
    }
  }

  /** The well-formed blocks are the tolerated ones that end with 5 literals or have no match. */
  lemma WellFormedIffTolerated(b: Block)
    ensures WellFormed(b) <==> Tolerated(b) && (b.sequences == [] || |b.last| >= LAST_LITERALS)
  {
    if WellFormed(b) { EndRulesStart(b.sequences, ContentLength(b)); }
    if Tolerated(b) && b.sequences != [] { EarlierRules(b.sequences, ContentLength(b)); }
  }

  // ----- Decoding what was encoded ------------------------------------------

  lemma LenientOverToken(src: seq<byte>, a: nat, b: nat, ll: nat, low: nat, out: seq<byte>, n: nat)
    requires low < 16 && |out| <= n
    requires a < |src| && src[a] == Token(Nibble(ll), low) && Spans(src, a + 1, b, Extension(ll))
    ensures LenientToken(src, a, out, n) == LenientLiterals(src, b, low, ll, out, n, ShortcutOpen(src, a, |out|, n))
  {
    TokenHalves(Nibble(ll), low);
    ReadLengthIff(src, a + 1, ll);
  }

  lemma LenientOverLast(src: seq<byte>, a: nat, d: nat, lits: seq<byte>, low: nat, out: seq<byte>, n: nat)
    requires low < 16 && Spans(src, a, d, EncodeLiterals(lits, low)) && |out| + |lits| == n
    ensures LenientToken(src, a, out, n) == Ok(out + lits, d)
  {
    var c := SplitLiterals(src, a, d, lits, low);
    LenientOverToken(src, a, c, |lits|, low, out, n);
  }

  lemma LenientOverLeading(src: seq<byte>, a: nat, d: nat, lits: seq<byte>, low: nat, out: seq<byte>, n: nat)
    requires low < 16 && Spans(src, a, d, EncodeLiterals(lits, low)) && |out| + |lits| + MF_LIMIT <= n
    ensures LenientToken(src, a, out, n) == LenientOffset(src, d, low, out + lits, n, ShortcutOpen(src, a, |out|, n))
  {
    var c := SplitLiterals(src, a, d, lits, low);
    LenientOverToken(src, a, c, |lits|, low, out, n);
  }

  /** A match may stop late only where the shortcut takes it. */
  predicate MayStop(offset: nat, ml: nat, end: nat, n: nat, short: bool) {
    end <= n && (end + LAST_LITERALS <= n || (short && ml < 15 && offset >= 8))
  }

  lemma LenientOverMatch(src: seq<byte>, d: nat, e: nat, f: nat, offset: nat, ml: nat, out: seq<byte>, n: nat, short: bool)
    requires 1 <= offset <= |out| && offset <= DISTANCE_MAX && MayStop(offset, ml, |out| + ml + MIN_MATCH, n, short)
    requires Spans(src, d, e, OffsetBytes(offset)) && Spans(src, e, f, Extension(ml))
    ensures LenientOffset(src, d, Nibble(ml), out, n, short)
            == LenientToken(src, f, CopyMatch(out, offset, ml + MIN_MATCH), n)
  {
    var waived := short && Nibble(ml) != 15 && offset >= 8;
    assert src[d..e][0] == src[d] && src[d..e][1] == src[d + 1];
    ReadLengthIff(src, e, ml);
    assert LenientOffset(src, d, Nibble(ml), out, n, short)
           == LenientMatchLength(src, e, Nibble(ml), offset, out, n, waived);
    assert LenientOffset(src, d, Nibble(ml), out, n, short)
           == LenientCopy(src, f, offset, ml + MIN_MATCH, out, n, waived);
  }

  /** A sequence that may follow `covered` bytes, as far as that can be told from its start. */
  predicate FitsLoosely(s: Sequence, covered: nat, n: nat) {
    && 1 <= s.offset <= covered + |s.literals| && s.offset <= DISTANCE_MAX && s.matchLength >= MIN_MATCH
    && covered + |s.literals| + MF_LIMIT <= n && covered + |s.literals| + s.matchLength <= n
  }

  lemma LenientOverSequence(src: seq<byte>, a: nat, f: nat, s: Sequence, out: seq<byte>, n: nat)
    requires FitsLoosely(s, |out|, n) && Spans(src, a, f, EncodeSequence(s))
    requires MayStop(s.offset, s.matchLength - MIN_MATCH, |out| + |s.literals| + s.matchLength, n,
                     ShortcutOpen(src, a, |out|, n))
    ensures LenientToken(src, a, out, n)
            == LenientToken(src, f, CopyMatch(out + s.literals, s.offset, s.matchLength), n)
  {
    var ml := s.matchLength - MIN_MATCH;
    var l, o, x := EncodeLiterals(s.literals, Nibble(ml)), OffsetBytes(s.offset), Extension(ml);
    var e := SplitSpan(src, a, f, l + o, x);
    var d := SplitSpan(src, a, e, l, o);
    LenientOverLeading(src, a, d, s.literals, Nibble(ml), out, n);
    LenientOverMatch(src, d, e, f, s.offset, ml, out + s.literals, n, ShortcutOpen(src, a, |out|, n));
  }

  lemma {:induction false} LenientOverSequences(src: seq<byte>, a: nat, ss: seq<Sequence>, n: nat)
    requires ValidSequences(ss) && EndRules(ss, n) && Spans(src, 0, a, EncodeSequences(ss))
    ensures Covered(ss) <= n && LenientDecode(src, n) == LenientToken(src, a, Expand(ss), n)
  {
    if ss != [] {
      var b := SplitSpan(src, 0, a, EncodeSequences(Front(ss)), EncodeSequence(Last(ss)));
      LenientOverSequences(src, b, Front(ss), n);
      LenientOverSequence(src, b, a, Last(ss), Expand(Front(ss)), n);
    }
  }

  /** At the token of the last sequence the shortcut is open if the block counts on it. */
  lemma OpenAtLast(src: seq<byte>, p: nat, a: nat, b: Block)
    requires Tolerated(b) && b.sequences != [] && |b.last| < LAST_LITERALS
    requires Spans(src, p, a, EncodeSequence(Last(b.sequences)))
    requires Spans(src, a, |src|, EncodeLiterals(b.last, b.lastLow))
    ensures ShortcutOpen(src, p, Covered(Front(b.sequences)), ContentLength(b))
  {
    var s := Last(b.sequences);
    assert src[p..a][0] == src[p] && src[p..a][0] == Token(Nibble(|s.literals|), Nibble(s.matchLength - MIN_MATCH));
    TokenHalves(Nibble(|s.literals|), Nibble(s.matchLength - MIN_MATCH));
    assert a - p == 3 + |s.literals| && |src| - a == 1 + |b.last|;
  }

  /** Every tolerated block is accepted, as its content. */
  lemma ToleratedDecodes(b: Block)
    requires Tolerated(b)
    ensures LenientDecode(Encode(b), ContentLength(b)) == Ok(Content(b), |Encode(b)|)
  {
    var src, n, ss := Encode(b), ContentLength(b), b.sequences;
    var a := SplitSpan(src, 0, |src|, EncodeSequences(ss), EncodeLiterals(b.last, b.lastLow));
    if ss == [] {
      LenientOverSequences(src, a, ss, n);
    } else {
      var p := SplitSpan(src, 0, a, EncodeSequences(Front(ss)), EncodeSequence(Last(ss)));
      EarlierRules(ss, n);
      LenientOverSequences(src, p, Front(ss), n);
      if |b.last| < LAST_LITERALS { OpenAtLast(src, p, a, b); }
      LenientOverSequence(src, p, a, Last(ss), Expand(Front(ss)), n);
    }
    LenientOverLast(src, a, |src|, b.last, b.lastLow, Expand(ss), n);
  }

  // ----- Whatever is accepted was encoded -----------------------------------

  lemma ParseLenientLiterals(src: seq<byte>, a: nat, out: seq<byte>, n: nat) returns (d: nat, lits: seq<byte>, low: nat)
    requires a <= |src| && |out| <= n && LenientToken(src, a, out, n).Ok?
    ensures a < d && low < 16 && |out + lits| <= n && Spans(src, a, d, EncodeLiterals(lits, low))
    ensures low == src[a] % 16 && src[a] / 16 == Nibble(|lits|)
    ensures n - |out + lits| < MF_LIMIT
            ==> |out + lits| == n && LenientToken(src, a, out, n) == Ok(out + lits, d)
    ensures n - |out + lits| >= MF_LIMIT
            ==> LenientToken(src, a, out, n) == LenientOffset(src, d, low, out + lits, n, ShortcutOpen(src, a, |out|, n))
  {
    low := src[a] % 16;
    var l := ReadLength(src, a + 1, src[a] / 16);
    ReadLengthCanonical(src, a + 1, src[a] / 16);
    d := l.next + l.value;
    lits := src[l.next..d];
    var t := Token(Nibble(|lits|), low);
    assert src[a..a + 1] == [t];
    JoinSpans(src, a, a + 1, l.next, [t], Extension(|lits|));
    JoinSpans(src, a, l.next, d, [t] + Extension(|lits|), lits);
  }

  lemma ParseLenientMatch(src: seq<byte>, d: nat, low: nat, out: seq<byte>, n: nat, short: bool)
    returns (f: nat, offset: nat, ml: nat)
    requires d <= |src| && |out| <= n && low < 16 && LenientOffset(src, d, low, out, n, short).Ok?
    ensures offset <= DISTANCE_MAX && 1 <= offset <= |out| && low == Nibble(ml)
    ensures MayStop(offset, ml, |out| + ml + MIN_MATCH, n, short)
    ensures Spans(src, d, d + 2, OffsetBytes(offset)) && Spans(src, d + 2, f, Extension(ml))
    ensures LenientOffset(src, d, low, out, n, short)
            == LenientToken(src, f, CopyMatch(out, offset, ml + MIN_MATCH), n)
  {
    offset := src[d] as int + 256 * src[d + 1] as int;
    var waived := short && low != 15 && offset >= 8;
    var m := ReadLength(src, d + 2, low);
    ReadLengthCanonical(src, d + 2, low);
    f, ml := m.next, m.value;
    assert LenientOffset(src, d, low, out, n, short) == LenientMatchLength(src, d + 2, low, offset, out, n, waived);
    assert LenientOffset(src, d, low, out, n, short) == LenientCopy(src, f, offset, ml + MIN_MATCH, out, n, waived);
    assert src[d..d + 2] == OffsetBytes(offset);
  }

  lemma ParseLenientSequence(src: seq<byte>, a: nat, d: nat, out: seq<byte>, lits: seq<byte>, low: nat, n: nat, short: bool)
    returns (f: nat, s: Sequence)
    requires |out + lits| + MF_LIMIT <= n && low < 16 && Spans(src, a, d, EncodeLiterals(lits, low))
    requires LenientOffset(src, d, low, out + lits, n, short).Ok?
    ensures s.literals == lits && FitsLoosely(s, |out|, n) && Spans(src, a, f, EncodeSequence(s))
    ensures MayStop(s.offset, s.matchLength - MIN_MATCH, |out| + |lits| + s.matchLength, n, short)
    ensures LenientOffset(src, d, low, out + lits, n, short)
            == LenientToken(src, f, CopyMatch(out + lits, s.offset, s.matchLength), n)
  {
    hide LenientOffset, LenientToken, Extension;
    var offset, ml;
    f, offset, ml := ParseLenientMatch(src, d, low, out + lits, n, short);
    JoinSpans(src, a, d, d + 2, EncodeLiterals(lits, low), OffsetBytes(offset));
    JoinSpans(src, a, d + 2, f, EncodeLiterals(lits, low) + OffsetBytes(offset), Extension(ml));
    s := Sequence(lits, offset, ml + MIN_MATCH);
  }

  lemma AppendLoosely(ss: seq<Sequence>, s: Sequence, n: nat)
    requires ValidSequences(ss) && StartRules(ss, n) && FitsLoosely(s, Covered(ss), n)
    ensures ValidSequences(ss + [s]) && StartRules(ss + [s], n) && Covered(ss + [s]) <= n
    ensures Covered(ss + [s]) == Covered(ss) + |s.literals| + s.matchLength
    ensures EncodeSequences(ss + [s]) == EncodeSequences(ss) + EncodeSequence(s)
    ensures Expand(ss + [s]) == CopyMatch(Expand(ss) + s.literals, s.offset, s.matchLength)
    ensures Last(ss + [s]) == s
  {
    assert Front(ss + [s]) == ss;
  }

  /** After a match that stops late only the last literals can follow. */
  lemma ParseLate(src: seq<byte>, a: nat, f: nat, ss: seq<Sequence>, s: Sequence, n: nat) returns (b: Block)
    requires ValidSequences(ss) && EndRules(ss, n) && Covered(ss) <= n && FitsLoosely(s, Covered(ss), n)
    requires Spans(src, 0, a, EncodeSequences(ss)) && Spans(src, a, f, EncodeSequence(s))
    requires ShortcutOpen(src, a, Covered(ss), n) && s.matchLength < 15 + MIN_MATCH && s.offset >= 8
    requires src[a] / 16 == Nibble(|s.literals|) && Covered(ss) + |s.literals| + s.matchLength + LAST_LITERALS > n
    requires Accepted(src, LenientToken(src, f, CopyMatch(Expand(ss) + s.literals, s.offset, s.matchLength), n))
    ensures Tolerated(b) && ContentLength(b) == n && Encode(b) == src
    ensures LenientToken(src, f, CopyMatch(Expand(ss) + s.literals, s.offset, s.matchLength), n).out == Content(b)
  {
    EndRulesStart(ss, n);
    AppendLoosely(ss, s, n);
    JoinSpans(src, 0, a, f, EncodeSequences(ss), EncodeSequence(s));
    var d, lits, low := ParseLenientLiterals(src, f, Expand(ss + [s]), n);
    b := Block(ss + [s], lits, low);
    JoinSpans(src, 0, f, d, EncodeSequences(ss + [s]), EncodeLiterals(lits, low));
    assert src[0..|src|] == src;
    assert f - a == 3 + |s.literals| && d - f == 1 + |lits|;
  }

  lemma {:induction false} ParseLenientTail(src: seq<byte>, a: nat, ss: seq<Sequence>, n: nat) returns (b: Block)
    requires ValidSequences(ss) && EndRules(ss, n) && Covered(ss) <= n
    requires Spans(src, 0, a, EncodeSequences(ss))
    requires ss != [] ==> Covered(ss) + LAST_LITERALS <= n
    requires Accepted(src, LenientToken(src, a, Expand(ss), n))
    ensures Tolerated(b) && ContentLength(b) == n && Encode(b) == src
    ensures LenientToken(src, a, Expand(ss), n).out == Content(b)
    decreases |src| - a
  {
    var out := Expand(ss);
    var d, lits, low := ParseLenientLiterals(src, a, out, n);
    if n - |out + lits| < MF_LIMIT {
      b := Block(ss, lits, low);
      EndRulesStart(ss, n);
      JoinSpans(src, 0, a, d, EncodeSequences(ss), EncodeLiterals(lits, low));
      assert src[0..|src|] == src;
    } else {
      var f, s := ParseLenientSequence(src, a, d, out, lits, low, n, ShortcutOpen(src, a, |out|, n));
      if Covered(ss) + |lits| + s.matchLength + LAST_LITERALS <= n {
        JoinSpans(src, 0, a, f, EncodeSequences(ss), EncodeSequence(s));
        AppendSequence(ss, s, n);
        b := ParseLenientTail(src, f, ss + [s], n);
      } else {
        b := ParseLate(src, a, f, ss, s, n);
      }
    }
  }

  /** The blocks accepted are exactly the layouts of tolerated blocks. */
  lemma LenientAcceptsIff(src: seq<byte>, n: nat)
    ensures Accepted(src, LenientDecode(src, n)) <==> exists b :: Tolerated(b) && ContentLength(b) == n && Encode(b) == src
    ensures forall b :: Tolerated(b) && ContentLength(b) == n && Encode(b) == src
                        ==> LenientDecode(src, n) == Ok(Content(b), |src|)
  {
    if Accepted(src, LenientDecode(src, n)) {
      var b := ParseLenientTail(src, 0, [], n);
    }
    forall b | Tolerated(b) && ContentLength(b) == n && Encode(b) == src
      ensures LenientDecode(src, n) == Ok(Content(b), |src|)
    {
      ToleratedDecodes(b);
    }
  }

  // ----- What the plain decoder refuses -------------------------------------

  /** The plain decoder refuses a match that stops too late. */
  lemma PlainRefusesMatch(src: seq<byte>, d: nat, e: nat, f: nat, offset: nat, ml: nat, out: seq<byte>, n: nat)
    requires 1 <= offset <= |out| <= n && offset <= DISTANCE_MAX && |out| + ml + MIN_MATCH + LAST_LITERALS > n
    requires Spans(src, d, e, OffsetBytes(offset)) && Spans(src, e, f, Extension(ml))
    ensures DecodeOffset(src, d, Nibble(ml), out, n) == Invalid
  {
    assert src[d..e][0] == src[d] && src[d..e][1] == src[d + 1];
    ReadLengthIff(src, e, ml);
    assert DecodeOffset(src, d, Nibble(ml), out, n) == DecodeMatchLength(src, e, Nibble(ml), offset, out, n);
    assert DecodeOffset(src, d, Nibble(ml), out, n) == DecodeCopy(src, f, offset, ml + MIN_MATCH, out, n);
  }

  lemma PlainRefusesLate(src: seq<byte>, p: nat, a: nat, s: Sequence, out: seq<byte>, n: nat)
    requires FitsLoosely(s, |out|, n) && |out| + |s.literals| + s.matchLength + LAST_LITERALS > n
    requires Spans(src, p, a, EncodeSequence(s))
    ensures DecodeToken(src, p, out, n) == Invalid
  {
    var ml := s.matchLength - MIN_MATCH;
    var l, o, x := EncodeLiterals(s.literals, Nibble(ml)), OffsetBytes(s.offset), Extension(ml);
    var e := SplitSpan(src, p, a, l + o, x);
    var d := SplitSpan(src, p, e, l, o);
    DecodeOverLeading(src, p, d, s.literals, Nibble(ml), out, n);
    PlainRefusesMatch(src, d, e, a, s.offset, ml, out + s.literals, n);
  }

  lemma PlainRefuses(b: Block)
    requires Tolerated(b) && !WellFormed(b)
    ensures Decode(Encode(b), ContentLength(b)) == Invalid
  {
    var src, n, ss := Encode(b), ContentLength(b), b.sequences;
    WellFormedIffTolerated(b);
    var a := SplitSpan(src, 0, |src|, EncodeSequences(ss), EncodeLiterals(b.last, b.lastLow));
    var p := SplitSpan(src, 0, a, EncodeSequences(Front(ss)), EncodeSequence(Last(ss)));
    EarlierRules(ss, n);
    DecodeOverSequences(src, p, Front(ss), n);
    PlainRefusesLate(src, p, a, Last(ss), Expand(Front(ss)), n);
  }

  /** A block is accepted by the optimised decoder alone if and only if it is the layout of a
      tolerated block with fewer than 5 last literals after its last match. */
  lemma AcceptedAloneIff(src: seq<byte>, n: nat)
    ensures Accepted(src, LenientDecode(src, n)) && !Accepted(src, Decode(src, n))
            <==> exists b :: Tolerated(b) && b.sequences != [] && |b.last| < LAST_LITERALS
                             && ContentLength(b) == n && Encode(b) == src
  {
    LenientAcceptsIff(src, n);
    DecodesIffEncoded(src, n);
    if Accepted(src, LenientDecode(src, n)) && !Accepted(src, Decode(src, n)) {
      var b :| Tolerated(b) && ContentLength(b) == n && Encode(b) == src;
      WellFormedIffTolerated(b);
    }
    forall b | Tolerated(b) && b.sequences != [] && |b.last| < LAST_LITERALS && ContentLength(b) == n && Encode(b) == src
      ensures !Accepted(src, Decode(src, n))
    {
      WellFormedIffTolerated(b);
      PlainRefuses(b);
    }
  }
}
