/** Encoding and decoding are inverse: a byte string decodes, using all of it, exactly
    when it is the layout of a well-formed block, and then it yields the block's content. */
module Lz4RoundTrip {
  import opened Bytes
  import opened Lz4Format
  import opened Lz4Decode

  /** `part` fills `src` from position `a` to position `b`. */
  predicate Spans(src: seq<byte>, a: nat, b: nat, part: seq<byte>) {
    a <= b <= |src| && src[a..b] == part
  }

  lemma SplitSpan(src: seq<byte>, a: nat, c: nat, x: seq<byte>, y: seq<byte>) returns (b: nat)
    requires Spans(src, a, c, x + y)
    ensures b == a + |x| && Spans(src, a, b, x) && Spans(src, b, c, y)
  {
    b := a + |x|;
    var w := src[a..c];
    assert w[..|x|] == src[a..b] && w[|x|..] == src[b..c];
  }

  lemma JoinSpans(src: seq<byte>, a: nat, b: nat, c: nat, x: seq<byte>, y: seq<byte>)
    requires Spans(src, a, b, x) && Spans(src, b, c, y)
    ensures Spans(src, a, c, x + y) && c == a + |x| + |y|
  {
    assert src[a..c] == src[a..b] + src[b..c];
  }

  // ----- Decoding what was encoded ------------------------------------------

  /** Decoding over a token and the length that belongs to its upper half. */
  lemma DecodeOverToken(src: seq<byte>, a: nat, b: nat, ll: nat, low: nat, out: seq<byte>, n: nat)
    requires low < 16 && |out| <= n
    requires a < |src| && src[a] == Token(Nibble(ll), low) && Spans(src, a + 1, b, Extension(ll))
    ensures DecodeToken(src, a, out, n) == DecodeLiterals(src, b, low, ll, out, n)
  {
    TokenHalves(Nibble(ll), low);
    ReadLengthIff(src, a + 1, ll);
  }

  lemma SplitLiterals(src: seq<byte>, a: nat, d: nat, lits: seq<byte>, low: nat) returns (c: nat)
    requires low < 16 && Spans(src, a, d, EncodeLiterals(lits, low))
    ensures a < |src| && src[a] == Token(Nibble(|lits|), low)
    ensures Spans(src, a + 1, c, Extension(|lits|)) && Spans(src, c, d, lits)
  {
    var t, e := Token(Nibble(|lits|), low), Extension(|lits|);
    c := SplitSpan(src, a, d, [t] + e, lits);
    var b := SplitSpan(src, a, c, [t], e);
    assert src[a..b][0] == t;
  }

  /** Decoding over the last literal run ends the block. */
  lemma DecodeOverLast(src: seq<byte>, a: nat, d: nat, lits: seq<byte>, low: nat, out: seq<byte>, n: nat)
    requires low < 16 && Spans(src, a, d, EncodeLiterals(lits, low)) && |out| + |lits| == n
    ensures DecodeToken(src, a, out, n) == Ok(out + lits, d)
  {
    var c := SplitLiterals(src, a, d, lits, low);
    DecodeOverToken(src, a, c, |lits|, low, out, n);
  }

  /** Decoding over the literals before a match. */
  lemma DecodeOverLeading(src: seq<byte>, a: nat, d: nat, lits: seq<byte>, low: nat, out: seq<byte>, n: nat)
    requires low < 16 && Spans(src, a, d, EncodeLiterals(lits, low)) && |out| + |lits| + MF_LIMIT <= n
    ensures DecodeToken(src, a, out, n) == DecodeOffset(src, d, low, out + lits, n)
  {
    var c := SplitLiterals(src, a, d, lits, low);
    DecodeOverToken(src, a, c, |lits|, low, out, n);
  }

  /** Decoding over an encoded offset and match length. */
  lemma DecodeOverMatch(src: seq<byte>, d: nat, e: nat, f: nat, offset: nat, ml: nat, out: seq<byte>, n: nat)
    requires 1 <= offset <= |out| && offset <= DISTANCE_MAX
    requires |out| + ml + MIN_MATCH + LAST_LITERALS <= n
    requires Spans(src, d, e, OffsetBytes(offset)) && Spans(src, e, f, Extension(ml))
    ensures DecodeOffset(src, d, Nibble(ml), out, n)
            == DecodeToken(src, f, CopyMatch(out, offset, ml + MIN_MATCH), n)
  {
    assert src[d..e][0] == src[d] && src[d..e][1] == src[d + 1];
    ReadLengthIff(src, e, ml);
    assert DecodeOffset(src, d, Nibble(ml), out, n) == DecodeMatchLength(src, e, Nibble(ml), offset, out, n);
    assert DecodeOffset(src, d, Nibble(ml), out, n) == DecodeCopy(src, f, offset, ml + MIN_MATCH, out, n);
  }

  /** A sequence may follow `covered` bytes in a block of n. */
  predicate Fits(s: Sequence, covered: nat, n: nat) {
    && 1 <= s.offset <= covered + |s.literals| && s.offset <= DISTANCE_MAX && s.matchLength >= MIN_MATCH
    && covered + |s.literals| + MF_LIMIT <= n
    && covered + |s.literals| + s.matchLength + LAST_LITERALS <= n
  }

  /** Decoding over one encoded sequence appends its literals and its match. */
  lemma DecodeOverSequence(src: seq<byte>, a: nat, f: nat, s: Sequence, out: seq<byte>, n: nat)
    requires Fits(s, |out|, n) && Spans(src, a, f, EncodeSequence(s))
    ensures DecodeToken(src, a, out, n)
            == DecodeToken(src, f, CopyMatch(out + s.literals, s.offset, s.matchLength), n)
  {
    var ml := s.matchLength - MIN_MATCH;
    var l, o, x := EncodeLiterals(s.literals, Nibble(ml)), OffsetBytes(s.offset), Extension(ml);
    var e := SplitSpan(src, a, f, l + o, x);
    var d := SplitSpan(src, a, e, l, o);
    DecodeOverLeading(src, a, d, s.literals, Nibble(ml), out, n);
    DecodeOverMatch(src, d, e, f, s.offset, ml, out + s.literals, n);
  }

  lemma AppendSequence(ss: seq<Sequence>, s: Sequence, n: nat)
    requires ValidSequences(ss) && EndRules(ss, n) && Fits(s, Covered(ss), n)
    ensures ValidSequences(ss + [s]) && EndRules(ss + [s], n) && Covered(ss + [s]) <= n
    ensures Covered(ss + [s]) == Covered(ss) + |s.literals| + s.matchLength
    ensures EncodeSequences(ss + [s]) == EncodeSequences(ss) + EncodeSequence(s)
    ensures Expand(ss + [s]) == CopyMatch(Expand(ss) + s.literals, s.offset, s.matchLength)
  {
    assert Front(ss + [s]) == ss;
  }

  lemma {:induction false} DecodeOverSequences(src: seq<byte>, a: nat, ss: seq<Sequence>, n: nat)
    requires ValidSequences(ss) && EndRules(ss, n) && Spans(src, 0, a, EncodeSequences(ss))
    ensures Covered(ss) <= n && Decode(src, n) == DecodeToken(src, a, Expand(ss), n)
  {
    if ss != [] {
      var b := SplitSpan(src, 0, a, EncodeSequences(Front(ss)), EncodeSequence(Last(ss)));
      DecodeOverSequences(src, b, Front(ss), n);
      DecodeOverSequence(src, b, a, Last(ss), Expand(Front(ss)), n);
    }
  }

  /** Decoding a well-formed block gives its content and uses every byte of it. */
  lemma DecodeUndoesEncode(b: Block)
    requires WellFormed(b)
    ensures Decode(Encode(b), ContentLength(b)) == Ok(Content(b), |Encode(b)|)
  {
    var src, n := Encode(b), ContentLength(b);
    var a := SplitSpan(src, 0, |src|, EncodeSequences(b.sequences), EncodeLiterals(b.last, b.lastLow));
    DecodeOverSequences(src, a, b.sequences, n);
    DecodeOverLast(src, a, |src|, b.last, b.lastLow, Expand(b.sequences), n);
  }

  // ----- Whatever decodes was encoded ---------------------------------------

  /** A literal run that decodes is laid out as one. */
  lemma ParseLiterals(src: seq<byte>, a: nat, out: seq<byte>, n: nat) returns (d: nat, lits: seq<byte>, low: nat)
    requires a <= |src| && |out| <= n && DecodeToken(src, a, out, n).Ok?
    ensures a < d && low < 16 && |out + lits| <= n && Spans(src, a, d, EncodeLiterals(lits, low))
    ensures n - |out + lits| < MF_LIMIT
            ==> |out + lits| == n && DecodeToken(src, a, out, n) == Ok(out + lits, d)
    ensures n - |out + lits| >= MF_LIMIT
            ==> DecodeToken(src, a, out, n) == DecodeOffset(src, d, low, out + lits, n)
  {
    low := src[a] % 16;
    var l := ReadLength(src, a + 1, src[a] / 16);
    ReadLengthCanonical(src, a + 1, src[a] / 16);
    d := l.next + l.value;
    lits := src[l.next..d];
    var t := Token(Nibble(|lits|), low);
    assert src[a..a + 1] == [t];
    JoinSpans(src, a, a + 1, l.next, [t], Extension(|lits|));
    JoinSpans(src, a, l.next, d, [t] + Extension(|lits|), lits);
  }

  /** A match that decodes is laid out as one and obeys the rules. */
  lemma ParseMatch(src: seq<byte>, d: nat, low: nat, out: seq<byte>, n: nat) returns (f: nat, offset: nat, ml: nat)
    requires d <= |src| && |out| <= n && low < 16 && DecodeOffset(src, d, low, out, n).Ok?
    ensures offset <= DISTANCE_MAX && 1 <= offset <= |out| && low == Nibble(ml)
    ensures |out| + ml + MIN_MATCH + LAST_LITERALS <= n
    ensures Spans(src, d, d + 2, OffsetBytes(offset)) && Spans(src, d + 2, f, Extension(ml))
    ensures DecodeOffset(src, d, low, out, n)
            == DecodeToken(src, f, CopyMatch(out, offset, ml + MIN_MATCH), n)
  {
    offset := src[d] as int + 256 * src[d + 1] as int;
    var m := ReadLength(src, d + 2, low);
    ReadLengthCanonical(src, d + 2, low);
    f, ml := m.next, m.value;
    assert DecodeOffset(src, d, low, out, n) == DecodeMatchLength(src, d + 2, low, offset, out, n);
    assert DecodeOffset(src, d, low, out, n) == DecodeCopy(src, f, offset, ml + MIN_MATCH, out, n);
    assert src[d..d + 2] == OffsetBytes(offset);
  }

  /** One more sequence read: everything the next step needs to know about it. */
  lemma ParseSequence(src: seq<byte>, a: nat, d: nat, out: seq<byte>, lits: seq<byte>, low: nat, n: nat)
    returns (f: nat, s: Sequence)
    requires |out + lits| + MF_LIMIT <= n && low < 16 && Spans(src, a, d, EncodeLiterals(lits, low))
    requires DecodeOffset(src, d, low, out + lits, n).Ok?
    ensures s.literals == lits && Fits(s, |out|, n) && Spans(src, a, f, EncodeSequence(s))
    ensures DecodeOffset(src, d, low, out + lits, n)
            == DecodeToken(src, f, CopyMatch(out + lits, s.offset, s.matchLength), n)
  {
    var offset, ml;
    f, offset, ml := ParseMatch(src, d, low, out + lits, n);
    JoinSpans(src, a, d, d + 2, EncodeLiterals(lits, low), OffsetBytes(offset));
    JoinSpans(src, a, d + 2, f, EncodeLiterals(lits, low) + OffsetBytes(offset), Extension(ml));
    s := Sequence(lits, offset, ml + MIN_MATCH);
  }

  /** Whatever decodes is the layout of a well-formed block: `ss` has been read so far. */
  lemma {:induction false} ParseTail(src: seq<byte>, a: nat, ss: seq<Sequence>, n: nat) returns (b: Block)
    requires ValidSequences(ss) && EndRules(ss, n) && Covered(ss) <= n
    requires Spans(src, 0, a, EncodeSequences(ss))
    requires DecodeToken(src, a, Expand(ss), n).Ok?
    ensures WellFormed(b) && ContentLength(b) == n
    ensures var r := DecodeToken(src, a, Expand(ss), n);
            r.out == Content(b) && Spans(src, 0, r.used, Encode(b))
    decreases |src| - a
  {
    var out := Expand(ss);
    var d, lits, low := ParseLiterals(src, a, out, n);
    if n - |out + lits| < MF_LIMIT {
      b := Block(ss, lits, low);
      JoinSpans(src, 0, a, d, EncodeSequences(ss), EncodeLiterals(lits, low));
    } else {
      var f, s := ParseSequence(src, a, d, out, lits, low, n);
      JoinSpans(src, 0, a, f, EncodeSequences(ss), EncodeSequence(s));
      AppendSequence(ss, s, n);
      b := ParseTail(src, f, ss + [s], n);
    }
  }

  /** A byte string decodes to n bytes, all of it used, if and only if it is the layout
      of a well-formed block of n bytes. */
  lemma DecodesIffEncoded(src: seq<byte>, n: nat)
    ensures Accepted(src, Decode(src, n))
            <==> exists b :: WellFormed(b) && ContentLength(b) == n && Encode(b) == src
  {
    if Accepted(src, Decode(src, n)) {
      var b := ParseTail(src, 0, [], n);
      assert src[0..|src|] == src;
    }
    forall b | WellFormed(b) && ContentLength(b) == n && Encode(b) == src
      ensures Accepted(src, Decode(src, n))
    {
      DecodeUndoesEncode(b);
    }
  }
}
