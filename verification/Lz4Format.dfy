/** The LZ4 block format: what a list of sequences means, how it is laid out in bytes,
    which blocks are well-formed, and how large they get.
    Lengths, offsets and positions are mathematical integers; the code keeps them
    in 32- or 64-bit variables that its size limit stops from overflowing. */
module Lz4Format {
  import opened Bytes

  const MIN_MATCH := 4
  const LAST_LITERALS := 5
  const MF_LIMIT := 12
  const DISTANCE_MAX := 65535
  const MAX_INPUT_SIZE := 0x7E000000

  // ----- Meaning of a match -------------------------------------------------

  /** The slow match copy: one byte at a time, each taken `offset` bytes back, so
      that a copy longer than its offset repeats what it has just written. */
  function CopyMatch(out: seq<byte>, offset: nat, n: nat): (r: seq<byte>)
    requires 1 <= offset <= |out|
    ensures |r| == |out| + n && r[..|out|] == out
  {
    if n == 0 then out
    else
      var p := CopyMatch(out, offset, n - 1);
      p + [p[|p| - offset]]
  }

  /** Copying is the only way to extend `out` so that every new byte repeats the
      one `offset` places before it. */
  lemma {:induction false} CopyMatchUnique(out: seq<byte>, offset: nat, n: nat, r: seq<byte>)
    requires 1 <= offset <= |out|
    requires |r| == |out| + n && r[..|out|] == out
    requires forall k :: |out| <= k < |r| ==> r[k] == r[k - offset]
    ensures r == CopyMatch(out, offset, n)
  {
    if n == 0 {
      assert r == r[..|out|];
    } else {
      var p := r[..|r| - 1];
      assert p[..|out|] == r[..|out|];
      CopyMatchUnique(out, offset, n - 1, p);
      assert r == p + [r[|r| - 1]];
      assert r[|r| - 1] == r[|r| - 1 - offset] == p[|p| - offset];
    }
  }

  // ----- Chunked copies -----------------------------------------------------

  /** On [from, to) every byte repeats the one `offset` places before it. */
  predicate Periodic(r: seq<byte>, from: nat, to: nat, offset: nat) {
    && offset <= from <= to <= |r|
    && forall k :: from <= k < to ==> r[k] == r[k - offset]
  }

  /** A periodic stretch also repeats at every multiple of its offset. */
  lemma {:induction false} PeriodicBack(r: seq<byte>, from: nat, to: nat, offset: nat, m: nat, k: nat)
    requires Periodic(r, from, to, offset) && offset >= 1
    requires k < to && k - m * offset >= from - offset
    ensures 0 <= k - m * offset && r[k] == r[k - m * offset]
  {
    if m > 0 {
      assert m * offset == (m - 1) * offset + offset;
      var j := k - (m - 1) * offset;
      PeriodicBack(r, from, to, offset, m - 1, k);
      assert r[j] == r[j - offset];
    }
  }

  /** Bytes taken from any multiple of the offset further back continue the period,
      however many of them are copied in one go. */
  lemma {:induction false} ChunkContinuesPeriod(r: seq<byte>, from: nat, to: nat, end: nat, offset: nat, m: nat)
    requires Periodic(r, from, to, offset) && offset >= 1 && m >= 1
    requires to <= end <= |r| && to - m * offset >= from - offset
    requires forall k :: to <= k < end ==> r[k] == r[k - m * offset]
    ensures Periodic(r, from, end, offset)
    decreases end - to
  {
    if to < end {
      assert m * offset == (m - 1) * offset + offset;
      PeriodicBack(r, from, to, offset, m - 1, to - offset);
      ChunkContinuesPeriod(r, from, to + 1, end, offset, m);
    }
  }

  // ----- Sequences and their layout -----------------------------------------

  /** Literals followed by a match. */
  datatype Sequence = Sequence(literals: seq<byte>, offset: nat, matchLength: nat)

  /** A block: sequences, then a last run of literals. The decoders do not look at
      the low half of the last token; the compressor leaves it 0. */
  datatype Block = Block(sequences: seq<Sequence>, last: seq<byte>, lastLow: nat)

  function Covered(ss: seq<Sequence>): (r: nat) {
    if ss == [] then 0
    else Covered(Front(ss)) + |Last(ss).literals| + Last(ss).matchLength
  }

  /** Every match reaches back into bytes that exist, at most 65535 of them. */
  predicate ValidSequences(ss: seq<Sequence>) {
    ss == [] ||
    (&& ValidSequences(Front(ss))
     && 1 <= Last(ss).offset <= Covered(Front(ss)) + |Last(ss).literals|
     && Last(ss).offset <= DISTANCE_MAX
     && Last(ss).matchLength >= MIN_MATCH)
  }

  /** The end-of-block rules for a block of n bytes: a match starts at least 12 and
      stops at least 5 bytes before the end. */
  predicate EndRules(ss: seq<Sequence>, n: nat) {
    ss == [] ||
    (&& EndRules(Front(ss), n)
     && Covered(Front(ss)) + |Last(ss).literals| + MF_LIMIT <= n
     && Covered(ss) + LAST_LITERALS <= n)
  }

  /** The i-th sequence of a block of n bytes, in numbers: an offset of two bytes that stays
      inside the output, a match of at least 4 bytes that starts at least 12 and stops at least
      5 bytes before the end. */
  predicate InNumbers(ss: seq<Sequence>, i: nat, n: nat)
    requires i < |ss|
  {
    var start := Covered(ss[..i]) + |ss[i].literals|;
    && 1 <= ss[i].offset <= start && ss[i].offset <= 65535 && ss[i].matchLength >= 4
    && start + 12 <= n && start + ss[i].matchLength + 5 <= n
  }

  lemma {:induction false} RulesInNumbers(ss: seq<Sequence>, n: nat)
    ensures ValidSequences(ss) && EndRules(ss, n) <==> forall i :: 0 <= i < |ss| ==> InNumbers(ss, i, n)
  {
    if ss != [] {
      RulesInNumbers(Front(ss), n);
      forall i | 0 <= i < |ss| - 1
        ensures InNumbers(Front(ss), i, n) == InNumbers(ss, i, n)
      {
        assert Front(ss)[..i] == ss[..i];
      }
      assert InNumbers(ss, |ss| - 1, n) <==>
               && 1 <= Last(ss).offset <= Covered(Front(ss)) + |Last(ss).literals| && Last(ss).offset <= DISTANCE_MAX
               && Last(ss).matchLength >= MIN_MATCH && Covered(Front(ss)) + |Last(ss).literals| + MF_LIMIT <= n
               && Covered(ss) + LAST_LITERALS <= n;
    }
  }

  function Expand(ss: seq<Sequence>): (r: seq<byte>)
    requires ValidSequences(ss)
    ensures |r| == Covered(ss)
  {
    if ss == [] then []
    else CopyMatch(Expand(Front(ss)) + Last(ss).literals, Last(ss).offset, Last(ss).matchLength)
  }

  predicate WellFormed(b: Block) {
    && ValidSequences(b.sequences)
    && EndRules(b.sequences, ContentLength(b))
    && b.lastLow < 16
  }

  function ContentLength(b: Block): (r: nat) { Covered(b.sequences) + |b.last| }

  function Content(b: Block): (r: seq<byte>)
    requires ValidSequences(b.sequences)
    ensures |r| == ContentLength(b)
  { Expand(b.sequences) + b.last }

  /** A length beyond 15: bytes of 255, then one smaller byte. */
  function LengthBytes(n: nat): (r: seq<byte>)
    ensures |r| >= 1
  {
    if n < 255 then [n] else [255] + LengthBytes(n - 255)
  }

  function Nibble(n: nat): (r: nat)
    ensures r < 16
  { if n < 15 then n else 15 }

  function Extension(n: nat): (r: seq<byte>)
  { if n < 15 then [] else LengthBytes(n - 15) }

  function Token(hi: nat, lo: nat): (r: byte)
    requires hi < 16 && lo < 16
  { hi * 16 + lo }

  lemma TokenHalves(hi: nat, lo: nat)
    requires hi < 16 && lo < 16
    ensures Token(hi, lo) / 16 == hi && Token(hi, lo) % 16 == lo
  {
  }

  /** The two bytes of a little-endian 16-bit offset. */
  function OffsetBytes(offset: nat): (r: seq<byte>)
    requires offset <= DISTANCE_MAX
    ensures |r| == 2
  { [offset % 256, offset / 256] }

  function EncodeLiterals(literals: seq<byte>, low: nat): (r: seq<byte>)
    requires low < 16
    ensures |r| == 1 + |Extension(|literals|)| + |literals|
  {
    [Token(Nibble(|literals|), low)] + Extension(|literals|) + literals
  }

  function EncodeSequence(s: Sequence): (r: seq<byte>)
    requires s.offset <= DISTANCE_MAX && s.matchLength >= MIN_MATCH
    ensures |r| == 3 + |Extension(|s.literals|)| + |s.literals| + |Extension(s.matchLength - MIN_MATCH)|
  {
    EncodeLiterals(s.literals, Nibble(s.matchLength - MIN_MATCH))
    + OffsetBytes(s.offset)
    + Extension(s.matchLength - MIN_MATCH)
  }

  function EncodeSequences(ss: seq<Sequence>): (r: seq<byte>)
    requires ValidSequences(ss)
  {
    if ss == [] then [] else EncodeSequences(Front(ss)) + EncodeSequence(Last(ss))
  }

  function Encode(b: Block): (r: seq<byte>)
    requires ValidSequences(b.sequences) && b.lastLow < 16
  {
    EncodeSequences(b.sequences) + EncodeLiterals(b.last, b.lastLow)
  }

  // ----- Worst-case size ----------------------------------------------------

  /** The most bytes a block of n bytes can need. */
  function CompressBound(n: int): (r: int) {
    if n < 0 || n > MAX_INPUT_SIZE then 0 else n + n / 255 + 16
  }

  lemma {:induction false} LengthBytesSize(n: nat)
    ensures |LengthBytes(n)| == n / 255 + 1
  {
    if n >= 255 {
      LengthBytesSize(n - 255);
    }
  }

  lemma ExtensionSize(n: nat)
    ensures 255 * |Extension(n)| <= if n < 15 then 0 else n + 240
  {
    if n >= 15 {
      LengthBytesSize(n - 15);
    }
  }

  /** A sequence takes at most 256/255 of the bytes it stands for. */
  lemma SequenceSize(s: Sequence)
    requires s.offset <= DISTANCE_MAX && s.matchLength >= MIN_MATCH
    ensures 255 * |EncodeSequence(s)| <= 256 * (|s.literals| + s.matchLength)
  {
    ExtensionSize(|s.literals|);
    ExtensionSize(s.matchLength - MIN_MATCH);
  }

  lemma {:induction false} SequencesSize(ss: seq<Sequence>)
    requires ValidSequences(ss)
    ensures 255 * |EncodeSequences(ss)| <= 256 * Covered(ss)
  {
    if ss != [] {
      SequencesSize(Front(ss));
      SequenceSize(Last(ss));
    }
  }

  /** No choice of matches makes a block larger than the bound, and the bound fits
      in a signed 32-bit integer. */
  lemma WorstCaseSize(b: Block)
    requires ValidSequences(b.sequences) && b.lastLow < 16
    requires ContentLength(b) <= MAX_INPUT_SIZE
    ensures |Encode(b)| <= CompressBound(ContentLength(b)) < 0x8000_0000
    ensures var n := ContentLength(b); CompressBound(n) == n + n / 255 + 16
  {
    SequencesSize(b.sequences);
    ExtensionSize(|b.last|);
  }
}
