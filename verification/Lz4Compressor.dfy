/** The greedy compressor's main loop. Whatever the hash function, its output is a
    well-formed block for the input, no longer than the bound. */
module Lz4Compressor {
  import opened Bytes
  import opened Lz4Format
  import opened Lz4Decode
  import opened Lz4RoundTrip
  import opened Lz4Search
  import opened Lz4Greedy
  import opened Lz4Writer

  /** Every match of a block is as long as it can be, in both directions. */
  predicate AllMaximal(src: seq<byte>, ss: seq<Sequence>) {
    ss == [] ||
    (&& AllMaximal(src, Front(ss))
     && LeftMaximal(src, Covered(Front(ss)), Covered(Front(ss)) + |Last(ss).literals|, Last(ss).offset)
     && RightMaximal(src, Covered(ss), Last(ss).offset))
  }

  /** `ss` covers the input up to `anchor`, and `out` is its layout. */
  ghost predicate Emitted(src: seq<byte>, anchor: nat, out: seq<byte>, ss: seq<Sequence>) {
    && anchor <= |src| && ValidSequences(ss) && EndRules(ss, |src|)
    && Expand(ss) == src[..anchor] && out == EncodeSequences(ss)
  }

  lemma NothingEmitted(src: seq<byte>, out: seq<byte>)
    requires out == []
    ensures Emitted(src, 0, out, []) && AllMaximal(src, [])
  {
    assert src[..0] == [];
  }

  /** One more sequence: literals from `anchor` to `ip`, then a match up to `e`. */
  lemma EmitSequence(src: seq<byte>, anchor: nat, ip: nat, e: nat, offset: nat, out: seq<byte>, ss: seq<Sequence>)
    requires Emitted(src, anchor, out, ss) && anchor <= ip && ip + MIN_MATCH <= e
    requires 1 <= offset <= DISTANCE_MAX && ip + MF_LIMIT <= |src| && e + LAST_LITERALS <= |src|
    requires Repeats(src, ip, e, offset)
    ensures var s := Sequence(src[anchor..ip], offset, e - ip);
            Emitted(src, e, out + EncodeSequence(s), ss + [s])
  {
    var s := Sequence(src[anchor..ip], offset, e - ip);
    assert |Expand(ss)| == |src[..anchor]|;
    assert CopyMatch(src[..anchor] + s.literals, s.offset, s.matchLength) == src[..e] by {
      MatchContent(src, anchor, ip, e, s);
    }
    EmitAppended(src, e, s, out, ss, src[..anchor]);
  }

  lemma EmitAppended(src: seq<byte>, e: nat, s: Sequence, out: seq<byte>, ss: seq<Sequence>, covered: seq<byte>)
    requires ValidSequences(ss) && EndRules(ss, |src|) && Expand(ss) == covered && out == EncodeSequences(ss)
    requires Fits(s, |covered|, |src|) && e <= |src|
    ensures CopyMatch(covered + s.literals, s.offset, s.matchLength) == src[..e]
            ==> Emitted(src, e, out + EncodeSequence(s), ss + [s])
  {
    AppendSequence(ss, s, |src|);
  }

  lemma EmittedCovers(src: seq<byte>, anchor: nat, out: seq<byte>, ss: seq<Sequence>)
    requires Emitted(src, anchor, out, ss)
    ensures Covered(ss) == anchor
  {
    hide EncodeSequences;
    assert |src[..anchor]| == anchor;
  }

  lemma MaximalAppended(src: seq<byte>, ss: seq<Sequence>, s: Sequence, anchor: nat, ip: nat, e: nat)
    requires Covered(ss) == anchor <= ip <= e <= |src| && AllMaximal(src, ss)
    requires s.literals == src[anchor..ip] && s.matchLength == e - ip
    requires LeftMaximal(src, anchor, ip, s.offset) && RightMaximal(src, e, s.offset)
    ensures AllMaximal(src, ss + [s])
  {
    hide LeftMaximal, RightMaximal;
    assert Front(ss + [s]) == ss && Last(ss + [s]) == s;
    assert Covered(ss + [s]) == e;
  }

  lemma MatchContent(src: seq<byte>, anchor: nat, ip: nat, e: nat, s: Sequence)
    requires anchor <= ip && 1 <= s.offset && Repeats(src, ip, e, s.offset)
    requires s.literals == src[anchor..ip] && s.matchLength == e - ip
    ensures CopyMatch(src[..anchor] + s.literals, s.offset, s.matchLength) == src[..e]
  {
    assert src[..anchor] + src[anchor..ip] == src[..ip];
    assert src[..e][..ip] == src[..ip];
    RepeatsIffPeriodic(src, ip, e, s.offset);
    CopyMatchUnique(src[..ip], s.offset, e - ip, src[..e]);
  }

  /** The bound leaves room for everything the next sequence writes, overshoot included. */
  lemma RoomForSequence(src: seq<byte>, anchor: nat, ip: nat, e: nat, out: seq<byte>, ss: seq<Sequence>, capacity: nat)
    requires Emitted(src, anchor, out, ss) && capacity >= CompressBound(|src|) && |src| <= MAX_INPUT_SIZE
    requires anchor <= ip && ip + MIN_MATCH <= e && ip + MF_LIMIT <= |src| && e + LAST_LITERALS <= |src|
    ensures var l := |EncodeLiterals(src[anchor..ip], 0)|;
            && |out| + l + 8 <= capacity
            && |out| + l + 2 + |Extension(e - ip - MIN_MATCH)| + 3 <= capacity
  {
    SequencesSize(ss);
    assert |src[anchor..ip]| == ip - anchor && |src[..anchor]| == anchor;
    RoomArithmetic(anchor, ip, e, |src|, |out|, capacity);
  }

  lemma RoomArithmetic(anchor: nat, ip: nat, e: nat, n: nat, op: nat, capacity: nat)
    requires 255 * op <= 256 * anchor && capacity >= CompressBound(n) && n <= MAX_INPUT_SIZE
    requires anchor <= ip && ip + MIN_MATCH <= e && ip + MF_LIMIT <= n && e + LAST_LITERALS <= n
    ensures var l := 1 + |Extension(ip - anchor)| + (ip - anchor);
            op + l + 8 <= capacity && op + l + 2 + |Extension(e - ip - MIN_MATCH)| + 3 <= capacity
  {
    ExtensionSize(ip - anchor);
    ExtensionSize(e - ip - MIN_MATCH);
    assert 255 * CompressBound(n) >= 256 * n + 3826;
  }

  /** What the sequence for a match at ip makes of the block, and the room there is for it. */
  lemma MatchEmitted(src: seq<byte>, anchor: nat, ip: nat, filled: nat, offset: nat, e: nat, out: seq<byte>,
                     ss: seq<Sequence>, capacity: nat)
    requires capacity >= CompressBound(|src|) && |src| <= MAX_INPUT_SIZE
    requires Emitted(src, anchor, out, ss) && AllMaximal(src, ss) && Pending(src, anchor, ip, filled, offset)
    requires e == RightEnd(src, filled + 4, offset) && Repeats(src, ip, e, offset) && RightMaximal(src, e, offset)
    ensures var s := MatchSequence(src, anchor, ip, filled, offset);
            Emitted(src, e, out + EncodeSequence(s), ss + [s]) && AllMaximal(src, ss + [s])
    ensures |out| + |EncodeLiterals(src[anchor..ip], 0)| + 2 + |Extension(e - ip - MIN_MATCH)| + 3 <= capacity
  {
    hide EncodeLiterals, EncodeSequence, Extension, CompressBound, RightEnd, Emitted, AllMaximal, LeftMaximal, Repeats;
    RoomForSequence(src, anchor, ip, e, out, ss, capacity);
    EmitSequence(src, anchor, ip, e, offset, out, ss);
    EmittedCovers(src, anchor, out, ss);
    MaximalAppended(src, ss, MatchSequence(src, anchor, ip, filled, offset), anchor, ip, e);
  }

  /** From `_next_match`: the match at ip is written out. It ends beyond every position the
      table holds, `filled` being the last of them. */
  method EncodeMatch(src: seq<byte>, dst: array<byte>, anchor: nat, ip: nat, ghost filled: nat, offset: nat,
                     token: nat, op0: nat, ghost ss: seq<Sequence>)
    returns (op: nat, e: nat, ghost ss': seq<Sequence>)
    requires dst.Length >= CompressBound(|src|) && |src| <= MAX_INPUT_SIZE
    requires token < op0 <= dst.Length && Emitted(src, anchor, dst[..token], ss) && AllMaximal(src, ss)
    requires Pending(src, anchor, ip, filled, offset)
    requires dst[token..op0] == EncodeLiterals(src[anchor..ip], 0)
    modifies dst
    ensures op <= dst.Length && Emitted(src, e, dst[..op], ss') && AllMaximal(src, ss')
    ensures e == RightEnd(src, filled + 4, offset) && filled + 4 <= e && e + LAST_LITERALS <= |src|
    ensures ss' == ss + [MatchSequence(src, anchor, ip, filled, offset)]
    ensures op >= op0 + 2 && forall k :: op + 3 <= k < dst.Length ==> dst[k] == old(dst[k])
  {
    hide Emitted, AllMaximal, CompressBound, RightEnd, LeftMaximal, EncodeLiterals, EncodeSequence, Extension;
    e := MatchEnd(src, anchor, ip, filled, offset);
    var matchCode: nat := e - ip - MIN_MATCH;
    ghost var out, lits := dst[..token], src[anchor..ip];
    MatchEmitted(src, anchor, ip, filled, offset, e, out, ss, dst.Length);
    assert |dst[token..op0]| == op0 - token;
    ss' := ss + [MatchSequence(src, anchor, ip, filled, offset)];
    op := WriteMatch(dst, token, op0, lits, offset, matchCode);
  }

  /** A sequence without literals. */
  method StartEmptySequence(src: seq<byte>, dst: array<byte>, ghost anchor: nat, op0: nat, ghost ss: seq<Sequence>)
    returns (op: nat)
    requires dst.Length >= CompressBound(|src|) && |src| <= MAX_INPUT_SIZE && anchor + MF_LIMIT <= |src|
    requires op0 <= dst.Length && Emitted(src, anchor, dst[..op0], ss)
    modifies dst
    ensures op == op0 + 1 <= dst.Length && dst[..op0] == old(dst[..op0])
    ensures dst[op0..op] == EncodeLiterals(src[anchor..anchor], 0)
    ensures forall k :: op <= k < dst.Length ==> dst[k] == old(dst[k])
  {
    RoomForSequence(src, anchor, anchor, anchor + MIN_MATCH, dst[..op0], ss, dst.Length);
    assert src[anchor..anchor] == [];
    WriteEmptyToken(dst, op0);
    op := op0 + 1;
  }

  /** One match, and the start of the next if it follows directly. */
  method EncodeNext(src: seq<byte>, dst: array<byte>, table: array<nat>, hash: nat -> nat, t: TableType,
                    ghost acceleration: nat, anchor0: nat, ip: nat, ghost filled: nat, offset0: nat, token: nat, op0: nat,
                    ghost ss0: seq<Sequence>)
    returns (more: bool, op: nat, anchor: nat, offset: nat, ghost ss: seq<Sequence>)
    requires dst.Length >= CompressBound(|src|) && Ready(src, hash, t, acceleration, table[..])
    requires Below(table[..], filled + 1) && table as object != dst as object
    requires token < op0 <= dst.Length && Emitted(src, anchor0, dst[..token], ss0) && AllMaximal(src, ss0)
    requires Pending(src, anchor0, ip, filled, offset0) && dst[token..op0] == EncodeLiterals(src[anchor0..ip], 0)
    modifies dst, table
    ensures op0 + 2 <= op <= dst.Length && filled + 4 <= anchor && ip < anchor && anchor + LAST_LITERALS <= |src|
    ensures Emitted(src, anchor, dst[..op], ss) && AllMaximal(src, ss) && Below(table[..], anchor + 1)
    ensures more ==> Pending(src, anchor, anchor, anchor, offset)
    ensures ss0 + FromMatch(src, hash, t, acceleration, old(table[..]), anchor0, ip, filled, offset0)
            == ss + if more then FromMatch(src, hash, t, acceleration, table[..], anchor, anchor, anchor, offset)
                    else StillToFind(src, hash, t, acceleration, table[..], anchor)
    ensures forall k :: op + 6 <= k < dst.Length ==> dst[k] == old(dst[k])
  {
    hide Candidate, RightEnd, Emitted, EncodeLiterals, CompressBound, FromMatch, RestAfter, StillToFind, AllMaximal;
    hide Usable, HashFits, MatchSequence;
    ghost var tried := table[..];
    FromMatchSplits(src, hash, t, acceleration, tried, anchor0, ip, filled, offset0, ss0);
    op, anchor, ss := EncodeMatch(src, dst, anchor0, ip, filled, offset0, token, op0, ss0);
    more, offset := false, 0;
    if anchor >= |src| - MF_LIMIT + 1 {
      NothingLeft(src, hash, t, acceleration, tried, anchor);
    } else {
      more, offset := TestNextPosition(src, table, hash, t, anchor);
      RestTried(src, hash, t, acceleration, tried, anchor, table[..], more, offset);
    }
  }

  /** A match and all matches that directly follow it. */
  method EncodeMatches(src: seq<byte>, dst: array<byte>, table: array<nat>, hash: nat -> nat, t: TableType,
                       ghost acceleration: nat, anchor0: nat, ip0: nat, ghost filled0: nat, offset0: nat, token0: nat,
                       op0: nat, ghost ss0: seq<Sequence>)
    returns (op: nat, anchor: nat, ghost ss: seq<Sequence>)
    requires dst.Length >= CompressBound(|src|) && Ready(src, hash, t, acceleration, table[..])
    requires Below(table[..], filled0 + 1) && table as object != dst as object
    requires token0 < op0 <= dst.Length && Emitted(src, anchor0, dst[..token0], ss0) && AllMaximal(src, ss0)
    requires Pending(src, anchor0, ip0, filled0, offset0)
    requires dst[token0..op0] == EncodeLiterals(src[anchor0..ip0], 0)
    modifies dst, table
    ensures op <= dst.Length && Emitted(src, anchor, dst[..op], ss) && AllMaximal(src, ss) && anchor > filled0
    ensures anchor + LAST_LITERALS <= |src| && Below(table[..], anchor + 1)
    ensures ss + StillToFind(src, hash, t, acceleration, table[..], anchor)
            == ss0 + FromMatch(src, hash, t, acceleration, old(table[..]), anchor0, ip0, filled0, offset0)
    ensures op >= op0 + 2 && forall k :: op + 6 <= k < dst.Length ==> dst[k] == old(dst[k])
  {
    hide Emitted, EncodeLiterals, CompressBound, FromMatch, StillToFind, AllMaximal;
    ghost var whole := ss0 + FromMatch(src, hash, t, acceleration, table[..], anchor0, ip0, filled0, offset0);
    var more, offset;
    more, op, anchor, offset, ss :=
      EncodeNext(src, dst, table, hash, t, acceleration, anchor0, ip0, filled0, offset0, token0, op0, ss0);
    while more
      invariant op0 + 2 <= op <= dst.Length && Emitted(src, anchor, dst[..op], ss) && AllMaximal(src, ss)
      invariant filled0 < anchor && anchor + LAST_LITERALS <= |src| && Below(table[..], anchor + 1)
      invariant more ==> Pending(src, anchor, anchor, anchor, offset)
      invariant whole == ss + if more then FromMatch(src, hash, t, acceleration, table[..], anchor, anchor, anchor, offset)
                              else StillToFind(src, hash, t, acceleration, table[..], anchor)
      invariant forall k :: op + 6 <= k < dst.Length ==> dst[k] == old(dst[k])
      decreases if more then 1 + |src| - anchor else 0
    {
      var token := op;
      op := StartEmptySequence(src, dst, anchor, token, ss);
      more, op, anchor, offset, ss :=
        EncodeNext(src, dst, table, hash, t, acceleration, anchor, anchor, anchor, offset, token, op, ss);
    }
  }

  /** The last literals finish the block. */
  method EncodeLast(src: seq<byte>, dst: array<byte>, anchor: nat, op0: nat, ghost ss: seq<Sequence>)
    returns (op: nat, ghost b: Block)
    requires dst.Length >= CompressBound(|src|) && |src| <= MAX_INPUT_SIZE
    requires op0 <= dst.Length && Emitted(src, anchor, dst[..op0], ss)
    modifies dst
    ensures op <= dst.Length && op >= op0 + 1 + (|src| - anchor)
    ensures WellFormed(b) && Content(b) == src && dst[..op] == Encode(b)
    ensures b == Block(ss, src[anchor..], 0) && anchor == Covered(ss)
    ensures forall k :: op <= k < dst.Length ==> dst[k] == old(dst[k])
  {
    b := Block(ss, src[anchor..], 0);
    EmittedCovers(src, anchor, dst[..op0], ss);
    assert src[..anchor] + src[anchor..] == src;
    WorstCaseSize(b);
    op := WriteLast(dst, op0, src, anchor);
  }

  /** Backs a found match up to its first position and writes the literals before it. */
  method StartSequence(src: seq<byte>, dst: array<byte>, anchor: nat, filled: nat, offset: nat, op0: nat,
                       ghost ss: seq<Sequence>)
    returns (op: nat, ip: nat)
    requires dst.Length >= CompressBound(|src|) && |src| <= MAX_INPUT_SIZE
    requires op0 <= dst.Length && Emitted(src, anchor, dst[..op0], ss)
    requires anchor < filled && Usable(src, filled, offset)
    modifies dst
    ensures op0 < op <= dst.Length && dst[..op0] == old(dst[..op0])
    ensures ip == LeftEnd(src, anchor, filled, offset)
    ensures Pending(src, anchor, ip, filled, offset)
    ensures dst[op0..op] == EncodeLiterals(src[anchor..ip], 0)
    ensures forall k :: op + 8 <= k < dst.Length ==> dst[k] == old(dst[k])
  {
    ip := CatchUp(src, filled, offset, anchor);
    RoomForSequence(src, anchor, ip, ip + MIN_MATCH, dst[..op0], ss, dst.Length);
    op := WriteLiterals(dst, op0, src, anchor, ip);
  }

  /** From a match found at `filled` to the end of the last match that follows from it. */
  method EncodeFrom(src: seq<byte>, dst: array<byte>, table: array<nat>, hash: nat -> nat, t: TableType,
                    ghost acceleration: nat, anchor0: nat, filled: nat, offset: nat, op0: nat, ghost ss0: seq<Sequence>)
    returns (op: nat, anchor: nat, ghost ss: seq<Sequence>)
    requires dst.Length >= CompressBound(|src|) && Ready(src, hash, t, acceleration, table[..])
    requires Below(table[..], filled + 1) && table as object != dst as object
    requires op0 <= dst.Length && Emitted(src, anchor0, dst[..op0], ss0) && AllMaximal(src, ss0)
    requires anchor0 < filled && Usable(src, filled, offset)
    requires Pending(src, anchor0, LeftEnd(src, anchor0, filled, offset), filled, offset)
    modifies dst, table
    ensures op <= dst.Length && Emitted(src, anchor, dst[..op], ss) && AllMaximal(src, ss) && anchor0 < anchor
    ensures filled < anchor && anchor + LAST_LITERALS <= |src| && Below(table[..], anchor + 1)
    ensures ss + StillToFind(src, hash, t, acceleration, table[..], anchor)
            == ss0 + FromMatch(src, hash, t, acceleration, old(table[..]), anchor0,
                               LeftEnd(src, anchor0, filled, offset), filled, offset)
    ensures op >= op0 && forall k :: op + 6 <= k < dst.Length ==> dst[k] == old(dst[k])
  {
    var op1, ip := StartSequence(src, dst, anchor0, filled, offset, op0, ss0);
    op, anchor, ss := EncodeMatches(src, dst, table, hash, t, acceleration, anchor0, ip, filled, offset, op0, op1, ss0);
  }

  /** One search, and all that follows directly from what it finds. */
  method EncodeRound(src: seq<byte>, dst: array<byte>, table: array<nat>, hash: nat -> nat, t: TableType,
                     acceleration: nat, anchor0: nat, ip: nat, forwardH: nat, op0: nat, ghost ss0: seq<Sequence>)
    returns (found: bool, op: nat, anchor: nat, ghost ss: seq<Sequence>)
    requires dst.Length >= CompressBound(|src|) && Ready(src, hash, t, acceleration, table[..])
    requires anchor0 < ip && ip + 11 <= |src| && Below(table[..], ip) && table as object != dst as object
    requires op0 <= dst.Length && Emitted(src, anchor0, dst[..op0], ss0) && AllMaximal(src, ss0)
    requires forwardH == HashPosition(src, ip, hash, t)
    modifies dst, table
    ensures op0 <= op <= dst.Length && Emitted(src, anchor, dst[..op], ss) && AllMaximal(src, ss)
    ensures found ==> ip < anchor && anchor + LAST_LITERALS <= |src| && Below(table[..], anchor + 1)
    ensures found ==> ss + StillToFind(src, hash, t, acceleration, table[..], anchor)
                      == ss0 + SearchFrom(src, hash, t, acceleration, old(table[..]), anchor0, ip)
    ensures !found ==> && op == op0 && anchor == anchor0
                       && ss == ss0 == ss0 + SearchFrom(src, hash, t, acceleration, old(table[..]), anchor0, ip)
    ensures forall k :: op + 6 <= k < dst.Length ==> dst[k] == old(dst[k])
  {
    hide SearchFrom, FromMatch, Probe, LeftEnd, Emitted, AllMaximal, CompressBound, StillToFind, HashFits;
    ghost var before := table[..];
    var filled, offset;
    found, filled, offset := FindMatch(src, table, hash, t, ip, forwardH, acceleration);
    SearchFound(src, hash, t, acceleration, before, anchor0, ip, found, filled, offset, table[..]);
    if found {
      op, anchor, ss := EncodeFrom(src, dst, table, hash, t, acceleration, anchor0, filled, offset, op0, ss0);
    } else {
      op, anchor, ss := op0, anchor0, ss0;
      assert ss0 + [] == ss0;
    }
  }

  /** Round after round, until nothing is found or the end is too near. */
  method EncodeRounds(src: seq<byte>, dst: array<byte>, table: array<nat>, hash: nat -> nat, t: TableType,
                      acceleration: nat)
    returns (op: nat, anchor: nat, ghost ss: seq<Sequence>)
    requires dst.Length >= CompressBound(|src|) && Ready(src, hash, t, acceleration, table[..])
    requires |src| >= 13 && Below(table[..], 1) && table as object != dst as object
    modifies dst, table
    ensures op <= dst.Length && Emitted(src, anchor, dst[..op], ss) && AllMaximal(src, ss)
    ensures ss == SearchFrom(src, hash, t, acceleration, old(table[..]), 0, 1)
    ensures anchor + LAST_LITERALS <= |src|
    ensures forall k :: op + 6 <= k < dst.Length ==> dst[k] == old(dst[k])
  {
    hide SearchFrom, Emitted, AllMaximal, CompressBound, HashFits, StillToFind;
    op, anchor, ss := 0, 0, [];
    NothingEmitted(src, dst[..0]);
    ghost var whole := SearchFrom(src, hash, t, acceleration, table[..], 0, 1);
    NothingFirst([], whole);
    Searching(src, hash, t, acceleration, table[..], 0);
    var found := true;
    while found && anchor < |src| - MF_LIMIT + 1
      invariant op <= dst.Length && Emitted(src, anchor, dst[..op], ss) && AllMaximal(src, ss)
      invariant anchor + LAST_LITERALS <= |src| && (found ==> Below(table[..], anchor + 1))
      invariant found ==> ss + StillToFind(src, hash, t, acceleration, table[..], anchor) == whole
      invariant !found ==> ss == whole
      invariant forall k :: op + 6 <= k < dst.Length ==> dst[k] == old(dst[k])
      decreases found, |src| - anchor
    {
      var ip := anchor + 1;
      var forwardH := HashPosition(src, ip, hash, t);
      Searching(src, hash, t, acceleration, table[..], anchor);
      found, op, anchor, ss := EncodeRound(src, dst, table, hash, t, acceleration, anchor, ip, forwardH, op, ss);
    }
    if found { Searching(src, hash, t, acceleration, table[..], anchor); }
    assert ss + [] == ss;
  }

  /** The main loop, up to the last literals, from a cleared table that holds the first position. */
  method EncodeAll(src: seq<byte>, dst: array<byte>, hash: nat -> nat, t: TableType, acceleration: nat)
    returns (op: nat, anchor: nat, ghost ss: seq<Sequence>)
    requires 13 <= |src| <= MAX_INPUT_SIZE && dst.Length >= CompressBound(|src|)
    requires (t == ByU16 ==> |src| < LIMIT_64K) && HashFits(hash, t) && acceleration >= 1
    modifies dst
    ensures op <= dst.Length && Emitted(src, anchor, dst[..op], ss) && AllMaximal(src, ss)
    ensures ss == SearchFrom(src, hash, t, acceleration, seq(TableSize(t), _ => 0), 0, 1)
    ensures anchor + LAST_LITERALS <= |src|
    ensures forall k :: op + 6 <= k < dst.Length ==> dst[k] == old(dst[k])
  {
    hide SearchFrom, Emitted, AllMaximal, CompressBound;
    var table := new nat[TableSize(t)](_ => 0);
    table[HashPosition(src, 0, hash, t)] := 0;
    ghost var start: seq<nat> := seq(TableSize(t), _ => 0);
    assert table[..] == start;
    op, anchor, ss := EncodeRounds(src, dst, table, hash, t, acceleration);
  }

  /** LZ4_compress_generic_validated with unlimited output, no dictionary and a cleared
      table. The output is a well-formed block for the input, each of its matches as long as
      it can be, and no byte after it is touched, overshooting writes included. */
  method CompressValidated(src: seq<byte>, dst: array<byte>, hash: nat -> nat, t: TableType, acceleration: nat)
    returns (size: nat, ghost b: Block)
    requires 1 <= |src| <= MAX_INPUT_SIZE && dst.Length >= CompressBound(|src|)
    requires (t == ByU16 ==> |src| < LIMIT_64K) && HashFits(hash, t) && acceleration >= 1
    modifies dst
    ensures b == GreedyBlock(src, hash, t, acceleration)
    ensures 0 < size <= dst.Length && WellFormed(b) && b.lastLow == 0
    ensures Content(b) == src && dst[..size] == Encode(b) && AllMaximal(src, b.sequences)
    ensures forall k :: size <= k < dst.Length ==> dst[k] == old(dst[k])
  {
    var anchor: nat, op: nat := 0, 0;
    ghost var ss: seq<Sequence> := [];
    assert dst[..0] == [] == src[..0];
    if |src| >= MF_LIMIT + 1 {
      op, anchor, ss := EncodeAll(src, dst, hash, t, acceleration);
    }
    size, b := EncodeLast(src, dst, anchor, op, ss);
  }

  /** The block of an empty input is one zero byte. */
  lemma EmptyBlock(nothing: seq<byte>, hash: nat -> nat, t: TableType, acceleration: nat)
    requires nothing == [] && HashFits(hash, t) && acceleration >= 1
    ensures Decode([0], 0) == Ok([], 1)
    ensures var b := GreedyBlock(nothing, hash, t, acceleration);
            WellFormed(b) && Encode(b) == [0]
  {
    var src: seq<byte> := [0];
    assert DecodeToken(src, 0, [], 0) == DecodeLiterals(src, 1, 0, 0, [], 0);
  }

  const ACCELERATION_MAX := 65537

  /** LZ4_compress_fast into an output of at least the worst-case size. An input that is too
      large gives 0; any other is compressed to a block, no longer than the bound, that
      decodes to it, and nothing is written after the block. */
  method CompressFast(src: seq<byte>, dst: array<byte>, hash16: nat -> nat, hash32: nat -> nat, acceleration: int)
    returns (size: nat)
    requires dst.Length >= CompressBound(|src|) && HashFits(hash16, ByU16) && HashFits(hash32, ByU32)
    modifies dst
    ensures |src| > 0x7E000000 ==> size == 0 && dst[..] == old(dst[..])
    ensures |src| <= 0x7E000000 ==>
              && 0 < size <= |src| + |src| / 255 + 16
              && Decode(dst[..size], |src|) == Ok(src, size)
              && (forall k :: size <= k < dst.Length ==> dst[k] == old(dst[k]))
              && var b := FastBlock(src, hash16, hash32, acceleration);
                 WellFormed(b) && dst[..size] == Encode(b)
  {
    hide GreedyBlock, Encode, Decode, WellFormed, Content, AllMaximal, HashFits;
    var a := if acceleration < 1 then 1 else if acceleration > ACCELERATION_MAX then ACCELERATION_MAX else acceleration;
    if |src| > MAX_INPUT_SIZE { return 0; }
    if |src| == 0 {
      dst[0] := 0;
      assert dst[..1] == [0];
      EmptyBlock(src, hash16, ByU16, a);
      return 1;
    }
    ghost var b;
    if |src| < LIMIT_64K {
      size, b := CompressValidated(src, dst, hash16, ByU16, a);
    } else {
      size, b := CompressValidated(src, dst, hash32, ByU32, a);
    }
    assert |dst[..size]| == size;
    DecodeUndoesEncode(b);
    WorstCaseSize(b);
  }

  /** LZ4_compress_default. */
  method CompressDefault(src: seq<byte>, dst: array<byte>) returns (size: nat)
    requires dst.Length >= CompressBound(|src|)
    modifies dst
    ensures |src| > 0x7E000000 ==> size == 0 && dst[..] == old(dst[..])
    ensures |src| <= 0x7E000000 ==>
              && 0 < size <= |src| + |src| / 255 + 16
              && Decode(dst[..size], |src|) == Ok(src, size)
              && (forall k :: size <= k < dst.Length ==> dst[k] == old(dst[k]))
              && WellFormed(DefaultBlock(src)) && dst[..size] == Encode(DefaultBlock(src))
  {
    HashesFit();
    size := CompressFast(src, dst, Hash4, Hash5, 1);
  }
}
