/** The sequences the compressor finds, as a function of the input, the hash and the
    acceleration: search, catch up, extend, try the next position, search on. */
module Lz4Greedy {
  import opened Bytes
  import opened Lz4Format
  import opened Lz4Words
  import opened Lz4Search

  /** What the hash table and the input have to be like for a search. */
  ghost predicate Ready(src: seq<byte>, hash: nat -> nat, t: TableType, acceleration: nat, table: seq<nat>) {
    && |src| <= MAX_INPUT_SIZE && (t == ByU16 ==> |src| < LIMIT_64K) && HashFits(hash, t)
    && |table| == TableSize(t) && acceleration >= 1
  }

  /** A search that starts at ip. */
  ghost function NextMatch(src: seq<byte>, hash: nat -> nat, t: TableType, acceleration: nat, table: seq<nat>, ip: nat)
    : (r: Search)
    requires Ready(src, hash, t, acceleration, table) && ip + 11 <= |src| && Below(table, ip)
    ensures r.Match? ==> ip <= r.ip && Usable(src, r.ip, r.offset) && |r.table| == |table| && Below(r.table, r.ip + 1)
  {
    ProbeUsable(src, table, hash, t, ip, 1, acceleration * 64);
    Probe(src, table, hash, t, ip, 1, acceleration * 64)
  }

  /** What is found from a search at ip on, with everything before anchor covered. */
  ghost function SearchFrom(src: seq<byte>, hash: nat -> nat, t: TableType, acceleration: nat, table: seq<nat>,
                            anchor: nat, ip: nat)
    : (ss: seq<Sequence>)
    requires Ready(src, hash, t, acceleration, table) && anchor < ip && ip + 11 <= |src| && Below(table, ip)
    ensures ss == [] <==> NextMatch(src, hash, t, acceleration, table, ip) == NoMatch
    decreases |src| - ip, 1
  {
    match NextMatch(src, hash, t, acceleration, table, ip)
    case NoMatch => []
    case Match(p, offset, table') =>
      FoundPending(src, anchor, p, offset);
      FromMatch(src, hash, t, acceleration, table', anchor, LeftEnd(src, anchor, p, offset), p, offset)
  }

  /** What is found from a match at ip on, `filled` being the last position in the table. */
  ghost function FromMatch(src: seq<byte>, hash: nat -> nat, t: TableType, acceleration: nat, table: seq<nat>,
                           anchor: nat, ip: nat, filled: nat, offset: nat)
    : (ss: seq<Sequence>)
    requires Ready(src, hash, t, acceleration, table) && Below(table, filled + 1)
    requires Pending(src, anchor, ip, filled, offset)
    ensures ss != []
    decreases |src| - filled, 0
  {
    var e := RightEnd(src, filled + 4, offset);
    [MatchSequence(src, anchor, ip, filled, offset)]
    + if e + MF_LIMIT > |src| then [] else AfterMatch(src, hash, t, acceleration, table, e)
  }

  /** What is found after a match that ends at e: the position right after it is tried first. */
  ghost function AfterMatch(src: seq<byte>, hash: nat -> nat, t: TableType, acceleration: nat, table: seq<nat>, e: nat)
    : (ss: seq<Sequence>)
    requires Ready(src, hash, t, acceleration, table) && 2 <= e && e + MF_LIMIT <= |src| && Below(table, e)
    decreases |src| - e, 2
  {
    var entered := table[HashPosition(src, e - 2, hash, t) := e - 2];
    var h := HashPosition(src, e, hash, t);
    if Candidate(src, t, e, entered[h]) then
      CandidateUsable(src, t, e, entered[h]);
      FromMatch(src, hash, t, acceleration, entered[h := e], e, e, e, e - entered[h])
    else SearchFrom(src, hash, t, acceleration, entered[h := e], e, e + 1)
  }

  /** What follows a match that ends at e, if there is room for any. */
  ghost function RestAfter(src: seq<byte>, hash: nat -> nat, t: TableType, acceleration: nat, table: seq<nat>, e: nat)
    : (ss: seq<Sequence>)
    requires Ready(src, hash, t, acceleration, table) && 2 <= e && Below(table, e)
  {
    if e + MF_LIMIT > |src| then [] else AfterMatch(src, hash, t, acceleration, table, e)
  }

  lemma FromMatchHead(src: seq<byte>, hash: nat -> nat, t: TableType, acceleration: nat, table: seq<nat>,
                      anchor: nat, ip: nat, filled: nat, offset: nat)
    requires Ready(src, hash, t, acceleration, table) && Below(table, filled + 1)
    requires Pending(src, anchor, ip, filled, offset)
    ensures FromMatch(src, hash, t, acceleration, table, anchor, ip, filled, offset)
            == [MatchSequence(src, anchor, ip, filled, offset)]
               + RestAfter(src, hash, t, acceleration, table, RightEnd(src, filled + 4, offset))
  {
  }

  lemma FromMatchSplits(src: seq<byte>, hash: nat -> nat, t: TableType, acceleration: nat, table: seq<nat>,
                        anchor: nat, ip: nat, filled: nat, offset: nat, before: seq<Sequence>)
    requires Ready(src, hash, t, acceleration, table) && Below(table, filled + 1)
    requires Pending(src, anchor, ip, filled, offset)
    ensures before + FromMatch(src, hash, t, acceleration, table, anchor, ip, filled, offset)
            == (before + [MatchSequence(src, anchor, ip, filled, offset)])
               + RestAfter(src, hash, t, acceleration, table, RightEnd(src, filled + 4, offset))
  {
    var e := RightEnd(src, filled + 4, offset);
    ThreeParts(before, [MatchSequence(src, anchor, ip, filled, offset)], RestAfter(src, hash, t, acceleration, table, e));
  }

  /** What is still to be found once everything before anchor is covered and searched. */
  ghost function StillToFind(src: seq<byte>, hash: nat -> nat, t: TableType, acceleration: nat, table: seq<nat>,
                             anchor: nat)
    : (ss: seq<Sequence>)
    requires Ready(src, hash, t, acceleration, table) && Below(table, anchor + 1)
  {
    if anchor + MF_LIMIT > |src| then [] else SearchFrom(src, hash, t, acceleration, table, anchor, anchor + 1)
  }

  lemma Searching(src: seq<byte>, hash: nat -> nat, t: TableType, acceleration: nat, table: seq<nat>, anchor: nat)
    requires Ready(src, hash, t, acceleration, table) && Below(table, anchor + 1)
    ensures StillToFind(src, hash, t, acceleration, table, anchor)
            == if anchor + MF_LIMIT > |src| then []
               else SearchFrom(src, hash, t, acceleration, table, anchor, anchor + 1)
  {
  }

  lemma RestTried(src: seq<byte>, hash: nat -> nat, t: TableType, acceleration: nat, table: seq<nat>, e: nat,
                  table': seq<nat>, found: bool, offset: nat)
    requires Ready(src, hash, t, acceleration, table) && 2 <= e && e + MF_LIMIT <= |src| && Below(table, e)
    requires var h := HashPosition(src, e, hash, t);
             var entered := table[HashPosition(src, e - 2, hash, t) := e - 2];
             && table' == entered[h := e] && offset == e - entered[h] && (found <==> Candidate(src, t, e, entered[h]))
    requires Below(table', e + 1)
    ensures found ==> Usable(src, e, offset) && Pending(src, e, e, e, offset)
    ensures RestAfter(src, hash, t, acceleration, table, e)
            == if found then FromMatch(src, hash, t, acceleration, table', e, e, e, offset)
               else StillToFind(src, hash, t, acceleration, table', e)
  {
    if found { CandidateUsable(src, t, e, e - offset); }
  }

  lemma NothingLeft(src: seq<byte>, hash: nat -> nat, t: TableType, acceleration: nat, table: seq<nat>, e: nat)
    requires Ready(src, hash, t, acceleration, table) && 2 <= e && Below(table, e) && e + MF_LIMIT > |src|
    ensures RestAfter(src, hash, t, acceleration, table, e) == [] == StillToFind(src, hash, t, acceleration, table, e)
  {
  }

  /** What one search means for what is found from it on. */
  lemma SearchFound(src: seq<byte>, hash: nat -> nat, t: TableType, acceleration: nat, table: seq<nat>, anchor: nat,
                    ip: nat, found: bool, filled: nat, offset: nat, table': seq<nat>)
    requires Ready(src, hash, t, acceleration, table) && anchor < ip && ip + 11 <= |src| && Below(table, ip)
    requires Probe(src, table, hash, t, ip, 1, acceleration * 64) == if found then Match(filled, offset, table') else NoMatch
    ensures found ==> && ip <= filled && Usable(src, filled, offset) && |table'| == |table| && Below(table', filled + 1)
                      && Pending(src, anchor, LeftEnd(src, anchor, filled, offset), filled, offset)
    ensures SearchFrom(src, hash, t, acceleration, table, anchor, ip)
            == if found then FromMatch(src, hash, t, acceleration, table', anchor, LeftEnd(src, anchor, filled, offset),
                                       filled, offset)
               else []
  {
    hide Candidate, Usable, LeftEnd, HashPosition, FromMatch;
    ProbeUsable(src, table, hash, t, ip, 1, acceleration * 64);
    if found { FoundPending(src, anchor, filled, offset); }
  }

  lemma {:induction false} ProbeUsable(src: seq<byte>, table: seq<nat>, hash: nat -> nat, t: TableType, p: nat, step: nat,
                                       nb: nat)
    requires HashFits(hash, t) && |table| == TableSize(t) && Below(table, p)
    requires |src| <= MAX_INPUT_SIZE && (t == ByU16 ==> |src| < LIMIT_64K)
    requires p + 11 <= |src| && step >= 1 && nb >= 64
    ensures var r := Probe(src, table, hash, t, p, step, nb);
            r.Match? ==> p <= r.ip && Usable(src, r.ip, r.offset) && |r.table| == |table| && Below(r.table, r.ip + 1)
    decreases |src| - p
  {
    hide Candidate, Usable, HashFits;
    var h := HashPosition(src, p, hash, t);
    if p + step <= |src| - MF_LIMIT + 1 {
      if Candidate(src, t, p, table[h]) {
        CandidateUsable(src, t, p, table[h]);
      } else {
        ProbeUsable(src, table[h := p], hash, t, p + step, nb / 64, nb + 1);
      }
    }
  }

  /** The block of an input: nothing is looked for in less than 13 bytes. */
  ghost function GreedyBlock(src: seq<byte>, hash: nat -> nat, t: TableType, acceleration: nat): (b: Block)
    requires |src| <= MAX_INPUT_SIZE && (t == ByU16 ==> |src| < LIMIT_64K) && HashFits(hash, t) && acceleration >= 1
  {
    var ss := if |src| < 13 then [] else SearchFrom(src, hash, t, acceleration, seq(TableSize(t), _ => 0), 0, 1);
    Block(ss, if Covered(ss) <= |src| then src[Covered(ss)..] else [], 0)
  }

  /** LZ4_compress_fast: 16-bit entries for inputs below 65547 bytes, and an acceleration from
      1 to 65537. */
  ghost function FastBlock(src: seq<byte>, hash16: nat -> nat, hash32: nat -> nat, acceleration: int): (b: Block)
    requires |src| <= MAX_INPUT_SIZE && HashFits(hash16, ByU16) && HashFits(hash32, ByU32)
  {
    var a := if acceleration < 1 then 1 else if acceleration > 65537 then 65537 else acceleration;
    if |src| < 65547 then GreedyBlock(src, hash16, ByU16, a) else GreedyBlock(src, hash32, ByU32, a)
  }

  ghost function DefaultBlock(src: seq<byte>): (b: Block)
    requires |src| <= MAX_INPUT_SIZE
  {
    HashesFit();
    FastBlock(src, Hash4, Hash5, 1)
  }

  // ----- Which matches are found --------------------------------------------

  lemma {:induction false} CoveredCons(s: Sequence, ss: seq<Sequence>)
    ensures Covered([s] + ss) == |s.literals| + s.matchLength + Covered(ss)
  {
    if ss == [] {
      assert [s] + ss == [s] && Front([s]) == [];
    } else {
      assert Front([s] + ss) == [s] + Front(ss) && Last([s] + ss) == Last(ss);
      CoveredCons(s, Front(ss));
    }
  }

  /** A search from right after e would find nothing, or there is no room for one. */
  ghost predicate NothingMore(src: seq<byte>, hash: nat -> nat, t: TableType, acceleration: nat, table: seq<nat>, e: nat) {
    e + 12 > |src|
    || (&& Ready(src, hash, t, acceleration, table) && Below(table, e + 1)
        && Probe(src, table, hash, t, e + 1, 1, acceleration * 64) == NoMatch)
  }

  lemma FromMatchCovers(src: seq<byte>, hash: nat -> nat, t: TableType, acceleration: nat, table: seq<nat>,
                        anchor: nat, ip: nat, filled: nat, offset: nat)
    requires Ready(src, hash, t, acceleration, table) && Below(table, filled + 1)
    requires Pending(src, anchor, ip, filled, offset)
    ensures var e := RightEnd(src, filled + 4, offset);
            anchor + Covered(FromMatch(src, hash, t, acceleration, table, anchor, ip, filled, offset))
            == e + Covered(RestAfter(src, hash, t, acceleration, table, e))
  {
    hide LeftMaximal, RightEnd, AfterMatch, HashFits;
    var e := RightEnd(src, filled + 4, offset);
    CoveredCons(MatchSequence(src, anchor, ip, filled, offset), RestAfter(src, hash, t, acceleration, table, e));
  }

  lemma {:induction false} RestEnds(src: seq<byte>, hash: nat -> nat, t: TableType, acceleration: nat,
                                    table: seq<nat>, e: nat)
    returns (last: seq<nat>)
    requires Ready(src, hash, t, acceleration, table) && 2 <= e && Below(table, e)
    ensures NothingMore(src, hash, t, acceleration, last, e + Covered(RestAfter(src, hash, t, acceleration, table, e)))
    decreases |src| - e, 2
  {
    hide FromMatch, SearchFrom, AfterMatch, Candidate, Usable, Repeats, LeftMaximal, HashPosition, Probe, HashFits, RestAfter;
    if e + MF_LIMIT > |src| {
      NothingLeft(src, hash, t, acceleration, table, e);
      last := table;
    } else {
      var entered := table[HashPosition(src, e - 2, hash, t) := e - 2];
      var h := HashPosition(src, e, hash, t);
      var table', offset := entered[h := e], e - entered[h];
      var found := Candidate(src, t, e, entered[h]);
      RestTried(src, hash, t, acceleration, table, e, table', found, offset);
      if found {
        last := FromMatchEnds(src, hash, t, acceleration, table', e, e, e, offset);
      } else {
        last := SearchEnds(src, hash, t, acceleration, table', e);
      }
    }
  }

  lemma {:induction false} FromMatchEnds(src: seq<byte>, hash: nat -> nat, t: TableType, acceleration: nat,
                                         table: seq<nat>, anchor: nat, ip: nat, filled: nat, offset: nat)
    returns (last: seq<nat>)
    requires Ready(src, hash, t, acceleration, table) && Below(table, filled + 1)
    requires Pending(src, anchor, ip, filled, offset)
    ensures NothingMore(src, hash, t, acceleration, last,
              anchor + Covered(FromMatch(src, hash, t, acceleration, table, anchor, ip, filled, offset)))
    decreases |src| - filled, 0
  {
    hide LeftMaximal, FromMatch, RestAfter, HashFits, NothingMore;
    FromMatchCovers(src, hash, t, acceleration, table, anchor, ip, filled, offset);
    last := RestEnds(src, hash, t, acceleration, table, RightEnd(src, filled + 4, offset));
  }

  lemma {:induction false} SearchEnds(src: seq<byte>, hash: nat -> nat, t: TableType, acceleration: nat,
                                      table: seq<nat>, anchor: nat)
    returns (last: seq<nat>)
    requires Ready(src, hash, t, acceleration, table) && anchor + 12 <= |src| && Below(table, anchor + 1)
    ensures var ss := SearchFrom(src, hash, t, acceleration, table, anchor, anchor + 1);
            anchor + Covered(ss) + 12 > |src|
            || (&& |last| == TableSize(t) && Below(last, anchor + Covered(ss) + 1)
                && Probe(src, last, hash, t, anchor + Covered(ss) + 1, 1, acceleration * 64) == NoMatch)
    decreases |src| - anchor - 1, 1
  {
    hide Candidate, Usable, Repeats, LeftMaximal, HashPosition, FromMatch, Probe, HashFits;
    var r := Probe(src, table, hash, t, anchor + 1, 1, acceleration * 64);
    match r {
      case NoMatch =>
        SearchFound(src, hash, t, acceleration, table, anchor, anchor + 1, false, 0, 0, table);
        last := table;
      case Match(p, offset, table') =>
        SearchFound(src, hash, t, acceleration, table, anchor, anchor + 1, true, p, offset, table');
        last := FromMatchEnds(src, hash, t, acceleration, table', anchor, LeftEnd(src, anchor, p, offset), p, offset);
    }
  }

  // ----- The position right after a match -----------------------------------

  /** What the bytes at e are hashed and compared by is also found two places back. */
  predicate RepeatsTwoBack(src: seq<byte>, e: nat, t: TableType) {
    var w := if t == ByU16 then 4 else 8;
    2 <= e && e + 12 <= |src| && src[e - 2..e - 2 + w] == src[e..e + w]
  }

  lemma RestRepeats(src: seq<byte>, hash: nat -> nat, t: TableType, acceleration: nat, table: seq<nat>, e: nat)
    requires Ready(src, hash, t, acceleration, table) && Below(table, e) && RepeatsTwoBack(src, e, t)
    ensures var rest := RestAfter(src, hash, t, acceleration, table, e);
            rest != [] && rest[0].literals == [] && rest[0].offset == 2
  {
    hide SearchFrom, HashFits, FromMatch, AfterMatch, RestAfter;
    var w := HashWidth(t);
    assert src[e - 2..e - 2 + w][..4] == src[e - 2..e + 2] && src[e..e + w][..4] == src[e..e + 4];
    var h := HashPosition(src, e, hash, t);
    assert HashPosition(src, e - 2, hash, t) == h;
    assert Candidate(src, t, e, e - 2);
    var table' := table[h := e - 2][h := e];
    RestTried(src, hash, t, acceleration, table, e, table', true, 2);
    FromMatchHead(src, hash, t, acceleration, table', e, e, e, 2);
  }

  /** What the bytes at e are hashed and compared by is also found at the next place. */
  predicate RepeatsNext(src: seq<byte>, e: nat, t: TableType) {
    var w := if t == ByU16 then 4 else 8;
    2 <= e && e + 13 <= |src| && src[e..e + w] == src[e + 1..e + 1 + w]
  }

  lemma SearchRuns(src: seq<byte>, hash: nat -> nat, t: TableType, acceleration: nat, table: seq<nat>, e: nat)
    requires Ready(src, hash, t, acceleration, table) && Below(table, e + 1) && RepeatsNext(src, e, t)
    requires table[HashPosition(src, e, hash, t)] == e
    ensures var rest := StillToFind(src, hash, t, acceleration, table, e);
            rest != [] && |rest[0].literals| <= 1 && (rest[0].literals != [] ==> rest[0].offset == 1)
  {
    hide SearchFrom, HashFits, FromMatch, LeftMaximal;
    var w := HashWidth(t);
    assert src[e..e + w][..4] == src[e..e + 4] && src[e + 1..e + 1 + w][..4] == src[e + 1..e + 5];
    var h := HashPosition(src, e + 1, hash, t);
    assert h == HashPosition(src, e, hash, t);
    assert Probe(src, table, hash, t, e + 1, 1, acceleration * 64) == Match(e + 1, 1, table[h := e + 1]);
    SearchFound(src, hash, t, acceleration, table, e, e + 1, true, e + 1, 1, table[h := e + 1]);
    FromMatchHead(src, hash, t, acceleration, table[h := e + 1], e, LeftEnd(src, e, e + 1, 1), e + 1, 1);
  }

  lemma RestRuns(src: seq<byte>, hash: nat -> nat, t: TableType, acceleration: nat, table: seq<nat>, e: nat)
    requires Ready(src, hash, t, acceleration, table) && Below(table, e) && RepeatsNext(src, e, t)
    ensures var rest := RestAfter(src, hash, t, acceleration, table, e);
            rest != [] && |rest[0].literals| <= 1 && (rest[0].literals != [] ==> rest[0].offset == 1)
  {
    hide SearchFrom, HashFits, FromMatch, AfterMatch, RestAfter, Candidate, LeftMaximal;
    var entered := table[HashPosition(src, e - 2, hash, t) := e - 2];
    var h := HashPosition(src, e, hash, t);
    var table', found := entered[h := e], Candidate(src, t, e, entered[h]);
    RestTried(src, hash, t, acceleration, table, e, table', found, e - entered[h]);
    if found {
      FromMatchHead(src, hash, t, acceleration, table', e, e, e, e - entered[h]);
    } else {
      SearchRuns(src, hash, t, acceleration, table', e);
    }
  }

  /** Which match comes first, and from which table, whether it follows directly or is searched for. */
  lemma RestIsMatch(src: seq<byte>, hash: nat -> nat, t: TableType, acceleration: nat, table: seq<nat>, e: nat)
    returns (ip: nat, filled: nat, offset: nat, table': seq<nat>)
    requires Ready(src, hash, t, acceleration, table) && 2 <= e && Below(table, e)
    requires RestAfter(src, hash, t, acceleration, table, e) != []
    ensures Ready(src, hash, t, acceleration, table') && Below(table', filled + 1) && e <= filled
    ensures Pending(src, e, ip, filled, offset)
    ensures RestAfter(src, hash, t, acceleration, table, e)
            == FromMatch(src, hash, t, acceleration, table', e, ip, filled, offset)
  {
    hide FromMatch, SearchFrom, AfterMatch, Candidate, Usable, Repeats, LeftMaximal, HashPosition, Probe, HashFits, RestAfter;
    if e + MF_LIMIT > |src| {
      NothingLeft(src, hash, t, acceleration, table, e);
      assert false;
    } else {
      var entered := table[HashPosition(src, e - 2, hash, t) := e - 2];
      var h := HashPosition(src, e, hash, t);
      var found := Candidate(src, t, e, entered[h]);
      table' := entered[h := e];
      RestTried(src, hash, t, acceleration, table, e, table', found, e - entered[h]);
      if found {
        ip, filled, offset := e, e, e - entered[h];
      } else {
        ip, filled, offset, table' := SearchIsMatch(src, hash, t, acceleration, table', e);
      }
    }
  }

  lemma SearchIsMatch(src: seq<byte>, hash: nat -> nat, t: TableType, acceleration: nat, table: seq<nat>, anchor: nat)
    returns (ip: nat, filled: nat, offset: nat, table': seq<nat>)
    requires Ready(src, hash, t, acceleration, table) && anchor + 12 <= |src| && Below(table, anchor + 1)
    requires SearchFrom(src, hash, t, acceleration, table, anchor, anchor + 1) != []
    ensures Ready(src, hash, t, acceleration, table') && Below(table', filled + 1) && anchor < filled
    ensures Pending(src, anchor, ip, filled, offset)
    ensures SearchFrom(src, hash, t, acceleration, table, anchor, anchor + 1)
            == FromMatch(src, hash, t, acceleration, table', anchor, ip, filled, offset)
  {
    hide Candidate, Usable, Repeats, LeftMaximal, HashPosition, FromMatch, Probe, HashFits;
    match Probe(src, table, hash, t, anchor + 1, 1, acceleration * 64) {
      case NoMatch =>
      case Match(p, o, found) =>
        SearchFound(src, hash, t, acceleration, table, anchor, anchor + 1, true, p, o, found);
        ip, filled, offset, table' := LeftEnd(src, anchor, p, o), p, o, found;
    }
  }

  /** After its i-th match a block goes on with what is found from the end of that match. */
  lemma {:induction false} FromMatchRest(src: seq<byte>, hash: nat -> nat, t: TableType, acceleration: nat,
                                         table: seq<nat>, anchor: nat, ip: nat, filled: nat, offset: nat, i: nat)
    returns (now: seq<nat>)
    requires Ready(src, hash, t, acceleration, table) && Below(table, filled + 1)
    requires Pending(src, anchor, ip, filled, offset)
    requires 1 <= i <= |FromMatch(src, hash, t, acceleration, table, anchor, ip, filled, offset)|
    ensures var ss := FromMatch(src, hash, t, acceleration, table, anchor, ip, filled, offset);
            var e := anchor + Covered(ss[..i]);
            && Ready(src, hash, t, acceleration, now) && Below(now, e) && 2 <= e
            && ss[i..] == RestAfter(src, hash, t, acceleration, now, e)
    decreases i
  {
    hide LeftMaximal, HashFits, FromMatch, RestAfter, RightEnd;
    var ss := FromMatch(src, hash, t, acceleration, table, anchor, ip, filled, offset);
    var s, e := MatchSequence(src, anchor, ip, filled, offset), RightEnd(src, filled + 4, offset);
    var rest := RestAfter(src, hash, t, acceleration, table, e);
    FromMatchHead(src, hash, t, acceleration, table, anchor, ip, filled, offset);
    assert ss[..i] == [s] + rest[..i - 1] && ss[i..] == rest[i - 1..];
    CoveredCons(s, rest[..i - 1]);
    if i == 1 {
      now := table;
    } else {
      var ip', filled', offset', table' := RestIsMatch(src, hash, t, acceleration, table, e);
      now := FromMatchRest(src, hash, t, acceleration, table', e, ip', filled', offset', i - 1);
    }
  }

  lemma BlockRest(src: seq<byte>, hash: nat -> nat, t: TableType, acceleration: nat, i: nat) returns (now: seq<nat>)
    requires 13 <= |src| <= 0x7E000000 && (t == ByU16 ==> |src| < 65547) && HashFits(hash, t) && acceleration >= 1
    requires 1 <= i <= |GreedyBlock(src, hash, t, acceleration).sequences|
    ensures var ss := GreedyBlock(src, hash, t, acceleration).sequences;
            var e := Covered(ss[..i]);
            && Ready(src, hash, t, acceleration, now) && Below(now, e) && 2 <= e
            && ss[i..] == RestAfter(src, hash, t, acceleration, now, e)
  {
    hide SearchFrom, FromMatch, HashFits, Probe, RestAfter;
    var ip, filled, offset, table := SearchIsMatch(src, hash, t, acceleration, seq(TableSize(t), _ => 0), 0);
    now := FromMatchRest(src, hash, t, acceleration, table, 0, ip, filled, offset, i);
  }

  /** The position right after every match is tried at once, and against the position two
      before it: where the bytes repeat two places back, the next match follows directly. */
  lemma NextPositionTried(src: seq<byte>, hash: nat -> nat, t: TableType, acceleration: nat, i: nat)
    requires 13 <= |src| <= 0x7E000000 && (t == ByU16 ==> |src| < 65547) && HashFits(hash, t) && acceleration >= 1
    requires var ss := GreedyBlock(src, hash, t, acceleration).sequences;
             1 <= i <= |ss| && RepeatsTwoBack(src, Covered(ss[..i]), t)
    ensures var ss := GreedyBlock(src, hash, t, acceleration).sequences;
            i < |ss| && ss[i].literals == [] && ss[i].offset == 2
  {
    hide GreedyBlock, HashFits, RepeatsTwoBack, RestAfter;
    var now := BlockRest(src, hash, t, acceleration, i);
    var ss := GreedyBlock(src, hash, t, acceleration).sequences;
    RestRepeats(src, hash, t, acceleration, now, Covered(ss[..i]));
    assert ss[i..][0] == ss[i];
  }

  /** That position is entered as well: where the bytes repeat from there to the next place, a
      match follows after one literal at most. */
  lemma NextPositionEntered(src: seq<byte>, hash: nat -> nat, t: TableType, acceleration: nat, i: nat)
    requires 13 <= |src| <= 0x7E000000 && (t == ByU16 ==> |src| < 65547) && HashFits(hash, t) && acceleration >= 1
    requires var ss := GreedyBlock(src, hash, t, acceleration).sequences;
             1 <= i <= |ss| && RepeatsNext(src, Covered(ss[..i]), t)
    ensures var ss := GreedyBlock(src, hash, t, acceleration).sequences;
            i < |ss| && |ss[i].literals| <= 1 && (ss[i].literals != [] ==> ss[i].offset == 1)
  {
    hide GreedyBlock, HashFits, RepeatsNext, RestAfter;
    var now := BlockRest(src, hash, t, acceleration, i);
    var ss := GreedyBlock(src, hash, t, acceleration).sequences;
    RestRuns(src, hash, t, acceleration, now, Covered(ss[..i]));
    assert ss[i..][0] == ss[i];
  }

  // ----- How fast the search moves ------------------------------------------

  /** How many bytes the growing step has skipped after i visits, beyond i times the first. */
  function Skipped(i: nat): (n: int) { 32 * (i / 64) * (i / 64 - 1) + (i / 64) * (i % 64) }

  lemma SkippedNext(i: nat)
    ensures Skipped(i + 1) == Skipped(i) + i / 64
  {
    var q, r := i / 64, i % 64;
    if r == 63 {
      assert (i + 1) / 64 == q + 1 && (i + 1) % 64 == 0;
      assert 32 * (q + 1) * q == 32 * q * (q - 1) + 64 * q;
    } else {
      assert (i + 1) / 64 == q && (i + 1) % 64 == r + 1;
      assert q * (r + 1) == q * r + q;
    }
  }

  /** The i-th position a search from `start` visits: first one byte on, then `a` bytes at a
      time, and one byte more after every 64 visits. */
  function Visit(start: nat, a: nat, i: nat): (p: int) {
    if i == 0 then start else start + 1 + (i - 1) * a + Skipped(i - 1)
  }

  function VisitStep(a: nat, i: nat): (n: nat) { if i == 0 then 1 else a + (i - 1) / 64 }

  lemma VisitNext(start: nat, a: nat, i: nat)
    ensures Visit(start, a, i + 1) == Visit(start, a, i) + VisitStep(a, i)
  {
    if i > 0 {
      SkippedNext(i - 1);
      assert i * a == (i - 1) * a + a;
    }
  }

  lemma {:induction false} VisitGrows(start: nat, a: nat, i: nat, j: nat)
    requires i <= j
    ensures start <= Visit(start, a, i) <= Visit(start, a, j)
  {
    if i < j {
      VisitGrows(start, a, i, j - 1);
      VisitNext(start, a, j - 1);
    } else if i > 0 {
      VisitGrows(start, a, i - 1, i - 1);
      VisitNext(start, a, i - 1);
    }
  }

  /** The table at the i-th visit: every position visited before it was entered. */
  ghost function VisitTable(src: seq<byte>, table: seq<nat>, hash: nat -> nat, t: TableType, start: nat, a: nat, i: nat)
    : (r: seq<nat>)
    requires HashFits(hash, t) && |table| == TableSize(t) && Visit(start, a, i) + 11 <= |src|
    ensures |r| == |table|
  {
    if i == 0 then table
    else
      VisitGrows(start, a, i - 1, i);
      var p := Visit(start, a, i - 1);
      VisitTable(src, table, hash, t, start, a, i - 1)[HashPosition(src, p, hash, t) := p]
  }

  /** The i-th visit finds a match, and the visit after it would not be too near to the end. */
  ghost predicate Hit(src: seq<byte>, table: seq<nat>, hash: nat -> nat, t: TableType, start: nat, a: nat, i: nat)
    requires HashFits(hash, t) && |table| == TableSize(t)
  {
    VisitGrows(start, a, i, i + 1);
    var p := Visit(start, a, i);
    && Visit(start, a, i + 1) + 11 <= |src|
    && var m := VisitTable(src, table, hash, t, start, a, i)[HashPosition(src, p, hash, t)];
       m <= p && Candidate(src, t, p, m)
  }

  ghost predicate NoHit(src: seq<byte>, table: seq<nat>, hash: nat -> nat, t: TableType, start: nat, a: nat)
    requires HashFits(hash, t) && |table| == TableSize(t)
  { forall m: nat :: !Hit(src, table, hash, t, start, a, m) }

  /** What a search returns for that: the position, how far back its entry is, and the table
      with the position entered in its place. */
  ghost predicate FoundAt(src: seq<byte>, table: seq<nat>, hash: nat -> nat, t: TableType, start: nat, a: nat, i: nat,
                          r: Search)
    requires HashFits(hash, t) && |table| == TableSize(t)
  {
    && Hit(src, table, hash, t, start, a, i)
    && (VisitGrows(start, a, i, i + 1);
        var p := Visit(start, a, i);
        var now, h := VisitTable(src, table, hash, t, start, a, i), HashPosition(src, p, hash, t);
        r == Match(p, p - now[h], now[h := p]))
  }

  lemma VisitEnds(src: seq<byte>, table: seq<nat>, hash: nat -> nat, t: TableType, start: nat, a: nat, k: nat)
    requires HashFits(hash, t) && |table| == TableSize(t) && Visit(start, a, k + 1) + 11 > |src|
    ensures forall m: nat :: m >= k ==> !Hit(src, table, hash, t, start, a, m)
  {
    hide Visit, Candidate, HashPosition, HashFits;
    forall m: nat | m >= k
      ensures !Hit(src, table, hash, t, start, a, m)
    {
      VisitGrows(start, a, k + 1, m + 1);
    }
  }

  lemma {:induction false} ProbeVisits(src: seq<byte>, table: seq<nat>, hash: nat -> nat, t: TableType, start: nat, a: nat,
                                       k: nat, now: seq<nat>)
    returns (n: nat)
    requires HashFits(hash, t) && |table| == TableSize(t) && Visit(start, a, k) + 11 <= |src| && a >= 1
    requires now == VisitTable(src, table, hash, t, start, a, k) && start <= Visit(start, a, k)
    requires Below(now, Visit(start, a, k))
    ensures match Probe(src, now, hash, t, Visit(start, a, k), VisitStep(a, k), 64 * a + k)
            case NoMatch => forall m: nat :: m >= k ==> !Hit(src, table, hash, t, start, a, m)
            case r =>
              && FoundAt(src, table, hash, t, start, a, n, r)
              && forall m: nat :: k <= m < n ==> !Hit(src, table, hash, t, start, a, m)
    decreases |src| - Visit(start, a, k)
  {
    hide Visit, Candidate, HashFits, HashPosition;
    var p := Visit(start, a, k);
    var h := HashPosition(src, p, hash, t);
    VisitNext(start, a, k);
    if p + VisitStep(a, k) + 11 > |src| {
      VisitEnds(src, table, hash, t, start, a, k);
      n := 0;
    } else if Candidate(src, t, p, now[h]) {
      n := k;
    } else {
      assert !Hit(src, table, hash, t, start, a, k);
      n := ProbeVisits(src, table, hash, t, start, a, k + 1, now[h := p]);
    }
  }

  /** A search returns the first visit that finds a match, and gives up only if none does. */
  lemma SearchVisits(src: seq<byte>, table: seq<nat>, hash: nat -> nat, t: TableType, start: nat, a: nat) returns (n: nat)
    requires HashFits(hash, t) && |table| == TableSize(t) && Below(table, start) && start + 11 <= |src| && a >= 1
    ensures match Probe(src, table, hash, t, start, 1, a * 64)
            case NoMatch => NoHit(src, table, hash, t, start, a)
            case r =>
              && FoundAt(src, table, hash, t, start, a, n, r)
              && forall m: nat :: m < n ==> !Hit(src, table, hash, t, start, a, m)
  {
    hide Hit, FoundAt, HashFits, Probe;
    n := ProbeVisits(src, table, hash, t, start, a, 0, table);
  }

  lemma RepeatIsHit(src: seq<byte>, table: seq<nat>, hash: nat -> nat, t: TableType, start: nat, a: nat, i: nat)
    requires HashFits(hash, t) && |table| == TableSize(t) && Visit(start, a, i + 2) + 11 <= |src|
    requires var p, q, w := Visit(start, a, i), Visit(start, a, i + 1), HashWidth(t);
             && 0 <= p <= q <= p + 65535 && q + 11 <= |src| && src[p..p + w] == src[q..q + w]
    ensures Hit(src, table, hash, t, start, a, i + 1)
  {
    hide Visit, HashFits;
    var p, q, w := Visit(start, a, i), Visit(start, a, i + 1), HashWidth(t);
    assert src[p..p + w][..4] == src[p..p + 4] && src[q..q + w][..4] == src[q..q + 4];
    assert HashPosition(src, p, hash, t) == HashPosition(src, q, hash, t);
  }

  /** No search passes two visits in a row, near enough to each other, with equal bytes. */
  lemma RepeatIsFound(src: seq<byte>, table: seq<nat>, hash: nat -> nat, t: TableType, start: nat, a: nat, i: nat)
    requires HashFits(hash, t) && |table| == TableSize(t) && Below(table, start) && start + 11 <= |src| && a >= 1
    requires var p, q, w := Visit(start, a, i), Visit(start, a, i + 1), if t == ByU16 then 4 else 8;
             && start <= p <= q <= p + 65535 && Visit(start, a, i + 2) + 11 <= |src| && q + 11 <= |src|
             && src[p..p + w] == src[q..q + w]
    ensures var r := Probe(src, table, hash, t, start, 1, a * 64);
            r.Match? && start <= r.ip <= Visit(start, a, i + 1)
  {
    hide Visit, HashFits, Probe, Hit;
    RepeatIsHit(src, table, hash, t, start, a, i);
    var n := SearchVisits(src, table, hash, t, start, a);
    VisitGrows(start, a, 0, n);
    if n <= i + 1 { VisitGrows(start, a, n, i + 1); }
  }

  // ----- What goes out uncompressed -----------------------------------------

  /** An input goes out uncompressed if and only if it has fewer than 13 bytes or the first
      search fails: no position visited from the second byte on, over a table of zeros, hits. */
  lemma FirstSearchDecides(src: seq<byte>, hash: nat -> nat, t: TableType, acceleration: nat)
    requires |src| <= 0x7E000000 && (t == ByU16 ==> |src| < 65547) && HashFits(hash, t) && acceleration >= 1
    ensures GreedyBlock(src, hash, t, acceleration).sequences == []
            <==> |src| < 13 || NoHit(src, seq(TableSize(t), _ => 0), hash, t, 1, acceleration)
  {
    hide Hit, HashFits, Probe, FromMatch, VisitTable;
    var zeros: seq<nat> := seq(TableSize(t), _ => 0);
    if |src| >= 13 {
      var n := SearchVisits(src, zeros, hash, t, 1, acceleration);
      if NextMatch(src, hash, t, acceleration, zeros, 1) != NoMatch {
        assert Hit(src, zeros, hash, t, 1, acceleration, n) by {
          assert FoundAt(src, zeros, hash, t, 1, acceleration, n, Probe(src, zeros, hash, t, 1, 1, acceleration * 64));
        }
      }
    }
  }

  /** After the last match a search from the next position finds nothing, or the match ends
      within the last 11 bytes. */
  lemma NothingAfterLast(src: seq<byte>, hash: nat -> nat, t: TableType, acceleration: nat) returns (last: seq<nat>)
    requires 13 <= |src| <= 0x7E000000 && (t == ByU16 ==> |src| < 65547) && HashFits(hash, t) && acceleration >= 1
    ensures var e := Covered(GreedyBlock(src, hash, t, acceleration).sequences);
            e + 12 > |src|
            || (&& |last| == TableSize(t) && Below(last, e + 1)
                && NoHit(src, last, hash, t, e + 1, acceleration))
  {
    hide SearchFrom, Probe, HashFits, Hit, FoundAt;
    last := SearchEnds(src, hash, t, acceleration, seq(TableSize(t), _ => 0), 0);
    var e := Covered(GreedyBlock(src, hash, t, acceleration).sequences);
    if e + 12 <= |src| {
      var n := SearchVisits(src, last, hash, t, e + 1, acceleration);
    }
  }

  // ----- Equal bytes --------------------------------------------------------

  lemma {:induction false} EqualToTheEnd(src: seq<byte>, p: nat)
    requires 1 <= p && p + 5 <= |src| && forall i :: 0 <= i < |src| ==> src[i] == src[0]
    ensures RightEnd(src, p, 1) == |src| - 5
    decreases |src| - p
  {
    if p + 5 < |src| { EqualToTheEnd(src, p + 1); }
  }

  lemma EqualBytesMatch(src: seq<byte>, t: TableType)
    requires 13 <= |src| && forall i :: 0 <= i < |src| ==> src[i] == src[0]
    ensures Candidate(src, t, 1, 0) && Usable(src, 1, 1) && LeftEnd(src, 0, 1, 1) == 1 && Pending(src, 0, 1, 1, 1)
    ensures MatchSequence(src, 0, 1, 1, 1) == Sequence(src[..1], 1, |src| - 6)
  {
    PeriodicIffWords(src, 1, 5, 1);
    RepeatsIffPeriodic(src, 1, 5, 1);
    EqualToTheEnd(src, 5);
  }

  /** Equal bytes, however many, are one literal, one match and five last literals. */
  lemma EqualBytes(src: seq<byte>, hash: nat -> nat, t: TableType, acceleration: nat)
    requires 13 <= |src| <= 0x7E000000 && (t == ByU16 ==> |src| < 65547) && HashFits(hash, t) && acceleration >= 1
    requires forall i :: 0 <= i < |src| ==> src[i] == src[0]
    ensures GreedyBlock(src, hash, t, acceleration) == Block([Sequence(src[..1], 1, |src| - 6)], src[|src| - 5..], 0)
  {
    hide Candidate, Usable, Pending, LeftEnd, MatchSequence, HashPosition, RightEnd, AfterMatch, SearchFrom, HashFits;
    var zeros: seq<nat> := seq(TableSize(t), _ => 0);
    var h := HashPosition(src, 1, hash, t);
    EqualBytesMatch(src, t);
    EqualToTheEnd(src, 5);
    SearchFound(src, hash, t, acceleration, zeros, 0, 1, true, 1, 1, zeros[h := 1]);
    var s := Sequence(src[..1], 1, |src| - 6);
    assert FromMatch(src, hash, t, acceleration, zeros[h := 1], 0, 1, 1, 1) == [s];
    CoveredCons(s, []);
    assert [s] + [] == [s];
  }

  lemma OneSequence(s: Sequence, last: seq<byte>)
    requires s.offset == 1 && |s.literals| == 1 && s.matchLength >= 4
    ensures ValidSequences([s]) && Encode(Block([s], last, 0)) == EncodeSequence(s) + EncodeLiterals(last, 0)
  {
    hide EncodeSequence, EncodeLiterals;
    var nothing: seq<Sequence> := [];
    assert Front([s]) == nothing && Last([s]) == s;
    assert EncodeSequences([s]) == EncodeSequence(s) by {
      assert EncodeSequences(nothing) == [] && EncodeSequences([s]) == EncodeSequences(nothing) + EncodeSequence(s);
    }
  }

  lemma EqualBytesSize(src: seq<byte>, hash: nat -> nat, t: TableType, acceleration: nat)
    requires 13 <= |src| <= 0x7E000000 && (t == ByU16 ==> |src| < 65547) && HashFits(hash, t) && acceleration >= 1
    requires forall i :: 0 <= i < |src| ==> src[i] == src[0]
    ensures var b := GreedyBlock(src, hash, t, acceleration);
            ValidSequences(b.sequences) && b.lastLow == 0
            && |Encode(b)| == if |src| < 25 then 10 else 11 + (|src| - 25) / 255
  {
    EqualBytes(src, hash, t, acceleration);
    OneSequence(Sequence(src[..1], 1, |src| - 6), src[|src| - 5..]);
    if |src| >= 25 { LengthBytesSize(|src| - 25); }
  }

  lemma ThousandBytes(x: byte)
    ensures EncodeSequence(Sequence([x], 1, 994)) + EncodeLiterals([x, x, x, x, x], 0)
            == [31, x, 1, 0, 255, 255, 255, 210, 80, x, x, x, x, x]
  {
    assert LengthBytes(210) == [210] && LengthBytes(465) == [255, 210];
    assert LengthBytes(720) == [255, 255, 210] && LengthBytes(975) == [255, 255, 255, 210];
  }

  /** The very bytes for a thousand of them. */
  lemma ThousandEqualBytes(src: seq<byte>, x: byte)
    requires |src| == 1000 && forall i :: 0 <= i < |src| ==> src[i] == x
    ensures var b := DefaultBlock(src);
            ValidSequences(b.sequences) && b.lastLow == 0
            && Encode(b) == [31, x, 1, 0, 255, 255, 255, 210, 80, x, x, x, x, x]
  {
    hide GreedyBlock, Encode, ValidSequences, EncodeSequence, EncodeLiterals, HashFits;
    HashesFit();
    EqualBytes(src, Hash4, ByU16, 1);
    assert src[..1] == [x] && src[995..] == [x, x, x, x, x];
    OneSequence(Sequence([x], 1, 994), [x, x, x, x, x]);
    ThousandBytes(x);
  }
}
