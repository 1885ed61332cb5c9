/** How the compressor finds matches: the hash table, the search through it, catching up to the
    left, counting to the right, and the lookup after a match, for any hash function. */
module Lz4Search {
  import opened Bytes
  import opened Lz4Format
  import opened Lz4Words

  // ----- Hash table ---------------------------------------------------------

  /** Entries of 16 bits for inputs below 64 KB + 11 bytes, of 32 bits above. */
  datatype TableType = ByU16 | ByU32

  const LIMIT_64K := 65536 + (MF_LIMIT - 1)

  function TableSize(t: TableType): (r: nat) {
    match t case ByU16 => 8192 case ByU32 => 4096
  }

  function EntryLimit(t: TableType): (r: nat) {
    match t case ByU16 => 65536 case ByU32 => 0x1_0000_0000
  }

  /** How many bytes are read to hash a position. */
  function HashWidth(t: TableType): (r: nat) {
    match t case ByU16 => 4 case ByU32 => 8
  }

  ghost predicate HashFits(hash: nat -> nat, t: TableType) {
    forall v: nat :: hash(v) < TableSize(t)
  }

  function HashPosition(src: seq<byte>, p: nat, hash: nat -> nat, t: TableType): (h: nat)
    requires p + HashWidth(t) <= |src| && HashFits(hash, t)
    ensures h < TableSize(t)
  { hash(ReadWord(src, p, HashWidth(t))) }

  /** The two multiplicative hashes of the code, with their wrap-around. */
  function Hash4(v: nat): (h: nat) { v * 2654435761 % 0x1_0000_0000 / 0x8_0000 }

  function Hash5(v: nat): (h: nat) {
    (v * 0x100_0000 % 0x1_0000_0000_0000_0000) * 889523592379 % 0x1_0000_0000_0000_0000 / 0x10_0000_0000_0000
  }

  lemma HashesFit()
    ensures HashFits(Hash4, ByU16) && HashFits(Hash5, ByU32)
  {
  }

  /** The hashes of "abcd" and of "abcdefgh". */
  lemma HashSamples(abcd: nat, abcdefgh: nat)
    requires abcd == 0x64636261 && abcdefgh == 0x6867666564636261
    ensures Hash4(abcd) == 3169 && Hash5(abcdefgh) == 531
  {
    assert abcdefgh * 0x100_0000 % 0x1_0000_0000_0000_0000 == 0x6564636261000000;
  }

  /** The second hash reads eight bytes and mixes the first five. */
  lemma Hash5OfFive(v: nat)
    ensures Hash5(v) == Hash5(v % 0x100_0000_0000)
  {
    var q, r := v / 0x100_0000_0000, v % 0x100_0000_0000;
    assert v * 0x100_0000 == q * 0x1_0000_0000_0000_0000 + r * 0x100_0000;
    assert v * 0x100_0000 % 0x1_0000_0000_0000_0000 == r * 0x100_0000;
    assert r * 0x100_0000 % 0x1_0000_0000_0000_0000 == r * 0x100_0000;
  }

  /** Every entry is a position before `bound`. */
  predicate Below(table: seq<nat>, bound: nat) {
    forall i :: 0 <= i < |table| ==> table[i] < bound
  }

  // ----- Search -------------------------------------------------------------

  /** The bytes from p to e are those `offset` places back. */
  predicate Repeats(src: seq<byte>, p: nat, e: nat, offset: nat) {
    offset <= p <= e <= |src| && src[p..e] == src[p - offset..e - offset]
  }

  lemma RepeatsIffPeriodic(src: seq<byte>, p: nat, e: nat, offset: nat)
    requires offset <= p <= e <= |src|
    ensures Repeats(src, p, e, offset) <==> Periodic(src, p, e, offset)
  {
    if Repeats(src, p, e, offset) {
      forall k | p <= k < e
        ensures src[k] == src[k - offset]
      {
        assert src[p..e][k - p] == src[p - offset..e - offset][k - p];
      }
    }
  }

  /** A match the compressor may use at ip: 4 equal bytes, at most 65535 back, at least 12
      bytes before the end. */
  predicate Usable(src: seq<byte>, ip: nat, offset: nat) {
    ip + MF_LIMIT <= |src| && 1 <= offset <= DISTANCE_MAX && Repeats(src, ip, ip + 4, offset)
  }

  /** A match at ip cannot be extended to the left over literals. */
  predicate LeftMaximal(src: seq<byte>, anchor: nat, ip: nat, offset: nat) {
    ip <= |src| && (anchor < ip && offset < ip ==> src[ip - 1] != src[ip - 1 - offset])
  }

  /** A match up to e cannot be extended to the right, before the last 5 bytes. */
  predicate RightMaximal(src: seq<byte>, e: nat, offset: nat) {
    offset <= e && (e + LAST_LITERALS < |src| ==> src[e] != src[e - offset])
  }

  /** A match found at `filled`, the last position entered into the table, and moved back to
      ip, as far as it goes. */
  predicate Pending(src: seq<byte>, anchor: nat, ip: nat, filled: nat, offset: nat) {
    && anchor <= ip <= filled && filled + MF_LIMIT <= |src|
    && 1 <= offset <= DISTANCE_MAX && Repeats(src, ip, filled + 4, offset) && LeftMaximal(src, anchor, ip, offset)
  }

  /** The entry m may be used as a match for p: close enough, and four equal bytes. */
  predicate Candidate(src: seq<byte>, t: TableType, p: nat, m: nat)
    requires m <= p && p + 4 <= |src|
  {
    (t == ByU16 || m + DISTANCE_MAX >= p) && ReadWord(src, m, 4) == ReadWord(src, p, 4)
  }

  /** With 16-bit entries the distance needs no test. */
  lemma CandidateUsable(src: seq<byte>, t: TableType, p: nat, m: nat)
    requires m < p && p + MF_LIMIT <= |src| && (t == ByU16 ==> |src| < LIMIT_64K) && Candidate(src, t, p, m)
    ensures Usable(src, p, p - m)
  {
    PeriodicIffWords(src, p, p + 4, p - m);
    RepeatsIffPeriodic(src, p, p + 4, p - m);
  }

  datatype Search = Match(ip: nat, offset: nat, table: seq<nat>) | NoMatch

  /** The positions visited, each entered into the table after its old entry is tried, with
      steps that grow by one every 64 positions. */
  ghost function Probe(src: seq<byte>, table: seq<nat>, hash: nat -> nat, t: TableType, p: nat, step: nat, nb: nat)
    : (r: Search)
    requires HashFits(hash, t) && |table| == TableSize(t) && Below(table, p)
    requires p + 11 <= |src| && step >= 1 && nb >= 64
    decreases |src| - p
  {
    var h := HashPosition(src, p, hash, t);
    if p + step > |src| - MF_LIMIT + 1 then NoMatch
    else if Candidate(src, t, p, table[h]) then Match(p, p - table[h], table[h := p])
    else Probe(src, table[h := p], hash, t, p + step, nb / 64, nb + 1)
  }

  /** Looks up a position by its hash h and enters it in place of what it found. */
  method LookUp(src: seq<byte>, table: array<nat>, t: TableType, p: nat, h: nat) returns (found: bool, offset: nat)
    requires p + MF_LIMIT <= |src| <= MAX_INPUT_SIZE && (t == ByU16 ==> |src| < LIMIT_64K)
    requires table.Length == TableSize(t) && h < table.Length && Below(table[..], p)
    modifies table
    ensures table[..] == old(table[..])[h := p] && Below(table[..], p + 1)
    ensures offset == p - old(table[h]) && (found <==> Candidate(src, t, p, old(table[h])))
    ensures found ==> Usable(src, p, offset)
  {
    var matchIndex := table[h];
    assert matchIndex < p < EntryLimit(t);
    table[h] := p;
    offset := p - matchIndex;
    found := Candidate(src, t, p, matchIndex);
    if found { CandidateUsable(src, t, p, matchIndex); }
  }

  /** Steps through the input, faster and faster, until the table proposes a match or the
      end is too near. */
  method FindMatch(src: seq<byte>, table: array<nat>, hash: nat -> nat, t: TableType, ip0: nat, h0: nat,
                   acceleration: nat)
    returns (found: bool, ip: nat, offset: nat)
    requires |src| <= MAX_INPUT_SIZE && (t == ByU16 ==> |src| < LIMIT_64K)
    requires HashFits(hash, t) && table.Length == TableSize(t) && acceleration >= 1
    requires ip0 + 11 <= |src| && h0 == HashPosition(src, ip0, hash, t) && Below(table[..], ip0)
    modifies table
    ensures found ==> ip0 <= ip && Usable(src, ip, offset) && Below(table[..], ip + 1)
    ensures Probe(src, old(table[..]), hash, t, ip0, 1, acceleration * 64)
            == if found then Match(ip, offset, table[..]) else NoMatch
  {
    hide Candidate, Usable, HashFits;
    var forwardIp: nat, step: nat, searchMatchNb: nat, forwardH: nat := ip0, 1, acceleration * 64, h0;
    while true
      invariant ip0 <= forwardIp && forwardIp + 11 <= |src| && step >= 1 && searchMatchNb >= 64
      invariant forwardH == HashPosition(src, forwardIp, hash, t) && Below(table[..], forwardIp)
      invariant Probe(src, old(table[..]), hash, t, ip0, 1, acceleration * 64)
                == Probe(src, table[..], hash, t, forwardIp, step, searchMatchNb)
      decreases |src| - forwardIp
    {
      var h := forwardH;
      ip := forwardIp;
      forwardIp := forwardIp + step;
      step := searchMatchNb / 64;
      searchMatchNb := searchMatchNb + 1;
      if forwardIp > |src| - MF_LIMIT + 1 { return false, ip, 0; }
      forwardH := HashPosition(src, forwardIp, hash, t);
      found, offset := LookUp(src, table, t, ip, h);
      if found { return; }
    }
  }

  /** Where a match found at p begins once it has been moved back. */
  function LeftEnd(src: seq<byte>, anchor: nat, p: nat, offset: nat): (ip: nat)
    requires anchor <= p <= |src| && offset <= p
    ensures anchor <= ip <= p && offset <= ip
  {
    if p > anchor && p - offset > 0 && src[p - 1] == src[p - 1 - offset] then LeftEnd(src, anchor, p - 1, offset) else p
  }

  lemma RepeatsLeft(src: seq<byte>, p: nat, e: nat, offset: nat)
    requires Repeats(src, p, e, offset) && offset < p && src[p - 1] == src[p - 1 - offset]
    ensures Repeats(src, p - 1, e, offset)
  {
    assert src[p - 1..e] == [src[p - 1]] + src[p..e];
    assert src[p - 1 - offset..e - offset] == [src[p - 1 - offset]] + src[p - offset..e - offset];
  }

  lemma {:induction false} LeftEndIs(src: seq<byte>, anchor: nat, p: nat, e: nat, offset: nat)
    requires anchor <= p && Repeats(src, p, e, offset)
    ensures var ip := LeftEnd(src, anchor, p, offset);
            Repeats(src, ip, e, offset) && LeftMaximal(src, anchor, ip, offset)
  {
    if p > anchor && p - offset > 0 && src[p - 1] == src[p - 1 - offset] {
      RepeatsLeft(src, p, e, offset);
      LeftEndIs(src, anchor, p - 1, e, offset);
    }
  }

  /** Where a match that is known up to p ends. */
  function RightEnd(src: seq<byte>, p: nat, offset: nat): (e: nat)
    requires offset <= p && p + LAST_LITERALS <= |src|
    ensures p <= e && e + LAST_LITERALS <= |src| && RightMaximal(src, e, offset)
    decreases |src| - p
  {
    if p + LAST_LITERALS < |src| && src[p] == src[p - offset] then RightEnd(src, p + 1, offset) else p
  }

  lemma {:induction false} RightEndUnique(src: seq<byte>, p: nat, e: nat, offset: nat)
    requires p + LAST_LITERALS <= |src| && Longest(src, p, e, offset, |src| - LAST_LITERALS)
    ensures RightEnd(src, p, offset) == e
    decreases e - p
  {
    if p < e { RightEndUnique(src, p + 1, e, offset); }
  }

  /** A match found at p, moved back over equal bytes, is still one. */
  lemma FoundPending(src: seq<byte>, anchor: nat, p: nat, offset: nat)
    requires anchor < p && Usable(src, p, offset)
    ensures Pending(src, anchor, LeftEnd(src, anchor, p, offset), p, offset)
  {
    LeftEndIs(src, anchor, p, p + 4, offset);
  }

  /** The sequence for a match at ip that was found at `filled`. */
  function MatchSequence(src: seq<byte>, anchor: nat, ip: nat, filled: nat, offset: nat): (s: Sequence)
    requires Pending(src, anchor, ip, filled, offset)
  { Sequence(src[anchor..ip], offset, RightEnd(src, filled + 4, offset) - ip) }

  /** Moves a match back over equal bytes not yet covered. */
  method CatchUp(src: seq<byte>, filled: nat, offset: nat, anchor: nat) returns (ip: nat)
    requires Usable(src, filled, offset) && anchor < filled
    ensures ip == LeftEnd(src, anchor, filled, offset) && Pending(src, anchor, ip, filled, offset)
  {
    ip := filled;
    while ip > anchor && ip - offset > 0 && src[ip - 1] == src[ip - 1 - offset]
      invariant anchor <= ip <= filled && offset <= ip
      invariant LeftEnd(src, anchor, ip, offset) == LeftEnd(src, anchor, filled, offset)
    {
      ip := ip - 1;
    }
    FoundPending(src, anchor, filled, offset);
  }

  /** Where the match at ip ends: past every position the table holds, and as late as the
      bytes and the end of the block allow. */
  method MatchEnd(src: seq<byte>, anchor: nat, ip: nat, ghost filled: nat, offset: nat) returns (e: nat)
    requires Pending(src, anchor, ip, filled, offset)
    ensures e == RightEnd(src, filled + 4, offset) && filled + 4 <= e && e + LAST_LITERALS <= |src|
    ensures Repeats(src, ip, e, offset) && RightMaximal(src, e, offset)
  {
    var matchCode := Count(src, ip + MIN_MATCH, offset, |src| - LAST_LITERALS);
    e := ip + MIN_MATCH + matchCode;
    EndPastFilled(src, ip, filled, offset, e);
    RightEndUnique(src, filled + 4, e, offset);
  }

  lemma EndPastFilled(src: seq<byte>, ip: nat, filled: nat, offset: nat, e: nat)
    requires ip <= filled && filled + MF_LIMIT <= |src| && Repeats(src, ip, filled + 4, offset)
    requires Longest(src, ip + MIN_MATCH, e, offset, |src| - LAST_LITERALS)
    ensures filled + 4 <= e && Repeats(src, ip, e, offset)
  {
    RepeatsIffPeriodic(src, ip, filled + 4, offset);
    assert e >= filled + 4;
    RepeatsIffPeriodic(src, ip, e, offset);
  }

  /** Looks up and records the position right after a match. */
  method TestNextPosition(src: seq<byte>, table: array<nat>, hash: nat -> nat, t: TableType, ip: nat)
    returns (found: bool, offset: nat)
    requires 2 <= ip && ip + MF_LIMIT <= |src| <= MAX_INPUT_SIZE && (t == ByU16 ==> |src| < LIMIT_64K)
    requires HashFits(hash, t) && table.Length == TableSize(t) && Below(table[..], ip)
    modifies table
    ensures Below(table[..], ip + 1)
    ensures found ==> Usable(src, ip, offset)
    ensures var h := HashPosition(src, ip, hash, t);
            var filled := old(table[..])[HashPosition(src, ip - 2, hash, t) := ip - 2];
            && table[..] == filled[h := ip] && offset == ip - filled[h]
            && (found <==> Candidate(src, t, ip, filled[h]))
  {
    table[HashPosition(src, ip - 2, hash, t)] := ip - 2;
    found, offset := LookUp(src, table, t, ip, HashPosition(src, ip, hash, t));
  }
}
