/** Exactly which stores a log gives back: those whose keys and values are log-safe. Reading a
    line back never adds to the bytes of its words, and loses some unless its tokens are safe;
    a log that gives its store back has lost nothing. */
module ExactReplay {
  import opened Text
  import opened Tokenizer
  import opened Commands

  // ----- Newlines -----------------------------------------------------------

  predicate NoNewlines(ts: seq<text>) { forall i :: 0 <= i < |ts| ==> NoNewline(ts[i]) }

  predicate StoreNoNewline(s: Store) { forall k :: k in s ==> NoNewline(k) && NoNewline(s[k]) }

  predicate OpNoNewline(op: Op) { NoNewline(op.key) && (op.Put? ==> NoNewline(op.value)) }

  /** No token holds a newline, because no word does. */
  lemma {:induction false} GroupNoNewline(ws: seq<text>)
    requires AllWords(ws)
    ensures NoNewlines(Group(ws))
    decreases |ws|
  {
    if ws != [] {
      var n := if Opens(ws[0]) then QuotedCount(ws) else 1;
      GroupNoNewline(ws[n..]);
      assert forall i :: 0 <= i < |ws| ==> IsWord(ws[i]);
      if Opens(ws[0]) && n > 1 {
        JoinNoNewline(ws[..n]);
      }
    }
  }

  lemma CommandNoNewline(line: text)
    ensures forall i :: 0 <= i < |Primitives(Parse(line))| ==> OpNoNewline(Primitives(Parse(line))[i])
  {
    GroupNoNewline(Words(line));
  }

  lemma {:induction false} ApplyNoNewline(s: Store, ops: seq<Op>)
    requires StoreNoNewline(s) && forall i :: 0 <= i < |ops| ==> OpNoNewline(ops[i])
    ensures StoreNoNewline(ApplyAll(s, ops))
    decreases |ops|
  {
    if ops != [] {
      assert OpNoNewline(ops[0]);
      ApplyNoNewline(Apply(s, ops[0]), ops[1..]);
    }
  }

  lemma {:induction false} ReplayNoNewline(s: Store, ls: seq<text>)
    requires StoreNoNewline(s)
    ensures StoreNoNewline(ReplayLines(s, ls))
    decreases |ls|
  {
    if ls != [] {
      CommandNoNewline(ls[0]);
      ApplyNoNewline(s, Primitives(Parse(ls[0])));
      ReplayNoNewline(ApplyAll(s, Primitives(Parse(ls[0]))), ls[1..]);
    }
  }

  // ----- Bytes in words -----------------------------------------------------

  function Size(ws: seq<text>): (n: nat) {
    if ws == [] then 0 else |ws[0]| + Size(ws[1..])
  }

  lemma {:induction false} SizeAppend(a: seq<text>, b: seq<text>)
    ensures Size(a + b) == Size(a) + Size(b)
  {
    if a == [] {
      assert a + b == b;
    } else {
      assert (a + b)[1..] == a[1..] + b;
      SizeAppend(a[1..], b);
    }
  }

  /** The bytes of a text that are not whitespace. */
  function Weigh(t: text): (n: nat) { Size(Words(t)) }

  lemma {:induction false} SizeOfAll(ts: seq<text>)
    ensures Size(WordsOfAll(ts)) == if ts == [] then 0 else Weigh(ts[0]) + Size(WordsOfAll(ts[1..]))
  {
    if ts != [] { SizeAppend(Words(ts[0]), WordsOfAll(ts[1..])); }
  }

  lemma WeighOne(w: text)
    requires IsWord(w)
    ensures Weigh(w) == |w| && Weigh(StripQuotes(w)) < |w|
  {
    var t := StripQuotes(w);
    WordsOfWord(w);
    WordsOfNoSpace(t);
    assert Size([w]) == |w| && Size([t]) == |t| && Size([]) == 0;
  }

  /** Tokenizing keeps all these bytes unless it strips quotes. */
  lemma {:induction false} GroupWeighs(ws: seq<text>)
    requires AllWords(ws)
    ensures Size(WordsOfAll(Group(ws))) <= Size(ws)
    ensures Size(WordsOfAll(Group(ws))) == Size(ws) ==> StripsPlain(ws)
    decreases |ws|
  {
    if ws != [] {
      var n := if Opens(ws[0]) then QuotedCount(ws) else 1;
      var us, rest := ws[..n], ws[n..];
      GroupWeighs(rest);
      assert us + rest == ws;
      SizeAppend(us, rest);
      SizeOfAll(Group(ws));
      FirstWeighs(us, Opens(ws[0]));
      assert Group(ws)[1..] == Group(rest);
    }
  }

  lemma FirstWeighs(us: seq<text>, quoted: bool)
    requires AllWords(us) && us != [] && (quoted <==> Opens(us[0])) && (!quoted ==> |us| == 1)
    ensures Weigh(if quoted then QuotedToken(us) else us[0]) <= Size(us)
    ensures quoted && |us| == 1 ==> Weigh(QuotedToken(us)) < Size(us)
  {
    if |us| == 1 {
      WeighOne(us[0]);
      assert us[1..] == [];
    } else {
      JoinedWords(us);
    }
  }

  // ----- Bytes in stores ----------------------------------------------------

  ghost function Weight(s: Store): (n: nat)
    decreases |s|
  {
    if s == map[] then 0
    else
      var k :| k in s;
      assert (s - {k}).Keys == s.Keys - {k};
      Weigh(k) + Weigh(s[k]) + Weight(s - {k})
  }

  lemma {:induction false} WeightWithout(s: Store, k: text)
    requires k in s
    ensures Weight(s) == Weigh(k) + Weigh(s[k]) + Weight(s - {k})
    decreases |s|
  {
    var j :| j in s && Weight(s) == Weigh(j) + Weigh(s[j]) + Weight(s - {j});
    if j != k {
      assert (s - {j}).Keys == s.Keys - {j};
      assert (s - {k}).Keys == s.Keys - {k};
      WeightWithout(s - {j}, k);
      WeightWithout(s - {k}, j);
      assert (s - {j}) - {k} == (s - {k}) - {j};
    }
  }

  lemma WeightPut(s: Store, k: text, v: text)
    ensures Weight(s[k := v]) <= Weight(s) + Weigh(k) + Weigh(v)
  {
    WeightWithout(s[k := v], k);
    assert s[k := v] - {k} == s - {k};
    if k in s { WeightWithout(s, k); } else { assert s - {k} == s; }
  }

  function OrderWeight(order: seq<text>, s: Store): (n: nat)
    requires forall i :: 0 <= i < |order| ==> order[i] in s
  {
    if order == [] then 0 else Weigh(order[0]) + Weigh(s[order[0]]) + OrderWeight(order[1..], s)
  }

  /** The same in any order. */
  lemma {:induction false} OrderWeightIs(order: seq<text>, s: Store, part: Store)
    requires Enumerates(order, part) && forall k :: k in part ==> k in s && s[k] == part[k]
    ensures OrderWeight(order, s) == Weight(part)
    decreases |order|
  {
    if order == [] {
      assert part == map[];
    } else {
      RestEnumerates(order, part);
      WeightWithout(part, order[0]);
      OrderWeightIs(order[1..], s, part - {order[0]});
    }
  }

  // ----- Reading lines back -------------------------------------------------

  /** One put line adds no more than what was printed, and only safe entries if as much. */
  lemma PutLineWeighs(t: Store, k: text, v: text)
    ensures var r := ApplyAll(t, Primitives(Parse(Line(Put(k, v)))));
            && Weight(r) <= Weight(t) + Weigh(k) + Weigh(v)
            && (Weight(r) == Weight(t) + Weigh(k) + Weigh(v) && StoreSafe(t) ==> StoreSafe(r))
  {
    var line := Line(Put(k, v));
    var ts := Tokens(line);
    PutLineTokens(k, v);
    if |ts| == 3 {
      PrimitivesOfOp(t, Put(ts[1], ts[2]));
      WeightPut(t, ts[1], ts[2]);
      if Weigh(ts[1]) + Weigh(ts[2]) == Weigh(k) + Weigh(v) {
        assert LogSafe(ts[1]) && LastSafe(ts[2]);
      }
    }
  }

  lemma PutLineTokens(k: text, v: text)
    ensures var line := Line(Put(k, v)); var ts := Tokens(line);
            && Words(line) != [] && ts != [] && ts[0] == PUT
            && (|ts| == 3 ==> Weigh(ts[1]) + Weigh(ts[2]) <= Weigh(k) + Weigh(v))
            && (|ts| == 3 && Weigh(ts[1]) + Weigh(ts[2]) == Weigh(k) + Weigh(v) ==> AllSafe(ts))
  {
    var line := Line(Put(k, v));
    var ws, ts := Words(line), Tokens(line);
    OperatorsPlain();
    FirstToken(PUT, k + [SPACE] + v);
    assert line == PUT + ([SPACE] + (k + [SPACE] + v));
    LineIsJoin(Put(k, v));
    WordsOfJoin([PUT, k, v]);
    ThreeWeigh([PUT, k, v]);
    GroupWeighs(ws);
    if |ts| == 3 { ThreeWeigh(ts); }
    TokensSafeIffStripsPlain(ws);
  }

  lemma ThreeWeigh(ts: seq<text>)
    requires |ts| == 3
    ensures Size(WordsOfAll(ts)) == Weigh(ts[0]) + Weigh(ts[1]) + Weigh(ts[2])
  {
    SizeOfAll(ts);
    SizeOfAll(ts[1..]);
    SizeOfAll(ts[1..][1..]);
    assert ts[1..][1..][1..] == [];
  }

  lemma {:induction false} ReplayWeighs(t: Store, order: seq<text>, s: Store)
    requires forall i :: 0 <= i < |order| ==> order[i] in s
    requires StoreNoNewline(s)
    ensures var r := ReplayLines(t, Lines(Print(Compacted(order, s))));
            && Weight(r) <= Weight(t) + OrderWeight(order, s)
            && (Weight(r) == Weight(t) + OrderWeight(order, s) && StoreSafe(t) ==> StoreSafe(r))
    decreases |order|
  {
    if order != [] {
      var ops, k := Compacted(order, s), order[0];
      var line := Line(Put(k, s[k]));
      assert ops[1..] == Compacted(order[1..], s);
      LinesCons(line, Print(ops[1..]));
      assert ([line] + Lines(Print(ops[1..])))[1..] == Lines(Print(ops[1..]));
      PutLineWeighs(t, k, s[k]);
      ReplayWeighs(ApplyAll(t, Primitives(Parse(line))), order[1..], s);
    }
  }

  // ----- The exact conditions -----------------------------------------------

  /** Compaction keeps the store if and only if all its keys and values are log-safe. */
  lemma CompactionKeepsIffSafe(order: seq<text>, s: Store)
    requires Enumerates(order, s)
    ensures Replay(Print(Compacted(order, s))) == s <==> StoreSafe(s)
  {
    if StoreSafe(s) { CompactedReplays(order, s); }
    if Replay(Print(Compacted(order, s))) == s {
      ReplayNoNewline(map[], Lines(Print(Compacted(order, s))));
      OrderWeightIs(order, s, s);
      ReplayWeighs(map[], order, s);
    }
  }

  /** A put comes back from the line logged for it if and only if key and value are safe. */
  lemma PutReturnsIffSafe(k: text, v: text)
    ensures Replay(Print([Put(k, v)])) == map[k := v] <==> OpSafe(Put(k, v))
  {
    var s := map[k := v];
    assert Compacted([k], s) == [Put(k, v)];
    CompactionKeepsIffSafe([k], s);
  }
}
