/** Commands, the primitive puts and deletes they amount to, the lines that are logged for
    them, and what replaying lines makes of a store. */
module Commands {
  import opened Text
  import opened Tokenizer

  type Store = map<text, text>

  datatype Op = Put(key: text, value: text) | Del(key: text)

  const PUT: text := [112, 117, 116]
  const DEL: text := [100, 101, 108]
  const GET: text := [103, 101, 116]
  const MPUT: text := [109, 112, 117, 116]
  const MDEL: text := [109, 100, 101, 108]
  const MGET: text := [109, 103, 101, 116]

  function Apply(s: Store, op: Op): (r: Store) {
    match op
    case Put(k, v) => s[k := v]
    case Del(k) => s - {k}
  }

  function ApplyAll(s: Store, ops: seq<Op>): (r: Store)
    decreases |ops|
  {
    if ops == [] then s else ApplyAll(Apply(s, ops[0]), ops[1..])
  }

  // ----- Commands -----------------------------------------------------------

  datatype Command =
    | PutCommand(key: text, value: text)
    | DelCommand(key: text)
    | MPutCommand(items: seq<text>)
    | MDelCommand(keys: seq<text>)
    | Query(keys: seq<text>)
    | Empty
    | Unknown

  /** The dispatch on the first token and the number of tokens. */
  function Dispatch(ts: seq<text>): (c: Command)
    requires ts != []
    ensures c.MPutCommand? ==> |c.items| % 2 == 0
  {
    if ts[0] == PUT && |ts| == 3 then PutCommand(ts[1], ts[2])
    else if ts[0] == DEL && |ts| == 2 then DelCommand(ts[1])
    else if ts[0] == GET && |ts| == 2 then Query(ts[1..])
    else if ts[0] == MPUT && |ts| >= 5 && |ts| % 2 != 0 then MPutCommand(ts[1..])
    else if ts[0] == MDEL && |ts| >= 3 then MDelCommand(ts[1..])
    else if ts[0] == MGET && |ts| >= 3 then Query(ts[1..])
    else Unknown
  }

  function Parse(line: text): (c: Command)
    ensures c.MPutCommand? ==> |c.items| % 2 == 0
  {
    if Words(line) == [] then Empty else Dispatch(Tokens(line))
  }

  function Puts(items: seq<text>): (ops: seq<Op>)
    requires |items| % 2 == 0
    ensures |ops| == |items| / 2
    ensures forall i :: 0 <= i < |ops| ==> ops[i] == Put(items[2 * i], items[2 * i + 1])
  {
    seq(|items| / 2, i requires 0 <= i < |items| / 2 => Put(items[2 * i], items[2 * i + 1]))
  }

  function Dels(keys: seq<text>): (ops: seq<Op>)
    ensures |ops| == |keys| && forall i :: 0 <= i < |ops| ==> ops[i] == Del(keys[i])
  {
    seq(|keys|, i requires 0 <= i < |keys| => Del(keys[i]))
  }

  /** The primitive operations a command amounts to. */
  function Primitives(c: Command): (ops: seq<Op>)
    requires c.MPutCommand? ==> |c.items| % 2 == 0
  {
    match c
    case PutCommand(k, v) => [Put(k, v)]
    case DelCommand(k) => [Del(k)]
    case MPutCommand(items) => Puts(items)
    case MDelCommand(keys) => Dels(keys)
    case _ => []
  }

  /** What a command appends to the log: while replaying, only mput and mdel still would. */
  function Logged(c: Command, replaying: bool): (ops: seq<Op>)
    requires c.MPutCommand? ==> |c.items| % 2 == 0
  {
    if replaying && (c.PutCommand? || c.DelCommand?) then [] else Primitives(c)
  }

  predicate Mentions(ops: seq<Op>, k: text) { exists i :: 0 <= i < |ops| && ops[i].key == k }

  /** Operations leave the keys they do not mention alone. */
  lemma {:induction false} OthersUntouched(s: Store, ops: seq<Op>, k: text)
    requires !Mentions(ops, k)
    ensures var r := ApplyAll(s, ops); (k in r <==> k in s) && (k in s ==> r[k] == s[k])
    decreases |ops|
  {
    if ops != [] {
      assert ops[0].key != k;
      OthersUntouched(Apply(s, ops[0]), ops[1..], k);
    }
  }

  /** However often a key is mentioned, the last mention decides. */
  lemma {:induction false} LastMentionDecides(s: Store, ops: seq<Op>, i: nat)
    requires i < |ops| && !Mentions(ops[i + 1..], ops[i].key)
    ensures var r := ApplyAll(s, ops);
            && (ops[i].key in r <==> ops[i].Put?)
            && (ops[i].Put? ==> r[ops[i].key] == ops[i].value)
    decreases i
  {
    if i == 0 {
      OthersUntouched(Apply(s, ops[0]), ops[1..], ops[0].key);
    } else {
      assert ops[1..][i - 1] == ops[i] && ops[1..][i..] == ops[i + 1..];
      LastMentionDecides(Apply(s, ops[0]), ops[1..], i - 1);
    }
  }

  // ----- Log lines ----------------------------------------------------------

  function Line(op: Op): (l: text) {
    match op
    case Put(k, v) => PUT + [SPACE] + k + [SPACE] + v
    case Del(k) => DEL + [SPACE] + k
  }

  /** The bytes appended to the log for several operations. */
  function Print(ops: seq<Op>): (s: text) {
    if ops == [] then [] else Line(ops[0]) + ([NEWLINE] + Print(ops[1..]))
  }

  lemma {:induction false} PrintTerminated(ops: seq<Op>)
    ensures Terminated(Print(ops))
  {
    if ops != [] {
      PrintTerminated(ops[1..]);
    }
  }

  lemma {:induction false} PrintAppend(a: seq<Op>, b: seq<Op>)
    ensures Print(a + b) == Print(a) + Print(b)
  {
    if a == [] {
      assert a + b == b;
    } else {
      assert (a + b)[1..] == a[1..] + b;
      PrintAppend(a[1..], b);
      Reassociate(Line(a[0]), [NEWLINE], Print(a[1..]), Print(b));
    }
  }

  function LineTokens(op: Op): (ts: seq<text>) {
    match op
    case Put(k, v) => [PUT, k, v]
    case Del(k) => [DEL, k]
  }

  function AsCommand(op: Op): (c: Command) {
    match op
    case Put(k, v) => PutCommand(k, v)
    case Del(k) => DelCommand(k)
  }

  /** Keys that are followed by a value must be log-safe; the last token of a line may also
      be a phrase left open. */
  predicate OpSafe(op: Op) {
    match op
    case Put(k, v) => LogSafe(k) && LastSafe(v)
    case Del(k) => LastSafe(k)
  }

  predicate OpsSafe(ops: seq<Op>) { forall i :: 0 <= i < |ops| ==> OpSafe(ops[i]) }

  lemma LineIsJoin(op: Op)
    ensures Line(op) == Join(LineTokens(op))
  {
    match op
    case Put(k, v) =>
      var ts := [PUT, k, v];
      assert ts[1..] == [k, v] && [k, v][1..] == [v];
    case Del(k) =>
      assert [DEL, k][1..] == [k];
  }

  lemma OperatorsPlain()
    ensures Plain(PUT) && Plain(DEL) && Plain(MPUT) && Plain(MDEL)
  {
  }

  /** A logged line parses back to its operation if and only if its tokens are safe. */
  lemma LineParsesIffSafe(op: Op)
    ensures Parse(Line(op)) == AsCommand(op) <==> OpSafe(op)
  {
    var ts := LineTokens(op);
    OperatorsPlain();
    LineIsJoin(op);
    LineHasWords(op);
    TokenizerUndoesPrinter(ts);
    assert AllSafe(ts) <==> OpSafe(op) by {
      assert ts[0] == PUT || ts[0] == DEL;
    }
    ParseInversion(op, Tokens(Line(op)));
  }

  lemma LineHasWords(op: Op)
    ensures Words(Line(op)) != []
  {
    var ts := LineTokens(op);
    OperatorsPlain();
    LineIsJoin(op);
    WordsOfJoin(ts);
    WordsOfWord(ts[0]);
  }

  lemma ParseInversion(op: Op, ts: seq<text>)
    requires ts != []
    ensures Dispatch(ts) == AsCommand(op) <==> ts == LineTokens(op)
  {
  }

  // ----- Replay -------------------------------------------------------------

  /** The store after the commands on some lines. */
  function ReplayLines(s: Store, ls: seq<text>): (r: Store)
    decreases |ls|
  {
    if ls == [] then s else ReplayLines(ApplyAll(s, Primitives(Parse(ls[0]))), ls[1..])
  }

  /** The store a log file stands for. */
  function Replay(file: text): (r: Store) { ReplayLines(map[], Lines(file)) }

  lemma {:induction false} ReplayLinesAppend(s: Store, a: seq<text>, b: seq<text>)
    ensures ReplayLines(s, a + b) == ReplayLines(ReplayLines(s, a), b)
    decreases |a|
  {
    if a == [] {
      assert a + b == b;
    } else {
      assert (a + b)[0] == a[0] && (a + b)[1..] == a[1..] + b;
      ReplayLinesAppend(ApplyAll(s, Primitives(Parse(a[0]))), a[1..], b);
    }
  }

  lemma {:induction false} JoinNoNewline(ts: seq<text>)
    requires forall i :: 0 <= i < |ts| ==> NoNewline(ts[i])
    ensures NoNewline(Join(ts))
  {
    if |ts| > 1 {
      JoinNoNewline(ts[1..]);
    }
  }

  lemma SafeNoNewline(t: text)
    requires LastSafe(t)
    ensures NoNewline(t)
  {
    if !Plain(t) {
      var ws := Words(t);
      forall i | 0 <= i < |ws|
        ensures NoNewline(ws[i])
      {
        assert IsWord(ws[i]);
      }
      JoinNoNewline(ws);
    }
  }

  lemma SafeLineNoNewline(op: Op)
    requires OpSafe(op)
    ensures NoNewline(Line(op))
  {
    match op
    case Put(k, v) => SafeNoNewline(k); SafeNoNewline(v);
    case Del(k) => SafeNoNewline(k);
  }

  /** Replaying printed operations applies them. */
  lemma {:induction false} ReplayPrinted(s: Store, ops: seq<Op>)
    requires OpsSafe(ops)
    ensures ReplayLines(s, Lines(Print(ops))) == ApplyAll(s, ops)
    decreases |ops|
  {
    if ops != [] {
      var op := ops[0];
      SafeLineNoNewline(op);
      LinesCons(Line(op), Print(ops[1..]));
      LineParsesIffSafe(op);
      assert ([Line(op)] + Lines(Print(ops[1..])))[1..] == Lines(Print(ops[1..]));
      PrimitivesOfOp(s, op);
      ReplayPrinted(Apply(s, op), ops[1..]);
    }
  }

  lemma PrimitivesOfOp(s: Store, op: Op)
    ensures Primitives(AsCommand(op)) == [op] && ApplyAll(s, Primitives(AsCommand(op))) == Apply(s, op)
  {
    assert ApplyAll(s, [op]) == ApplyAll(Apply(s, op), []);
  }

  /** A log extended by printed operations replays to the store extended by them. */
  lemma ReplayExtended(base: text, ops: seq<Op>)
    requires Terminated(base) && OpsSafe(ops)
    ensures Replay(base + Print(ops)) == ApplyAll(Replay(base), ops)
  {
    LinesAppend(base, Print(ops));
    ReplayLinesAppend(map[], Lines(base), Lines(Print(ops)));
    ReplayPrinted(Replay(base), ops);
  }

  lemma TerminatedAppend(base: text, ops: seq<Op>)
    requires Terminated(base)
    ensures Terminated(base + Print(ops))
  {
    PrintTerminated(ops);
    if Print(ops) == [] { assert base + Print(ops) == base; }
  }

  /** A line that begins with a word keeps it as its first token, if it has no leading quote. */
  lemma FirstToken(w: text, rest: text)
    requires Plain(w)
    ensures Words(w + ([SPACE] + rest)) != [] && Tokens(w + ([SPACE] + rest))[0] == w
  {
    WordsConcat(w, [SPACE] + rest);
    WordsOfWord(w);
  }

  /** Whatever the tokens, a logged line is never an mput or mdel: replaying it appends nothing. */
  lemma ReplayLogsNothing(op: Op)
    ensures Logged(Parse(Line(op)), true) == []
  {
    OperatorsPlain();
    var w := if op.Put? then PUT else DEL;
    var rest := if op.Put? then op.key + [SPACE] + op.value else op.key;
    assert Line(op) == w + ([SPACE] + rest);
    FirstToken(w, rest);
    assert Parse(Line(op)) == Dispatch(Tokens(Line(op)));
  }

  /** What replaying some lines would append to the log. */
  function ReplayLogged(ls: seq<text>): (ops: seq<Op>)
    decreases |ls|
  {
    if ls == [] then [] else Logged(Parse(ls[0]), true) + ReplayLogged(ls[1..])
  }

  /** Replaying the file appends nothing. */
  predicate Silent(file: text) { ReplayLogged(Lines(file)) == [] }

  lemma {:induction false} ReplayLoggedAppend(a: seq<text>, b: seq<text>)
    ensures ReplayLogged(a + b) == ReplayLogged(a) + ReplayLogged(b)
    decreases |a|
  {
    if a == [] {
      assert a + b == b;
    } else {
      assert (a + b)[0] == a[0] && (a + b)[1..] == a[1..] + b;
      ReplayLoggedAppend(a[1..], b);
      Associate(Logged(Parse(a[0]), true), ReplayLogged(a[1..]), ReplayLogged(b));
    }
  }

  lemma {:induction false} PrintedSilent(ops: seq<Op>)
    requires OpsSafe(ops)
    ensures Silent(Print(ops))
    decreases |ops|
  {
    if ops != [] {
      SafeLineNoNewline(ops[0]);
      LinesCons(Line(ops[0]), Print(ops[1..]));
      ReplayLogsNothing(ops[0]);
      PrintedSilent(ops[1..]);
      assert ([Line(ops[0])] + Lines(Print(ops[1..])))[1..] == Lines(Print(ops[1..]));
    }
  }

  lemma SilentExtended(base: text, ops: seq<Op>)
    requires Terminated(base) && Silent(base) && OpsSafe(ops)
    ensures Silent(base + Print(ops))
  {
    LinesAppend(base, Print(ops));
    ReplayLoggedAppend(Lines(base), Lines(Print(ops)));
    PrintedSilent(ops);
  }

  // ----- Counting changes ---------------------------------------------------

  /** How many of the operations change the store: every put, and deletes of present keys. */
  function Changes(s: Store, ops: seq<Op>): (n: nat)
    decreases |ops|
  {
    if ops == [] then 0
    else (if ops[0].Put? || ops[0].key in s then 1 else 0) + Changes(Apply(s, ops[0]), ops[1..])
  }

  /** No change counted means no change made. */
  lemma {:induction false} NoChanges(s: Store, ops: seq<Op>)
    requires Changes(s, ops) == 0
    ensures ApplyAll(s, ops) == s
    decreases |ops|
  {
    if ops != [] {
      assert s - {ops[0].key} == s;
      NoChanges(s, ops[1..]);
    }
  }

  /** The present values of some keys, in order. */
  function Found(s: Store, keys: seq<text>): (vs: seq<text>) {
    if keys == [] then [] else (if keys[0] in s then [s[keys[0]]] else []) + Found(s, keys[1..])
  }

  lemma FoundOne(s: Store, k: text)
    ensures Found(s, [k]) == if k in s then [s[k]] else []
  {
    assert Found(s, [k][1..]) == [];
  }

  lemma {:induction false} FoundAppend(s: Store, a: seq<text>, b: seq<text>)
    ensures Found(s, a + b) == Found(s, a) + Found(s, b)
  {
    if a == [] {
      assert a + b == b;
    } else {
      assert (a + b)[1..] == a[1..] + b;
      FoundAppend(s, a[1..], b);
    }
  }

  // ----- Command lines, letter by letter ------------------------------------

  /** Pairs of a key and a value, set from left to right. */
  function WithPairs(s: Store, items: seq<text>): (r: Store)
    decreases |items|
  {
    if |items| < 2 then s else WithPairs(s[items[0] := items[1]], items[2..])
  }

  lemma {:induction false} PutsSetPairs(s: Store, items: seq<text>)
    requires |items| % 2 == 0
    ensures ApplyAll(s, Puts(items)) == WithPairs(s, items)
    decreases |items|
  {
    if items != [] {
      assert Puts(items)[0] == Put(items[0], items[1]) && Puts(items)[1..] == Puts(items[2..]);
      PutsSetPairs(s[items[0] := items[1]], items[2..]);
    }
  }

  lemma {:induction false} DelsRemove(s: Store, keys: seq<text>)
    ensures ApplyAll(s, Dels(keys)) == s - set k | k in keys
    decreases |keys|
  {
    if keys != [] {
      assert Dels(keys)[0] == Del(keys[0]) && Dels(keys)[1..] == Dels(keys[1..]);
      DelsRemove(s - {keys[0]}, keys[1..]);
      assert (set k | k in keys) == {keys[0]} + set k | k in keys[1..];
    }
  }

  /** What the line with these tokens makes of a store: put, del, mput and mdel by their
      letters, with as many tokens as each takes, and nothing otherwise. */
  function Effect(ts: seq<text>, s: Store): (r: Store) {
    if |ts| == 3 && ts[0] == [112, 117, 116] then s[ts[1] := ts[2]]
    else if |ts| == 2 && ts[0] == [100, 101, 108] then s - {ts[1]}
    else if |ts| >= 5 && |ts| % 2 == 1 && ts[0] == [109, 112, 117, 116] then WithPairs(s, ts[1..])
    else if |ts| >= 3 && ts[0] == [109, 100, 101, 108] then s - set k | k in ts[1..]
    else s
  }

  /** get with one key, mget with two or more. */
  predicate Asks(ts: seq<text>) {
    (|ts| == 2 && ts[0] == [103, 101, 116]) || (|ts| >= 3 && ts[0] == [109, 103, 101, 116])
  }

  /** What it answers: the values of the keys that are present, in order. */
  function Answer(ts: seq<text>, s: Store): (vs: seq<text>) { if Asks(ts) then Found(s, ts[1..]) else [] }

  /** What a command line does, from its tokens alone. Asking changes and logs nothing. */
  lemma LineEffect(line: text, s: Store)
    ensures var ts, c := Tokens(line), Parse(line);
            && ApplyAll(s, Primitives(c)) == Effect(ts, s)
            && (if c.Query? then Found(s, c.keys) else []) == Answer(ts, s)
            && (Asks(ts) ==> Primitives(c) == [] && Effect(ts, s) == s)
  {
    var ts, c := Tokens(line), Parse(line);
    match c
    case PutCommand(k, v) => PrimitivesOfOp(s, Put(k, v));
    case DelCommand(k) => PrimitivesOfOp(s, Del(k));
    case MPutCommand(items) => PutsSetPairs(s, items);
    case MDelCommand(keys) => DelsRemove(s, keys);
    case _ =>
  }

  /** Which command it is, by its name and the number of its arguments; any other is unknown. */
  predicate CommandIs(c: Command, name: text, args: seq<text>) {
    var n := |args|;
    if name == [112, 117, 116] && n == 2 then c == PutCommand(args[0], args[1])
    else if name == [100, 101, 108] && n == 1 then c == DelCommand(args[0])
    else if name == [103, 101, 116] && n == 1 then c == Query(args)
    else if name == [109, 112, 117, 116] && n >= 4 && n % 2 == 0 then c == MPutCommand(args)
    else if name == [109, 100, 101, 108] && n >= 2 then c == MDelCommand(args)
    else if name == [109, 103, 101, 116] && n >= 2 then c == Query(args)
    else c == Unknown
  }

  lemma DispatchedCommand(ts: seq<text>)
    requires ts != []
    ensures CommandIs(Dispatch(ts), ts[0], ts[1..])
  {
  }

  /** A command joined from log-safe tokens, the last possibly a phrase left open. */
  lemma JoinedCommand(name: text, args: seq<text>)
    requires AllSafe([name] + args)
    ensures CommandIs(Parse(Join([name] + args)), name, args)
  {
    hide Dispatch, CommandIs, AllSafe;
    var ts := [name] + args;
    TokenizerUndoesPrinter(ts);
    DispatchedCommand(ts);
    assert ts[1..] == args;
  }

  /** A key or a value in quotes is the key or the value without them, whatever other bytes it
      has but whitespace. */
  lemma QuotesDoNotMatter(qk: text, k: text, qv: text, v: text)
    requires Typed(qk, k) && Typed(qv, v)
    ensures Parse(Join([PUT, qk, qv])) == PutCommand(k, v) && Parse(Join([DEL, qk])) == DelCommand(k)
  {
    QuotesStripped([PUT, qk, qv], [PUT, k, v]);
    QuotesStripped([DEL, qk], [DEL, k]);
  }

  /** The bytes logged for a put and for a del. */
  lemma LoggedBytes(k: text, v: text)
    ensures Print([Put(k, v)]) == [112, 117, 116, 32] + k + [32] + v + [10]
    ensures Print([Del(k)]) == [100, 101, 108, 32] + k + [10]
  {
    assert [Put(k, v)][1..] == [] && [Del(k)][1..] == [];
    assert Print([]) == [];
  }

  // ----- Compaction ---------------------------------------------------------

  /** An order in which the map may be enumerated. */
  ghost predicate Enumerates(order: seq<text>, s: Store) {
    && (forall i :: 0 <= i < |order| ==> order[i] in s)
    && (forall k :: k in s ==> k in order)
    && (forall i, j :: 0 <= i < j < |order| ==> order[i] != order[j])
  }

  /** One put for each entry, in that order. */
  function Compacted(order: seq<text>, s: Store): (ops: seq<Op>)
    requires forall i :: 0 <= i < |order| ==> order[i] in s
    ensures |ops| == |order| && forall i :: 0 <= i < |ops| ==> ops[i] == Put(order[i], s[order[i]])
  {
    seq(|order|, i requires 0 <= i < |order| => Put(order[i], s[order[i]]))
  }

  lemma {:induction false} PutsGive(t: Store, order: seq<text>, s: Store)
    requires forall i :: 0 <= i < |order| ==> order[i] in s
    ensures var r := ApplyAll(t, Compacted(order, s));
            && (forall k :: k in r <==> k in t || k in order)
            && forall k :: k in r ==> r[k] == if k in order then s[k] else t[k]
    decreases |order|
  {
    if order != [] {
      var k := order[0];
      assert Compacted(order, s)[1..] == Compacted(order[1..], s);
      PutsGive(t[k := s[k]], order[1..], s);
    }
  }

  predicate StoreSafe(s: Store) {
    forall k :: k in s ==> LogSafe(k) && LastSafe(s[k])
  }

  lemma CompactedRebuilds(order: seq<text>, s: Store)
    requires Enumerates(order, s)
    ensures ApplyAll(map[], Compacted(order, s)) == s
  {
    PutsGive(map[], order, s);
  }

  lemma {:induction false} SafeStoreKept(s: Store, ops: seq<Op>)
    requires StoreSafe(s) && OpsSafe(ops)
    ensures StoreSafe(ApplyAll(s, ops))
    decreases |ops|
  {
    if ops != [] {
      assert OpSafe(ops[0]);
      SafeStoreKept(Apply(s, ops[0]), ops[1..]);
    }
  }

  /** The compacted log replays to the store it was made from, whatever the order. */
  lemma CompactedReplays(order: seq<text>, s: Store)
    requires Enumerates(order, s) && StoreSafe(s)
    ensures Replay(Print(Compacted(order, s))) == s
  {
    var ops := Compacted(order, s);
    assert OpsSafe(ops);
    CompactedRebuilds(order, s);
    ReplayPrinted(map[], ops);
  }

  lemma {:induction false} StoreSize(s: Store, ops: seq<Op>)
    ensures |ApplyAll(s, ops)| <= |s| + |ops|
    decreases |ops|
  {
    if ops != [] {
      ApplySize(s, ops[0]);
      StoreSize(Apply(s, ops[0]), ops[1..]);
    }
  }

  lemma ApplySize(s: Store, op: Op)
    ensures |Apply(s, op)| <= |s| + 1
  {
    match op
    case Put(k, v) =>
      assert s[k := v].Keys == s.Keys + {k};
    case Del(k) =>
      assert (s - {k}).Keys == s.Keys - {k};
  }

  lemma RestEnumerates(order: seq<text>, s: Store)
    requires Enumerates(order, s) && order != []
    ensures Enumerates(order[1..], s - {order[0]}) && |s| == |s - {order[0]}| + 1
  {
    var k := order[0];
    var rest := s - {k};
    forall j | j in rest
      ensures j in order[1..]
    {
      assert j in order && j != k;
    }
    assert s.Keys == rest.Keys + {k};
  }

  lemma {:induction false} EnumerationLength(order: seq<text>, s: Store)
    requires Enumerates(order, s)
    ensures |order| == |s|
    decreases |order|
  {
    if order == [] {
      assert s.Keys == {};
    } else {
      RestEnumerates(order, s);
      EnumerationLength(order[1..], s - {order[0]});
    }
  }

  /** A log whose lines are single puts and deletes needs a line for every entry. */
  lemma {:induction false} ReplaySize(s: Store, ls: seq<text>)
    requires forall i :: 0 <= i < |ls| ==> |Primitives(Parse(ls[i]))| <= 1
    ensures |ReplayLines(s, ls)| <= |s| + |ls|
    decreases |ls|
  {
    if ls != [] {
      StoreSize(s, Primitives(Parse(ls[0])));
      ReplaySize(ApplyAll(s, Primitives(Parse(ls[0]))), ls[1..]);
    }
  }

  lemma {:induction false} PrintedLines(ops: seq<Op>)
    requires OpsSafe(ops)
    ensures |Lines(Print(ops))| == |ops|
    decreases |ops|
  {
    if ops != [] {
      SafeLineNoNewline(ops[0]);
      LinesCons(Line(ops[0]), Print(ops[1..]));
      PrintedLines(ops[1..]);
    }
  }

  /** No log without mput and mdel lines that has fewer lines replays to the same store,
      whatever its lines are. */
  lemma CompactedIsShortest(order: seq<text>, s: Store, file: text)
    requires Enumerates(order, s) && StoreSafe(s) && Replay(file) == s
    requires forall i :: 0 <= i < |Lines(file)| ==> |Primitives(Parse(Lines(file)[i]))| <= 1
    ensures |Lines(Print(Compacted(order, s)))| <= |Lines(file)|
  {
    var ops := Compacted(order, s);
    assert OpsSafe(ops);
    EnumerationLength(order, s);
    PrintedLines(ops);
    ReplaySize(map[], Lines(file));
  }

  // ----- Safe command lines -------------------------------------------------

  /** Whether every one-word quoted token is a plain word once its quotes are gone. */
  predicate StripsPlain(ws: seq<text>)
    requires AllWords(ws)
    decreases |ws|
  {
    if ws == [] then true
    else if !Opens(ws[0]) then StripsPlain(ws[1..])
    else
      var n := QuotedCount(ws);
      (n == 1 ==> Plain(StripQuotes(ws[0]))) && StripsPlain(ws[n..])
  }

  lemma AllSafeCons(t: text, ts: seq<text>)
    ensures AllSafe([t] + ts) <==> (if ts == [] then LastSafe(t) else LogSafe(t)) && AllSafe(ts)
  {
    var all := [t] + ts;
    if AllSafe(all) {
      assert all[0] == t;
      forall i | 0 <= i < |ts|
        ensures if i == |ts| - 1 then LastSafe(ts[i]) else LogSafe(ts[i])
      {
        assert all[i + 1] == ts[i];
      }
    }
  }

  lemma StrippedSafe(w: text)
    requires IsWord(w)
    ensures LogSafe(StripQuotes(w)) == LastSafe(StripQuotes(w)) == Plain(StripQuotes(w))
  {
    WordsOfNoSpace(StripQuotes(w));
  }

  lemma AllLastSafeCons(t: text, ts: seq<text>)
    requires AllLastSafe([t] + ts)
    ensures LastSafe(t) && AllLastSafe(ts)
  {
    var all := [t] + ts;
    assert all[0] == t;
    forall i | 0 <= i < |ts|
      ensures LastSafe(ts[i])
    {
      assert all[i + 1] == ts[i];
    }
  }

  predicate AllLastSafe(ts: seq<text>) { forall i :: 0 <= i < |ts| ==> LastSafe(ts[i]) }

  /** The tokens of an input are safe exactly when stripping the quotes off one-word tokens
      leaves plain words; phrases always are, and open ones only come last. */
  lemma {:induction false} TokensSafeIffStripsPlain(ws: seq<text>)
    requires AllWords(ws)
    ensures AllSafe(Group(ws)) <==> StripsPlain(ws)
    ensures AllLastSafe(Group(ws)) ==> StripsPlain(ws)
    decreases |ws|
  {
    if ws != [] {
      var n := if Opens(ws[0]) then QuotedCount(ws) else 1;
      TokensSafeIffStripsPlain(ws[n..]);
      AllSafeCons(Group(ws)[0], Group(ws[n..]));
      if AllLastSafe(Group(ws)) { AllLastSafeCons(Group(ws)[0], Group(ws[n..])); }
      if Opens(ws[0]) {
        if n == 1 { StrippedSafe(ws[0]); } else { SeveralWords(ws, n); }
      }
    }
  }

  /** Commands with safe tokens amount to safe operations. */
  lemma SafeTokensSafeOps(ts: seq<text>)
    requires ts != [] && AllSafe(ts)
    ensures OpsSafe(Primitives(Dispatch(ts)))
  {
    var c := Dispatch(ts);
    assert forall i :: 0 <= i < |ts| ==> LastSafe(ts[i]);
    if c.MPutCommand? {
      var ops := Puts(c.items);
      forall i | 0 <= i < |ops|
        ensures OpSafe(ops[i])
      {
        assert c.items[2 * i] == ts[2 * i + 1] && c.items[2 * i + 1] == ts[2 * i + 2];
      }
    }
  }

  /** All tokens of a command that changes something go into its operations. */
  lemma SafeOpsSafeTokens(ts: seq<text>)
    requires ts != [] && Primitives(Dispatch(ts)) != [] && OpsSafe(Primitives(Dispatch(ts)))
    ensures AllLastSafe(ts)
  {
    var c, ops := Dispatch(ts), Primitives(Dispatch(ts));
    OperatorsPlain();
    forall i | 0 < i < |ts|
      ensures LastSafe(ts[i])
    {
      if c.MPutCommand? {
        assert OpSafe(ops[(i - 1) / 2]) && c.items[i - 1] == ts[i];
      } else if c.MDelCommand? {
        assert OpSafe(ops[i - 1]) && c.keys[i - 1] == ts[i];
      } else {
        assert OpSafe(ops[0]);
      }
    }
  }

  /** A command line all of whose operations can be logged safely. */
  predicate SafeLine(line: text) { OpsSafe(Primitives(Parse(line))) }

  /** A line that changes something is safe if and only if every one-word quoted token of it
      is a plain word without its quotes. */
  lemma SafeLineIffStripsPlain(line: text)
    requires Primitives(Parse(line)) != []
    ensures SafeLine(line) <==> StripsPlain(Words(line))
  {
    TokensSafeIffStripsPlain(Words(line));
    if SafeLine(line) { SafeOpsSafeTokens(Tokens(line)); }
    if StripsPlain(Words(line)) { SafeTokensSafeOps(Tokens(line)); }
  }

  // ----- Where the log loses a command --------------------------------------

  lemma EmptyQuotes(v: text)
    requires Plain(v)
    ensures var q: text := [QUOTE, QUOTE]; Group([q, v]) == [[], v]
  {
    var q: text := [QUOTE, QUOTE];
    assert [q, v][..1] == [q] && [q, v][1..] == [v] && [v][1..] == [];
    assert QuotedCount([q, v]) == 1 && QuotedToken([q]) == [];
    assert Group([v]) == [v];
  }

  /** `put "" v` is a put of the empty key. */
  lemma EmptyKeyIsStored(v: text)
    requires Plain(v)
    ensures Parse(Join([PUT, [QUOTE, QUOTE], v])) == PutCommand([], v)
  {
    var q: text := [QUOTE, QUOTE];
    OperatorsPlain();
    WordsOfJoin([PUT, q, v]);
    WordsOfAllWords([PUT, q, v]);
    assert [PUT, q, v][1..] == [q, v];
    EmptyQuotes(v);
    assert Tokens(Join([PUT, q, v])) == [PUT, [], v];
  }

  /** The line logged for it has one token too few and replays to nothing. */
  lemma EmptyKeyIsLost(v: text)
    requires Plain(v)
    ensures Replay(Print([Put([], v)])) == map[] != Apply(map[], Put([], v))
  {
    var op := Put([], v);
    assert [] in Apply(map[], op);
    OperatorsPlain();
    EmptyKeyWords(v);
    PlainPair(PUT, v);
    OneLine(op);
    ReplayOneLine(Line(op));
  }

  lemma EmptyKeyWords(v: text)
    requires Plain(v)
    ensures Words(Line(Put([], v))) == [PUT, v]
  {
    var tail: text := [SPACE] + v;
    assert Line(Put([], v)) == PUT + ([SPACE] + tail);
    OperatorsPlain();
    WordsConcat(PUT, [SPACE] + tail);
    WordsOfWord(PUT);
    WordsOfWord(v);
    assert ([SPACE] + tail)[1..] == tail && tail[1..] == v;
  }

  lemma ReplayOneLine(l: text)
    ensures ReplayLines(map[], [l]) == ApplyAll(map[], Primitives(Parse(l)))
  {
    assert [l][1..] == [];
  }

  lemma OneLine(op: Op)
    requires NoNewline(Line(op))
    ensures Lines(Print([op])) == [Line(op)]
  {
    var none: text := [];
    assert [op][1..] == [];
    LinesCons(Line(op), none);
    assert [Line(op)] + Lines(none) == [Line(op)];
  }
}
