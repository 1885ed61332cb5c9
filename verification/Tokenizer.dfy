/** The tokenizer: words, except that a word with a leading quote swallows the words up to
    one with a trailing quote. It undoes the printing of exactly the log-safe tokens. */
module Tokenizer {
  import opened Bytes
  import opened Text

  predicate Opens(w: text) { w != [] && w[0] == QUOTE }

  predicate Closes(w: text) { w != [] && w[|w| - 1] == QUOTE }

  /** How many words a quoted token takes: up to the first that ends in a quote, or all. */
  function QuotedCount(ws: seq<text>): (n: nat)
    requires ws != []
    ensures 1 <= n <= |ws|
  {
    if Closes(ws[0]) || |ws| == 1 then 1 else 1 + QuotedCount(ws[1..])
  }

  /** substr(1, size - 2), which on a lone quote runs to the end and is empty. */
  function StripQuotes(w: text): (s: text)
    requires w != []
  { if |w| == 1 then [] else w[1..|w| - 1] }

  /** A quoted token keeps its quotes unless it is a single word. */
  function QuotedToken(ws: seq<text>): (t: text)
    requires ws != [] && ws[0] != []
  { if |ws| == 1 then StripQuotes(ws[0]) else Join(ws) }

  function Group(ws: seq<text>): (ts: seq<text>)
    requires AllWords(ws)
    decreases |ws|
  {
    if ws == [] then []
    else if !Opens(ws[0]) then [ws[0]] + Group(ws[1..])
    else
      var n := QuotedCount(ws);
      [QuotedToken(ws[..n])] + Group(ws[n..])
  }

  function Tokens(input: text): (ts: seq<text>) { Group(Words(input)) }

  // ----- Log-safe tokens ----------------------------------------------------

  /** A word without a leading quote. */
  predicate Plain(t: text) { IsWord(t) && !Opens(t) }

  predicate NoneCloses(ws: seq<text>) { forall i :: 0 <= i < |ws| ==> !Closes(ws[i]) }

  /** Two or more words joined by single spaces, the first with a leading quote. */
  predicate Quoted(t: text) { Opens(t) && |Words(t)| >= 2 && Join(Words(t)) == t }

  /** ... of which only the last ends in a quote. */
  predicate Phrase(t: text) {
    && Quoted(t)
    && Closes(Words(t)[|Words(t)| - 1])
    && NoneCloses(Words(t)[..|Words(t)| - 1])
  }

  /** ... of which none ends in a quote: it can only be the last token of its line. */
  predicate OpenPhrase(t: text) { Quoted(t) && NoneCloses(Words(t)) }

  predicate LogSafe(t: text) { Plain(t) || Phrase(t) }

  predicate LastSafe(t: text) { LogSafe(t) || OpenPhrase(t) }

  predicate AllSafe(ts: seq<text>) {
    forall i :: 0 <= i < |ts| ==> if i == |ts| - 1 then LastSafe(ts[i]) else LogSafe(ts[i])
  }

  // ----- Safe tokens come back ----------------------------------------------

  lemma {:induction false} QuotedCountIs(ws: seq<text>, n: nat)
    requires 1 <= n <= |ws| && NoneCloses(ws[..n - 1]) && (Closes(ws[n - 1]) || n == |ws|)
    ensures QuotedCount(ws) == n
  {
    if n > 1 {
      assert ws[..n - 1][0] == ws[0];
      assert ws[1..][..n - 2] == ws[..n - 1][1..];
      QuotedCountIs(ws[1..], n - 1);
    }
  }

  /** The words of a safe token at the front are grouped back into it. */
  lemma GroupSafe(t: text, rest: seq<text>)
    requires AllWords(rest) && if rest == [] then LastSafe(t) else LogSafe(t)
    ensures Group(Words(t) + rest) == [t] + Group(rest)
  {
    var ws := Words(t);
    if Plain(t) {
      WordsOfWord(t);
      assert (ws + rest)[1..] == rest;
    } else {
      var n := |ws|;
      assert ws[0] != [] && t[0] == ws[0][0];
      assert (ws + rest)[..n] == ws && (ws + rest)[n..] == rest && (ws + rest)[0] == ws[0];
      assert (ws + rest)[..n - 1] == ws[..n - 1];
      QuotedCountIs(ws + rest, n);
    }
  }

  lemma {:induction false} SafeTokensReturn(ts: seq<text>)
    requires AllSafe(ts)
    ensures Group(WordsOfAll(ts)) == ts
  {
    if ts != [] {
      var rest := WordsOfAll(ts[1..]);
      SafeTokensReturn(ts[1..]);
      if |ts| > 1 {
        assert LogSafe(ts[0]);
      } else {
        assert LastSafe(ts[0]) && ts[1..] == [];
      }
      GroupSafe(ts[0], rest);
      assert [ts[0]] + ts[1..] == ts;
    }
  }

  // ----- Only safe tokens come back -----------------------------------------

  lemma JoinedWords(ws: seq<text>)
    requires AllWords(ws)
    ensures Words(Join(ws)) == ws
  {
    WordsOfJoin(ws);
    WordsOfAllWords(ws);
  }

  /** Stripping quotes never adds a word. */
  lemma TokenWords(ws: seq<text>)
    requires AllWords(ws) && ws != []
    ensures |Words(QuotedToken(ws))| <= |ws|
    ensures |ws| > 1 ==> Words(QuotedToken(ws)) == ws
  {
    if |ws| == 1 {
      WordsOfNoSpace(StripQuotes(ws[0]));
    } else {
      JoinedWords(ws);
    }
  }

  lemma {:induction false} GroupWords(ws: seq<text>)
    requires AllWords(ws)
    ensures |WordsOfAll(Group(ws))| <= |ws|
    decreases |ws|
  {
    if ws != [] {
      var n := if Opens(ws[0]) then QuotedCount(ws) else 1;
      GroupWords(ws[n..]);
      if Opens(ws[0]) {
        TokenWords(ws[..n]);
        GroupFirst([QuotedToken(ws[..n])], Group(ws[n..]));
      } else {
        WordsOfWord(ws[0]);
        GroupFirst([ws[0]], Group(ws[1..]));
      }
    }
  }

  lemma GroupFirst(t: seq<text>, ts: seq<text>)
    requires |t| == 1
    ensures WordsOfAll(t + ts) == Words(t[0]) + WordsOfAll(ts)
  {
    assert (t + ts)[1..] == ts;
  }

  lemma {:induction false} QuotedCountStops(ws: seq<text>)
    requires ws != []
    ensures var n := QuotedCount(ws); NoneCloses(ws[..n - 1]) && (Closes(ws[n - 1]) || n == |ws|)
  {
    var n := QuotedCount(ws);
    if n > 1 {
      QuotedCountStops(ws[1..]);
      assert ws[..n - 1] == [ws[0]] + ws[1..][..n - 2];
    }
  }

  lemma NoneClosesSnoc(ws: seq<text>)
    requires ws != [] && NoneCloses(ws[..|ws| - 1]) && !Closes(ws[|ws| - 1])
    ensures NoneCloses(ws)
  {
    assert ws == ws[..|ws| - 1] + [ws[|ws| - 1]];
  }

  lemma PhraseFromWords(t: text, ws: seq<text>)
    requires AllWords(ws) && |ws| > 1 && Opens(ws[0]) && Join(ws) == t && Words(t) == ws
    requires NoneCloses(ws[..|ws| - 1])
    ensures if Closes(ws[|ws| - 1]) then Phrase(t) else OpenPhrase(t)
  {
    assert t[0] == ws[0][0];
    if !Closes(ws[|ws| - 1]) { NoneClosesSnoc(ws); }
  }

  /** A token that came from several words is a phrase, or an open one at the end. */
  lemma SeveralWords(ws: seq<text>, n: nat)
    requires AllWords(ws) && 1 < n <= |ws| && Opens(ws[0]) && n == QuotedCount(ws)
    ensures if Closes(ws[n - 1]) then Phrase(QuotedToken(ws[..n])) else n == |ws| && OpenPhrase(QuotedToken(ws[..n]))
  {
    QuotedCountStops(ws);
    var us := ws[..n];
    assert us[..n - 1] == ws[..n - 1] && us[n - 1] == ws[n - 1] && us[0] == ws[0];
    SeveralWordsTaken(us);
  }

  lemma SeveralWordsTaken(us: seq<text>)
    requires AllWords(us) && |us| > 1 && Opens(us[0]) && NoneCloses(us[..|us| - 1])
    ensures if Closes(us[|us| - 1]) then Phrase(QuotedToken(us)) else OpenPhrase(QuotedToken(us))
  {
    JoinedWords(us);
    PhraseFromWords(QuotedToken(us), us);
  }

  /** A token that came from one quoted word is not that word. */
  lemma OneQuotedWord(w: text)
    requires IsWord(w)
    ensures Words(StripQuotes(w)) != [w]
  {
    WordsOfNoSpace(StripQuotes(w));
  }

  /** Counting words shows that the first token was made of exactly its own words. */
  lemma FirstReturned(ts: seq<text>, ws: seq<text>, rest: seq<text>) returns (n: nat)
    requires ts != [] && AllWords(ws) && Group(ws) == ts && ws == Words(ts[0]) + rest
    requires rest == WordsOfAll(ts[1..])
    ensures 1 <= n <= |ws| && n == if Opens(ws[0]) then QuotedCount(ws) else 1
    ensures ts[0] == if Opens(ws[0]) then QuotedToken(ws[..n]) else ws[0]
    ensures ws[..n] == Words(ts[0]) && Group(rest) == ts[1..] && rest == ws[n..]
  {
    n := if Opens(ws[0]) then QuotedCount(ws) else 1;
    GroupWords(ws[n..]);
    assert Group(ws[n..]) == ts[1..];
    if Opens(ws[0]) { TokenWords(ws[..n]); } else { WordsOfWord(ws[0]); }
    assert |Words(ts[0])| == n;
  }

  lemma {:induction false} ReturnedTokensAreSafe(ts: seq<text>)
    requires Group(WordsOfAll(ts)) == ts
    ensures AllSafe(ts)
  {
    if ts != [] {
      var ws := WordsOfAll(ts);
      var n := FirstReturned(ts, ws, WordsOfAll(ts[1..]));
      ReturnedTokensAreSafe(ts[1..]);
      if Opens(ws[0]) {
        if n == 1 { OneQuotedWord(ws[0]); } else { SeveralWords(ws, n); }
      }
    }
  }

  /** Tokenizing a printed list of tokens returns that list if and only if every token is
      log-safe, where the last one may also be a phrase left open. */
  lemma TokenizerUndoesPrinter(ts: seq<text>)
    ensures Tokens(Join(ts)) == ts <==> AllSafe(ts)
  {
    WordsOfJoin(ts);
    if AllSafe(ts) { SafeTokensReturn(ts); }
    if Tokens(Join(ts)) == ts { ReturnedTokensAreSafe(ts); }
  }

  // ----- Quoted words -------------------------------------------------------

  /** How a token without whitespace may be typed: as it is, if it is a word without a leading
      quote, or in quotes, whatever else it is. */
  predicate Typed(q: text, t: text) { NoSpace(t) && (q == [34] + t + [34] || (q == t && t != [] && t[0] != 34)) }

  lemma TypedWord(q: text, t: text, rest: seq<text>)
    requires Typed(q, t) && AllWords(rest)
    ensures IsWord(q) && Group([q] + rest) == [t] + Group(rest)
  {
    assert ([q] + rest)[1..] == rest && ([q] + rest)[..1] == [q];
    if Opens(q) {
      assert q == [34] + t + [34];
      assert QuotedCount([q] + rest) == 1;
    }
  }

  lemma {:induction false} TypedGroup(qs: seq<text>, ts: seq<text>)
    requires |qs| == |ts| && forall i :: 0 <= i < |qs| ==> Typed(qs[i], ts[i])
    ensures AllWords(qs) && Group(qs) == ts
  {
    if qs != [] {
      TypedGroup(qs[1..], ts[1..]);
      TypedWord(qs[0], ts[0], qs[1..]);
      assert qs == [qs[0]] + qs[1..] && ts == [ts[0]] + ts[1..];
    }
  }

  /** The quotes of one-word tokens are stripped, just these and all of them, and the tokens
      come back as they are: any token without whitespace can be entered. */
  lemma QuotesStripped(qs: seq<text>, ts: seq<text>)
    requires |qs| == |ts| && forall i :: 0 <= i < |qs| ==> Typed(qs[i], ts[i])
    ensures Tokens(Join(qs)) == ts
  {
    TypedGroup(qs, ts);
    JoinedWords(qs);
  }

  lemma GroupOne(w: text)
    requires IsWord(w)
    ensures Group([w]) == [if Opens(w) then StripQuotes(w) else w]
  {
    assert [w][..1] == [w] && [w][1..] == [];
    assert Group([w][1..]) == [];
  }

  /** A last word whose quote is left open loses its last byte. */
  lemma OpenWordCut(t: text)
    requires NoSpace(t) && t != [] && t[|t| - 1] != 34
    ensures Tokens([34] + t) == [t[..|t| - 1]]
  {
    var w: text := [34] + t;
    WordsOfWord(w);
    GroupOne(w);
    assert w[1..|w| - 1] == t[..|t| - 1];
  }

  /** Which bytes separate words. */
  lemma Separators(b: byte)
    ensures Tokens([65, b, 66]) == if b == 32 || 9 <= b <= 13 then [[65], [66]] else [[65, b, 66]]
  {
    var s: text := [65, b, 66];
    if IsSpace(b) {
      WordsOfWord([65]);
      WordsOfWord([66]);
      assert s == [65] + [b, 66] && [b, 66][1..] == [66];
      WordsConcat([65], [b, 66]);
      PlainPair([65], [66]);
    } else {
      WordsOfWord(s);
      GroupOne(s);
    }
  }

  lemma PlainPair(v: text, w: text)
    requires Plain(v) && Plain(w)
    ensures Group([v, w]) == [v, w]
  {
    assert [v, w][1..] == [w];
    GroupOne(w);
  }

  // ----- The loops ----------------------------------------------------------

  lemma SkipSpace(s: text, i: nat)
    requires i < |s|
    ensures IsSpace(s[i]) ==> Words(s[i..]) == Words(s[i + 1..])
    ensures !IsSpace(s[i]) ==> Words(s[i..]) != []
  {
    assert s[i..][1..] == s[i + 1..];
  }

  method IsAllSpace(input: text) returns (r: bool)
    ensures r <==> Words(input) == []
  {
    assert input[0..] == input;
    var i := 0;
    while i < |input|
      invariant i <= |input| && Words(input) == Words(input[i..])
    {
      SkipSpace(input, i);
      if !IsSpace(input[i]) { return false; }
      i := i + 1;
    }
    r := true;
  }

  method SkipSpaces(input: text, pos: nat) returns (next: nat)
    requires pos <= |input|
    ensures pos <= next <= |input| && Words(input[pos..]) == Words(input[next..])
    ensures next < |input| ==> !IsSpace(input[next])
  {
    next := pos;
    while next < |input| && IsSpace(input[next])
      invariant pos <= next <= |input| && Words(input[pos..]) == Words(input[next..])
    {
      SkipSpace(input, next);
      next := next + 1;
    }
  }

  lemma FirstWord(s: text, i: nat, j: nat)
    requires i < j <= |s| && NoSpace(s[i..j]) && (j < |s| ==> IsSpace(s[j]))
    ensures Words(s[i..]) == [s[i..j]] + Words(s[j..])
  {
    var t := s[i..];
    assert t[..j - i] == s[i..j] && t[j - i..] == s[j..];
    assert t[0] == s[i..j][0];
    WordLengthUnique(t, j - i);
  }

  /** Extraction of one word from a stream that stands at `pos`. */
  method NextWord(input: text, pos: nat) returns (ok: bool, w: text, next: nat)
    requires pos <= |input|
    ensures pos <= next <= |input|
    ensures ok ==> pos < next && IsWord(w) && Words(input[pos..]) == [w] + Words(input[next..])
    ensures !ok ==> Words(input[pos..]) == [] && Words(input[next..]) == []
  {
    var start := SkipSpaces(input, pos);
    next := start;
    while next < |input| && !IsSpace(input[next])
      invariant start <= next <= |input| && NoSpace(input[start..next])
    {
      assert input[start..next + 1] == input[start..next] + [input[next]];
      next := next + 1;
    }
    w := input[start..next];
    ok := start < next;
    if ok { FirstWord(input, start, next); }
  }

  lemma {:induction false} JoinSnoc(ws: seq<text>, w: text)
    requires ws != []
    ensures Join(ws + [w]) == Join(ws) + ([SPACE] + w)
  {
    if |ws| == 1 {
      assert (ws + [w])[1..] == [w];
    } else {
      JoinSnoc(ws[1..], w);
      assert (ws + [w])[1..] == ws[1..] + [w];
      Reassociate(ws[0], [SPACE], Join(ws[1..]), [SPACE] + w);
    }
  }

  lemma Reassociate<T>(a: seq<T>, b: seq<T>, c: seq<T>, d: seq<T>)
    ensures (a + (b + c)) + d == a + (b + (c + d))
  {
  }

  /** The words after a first one with a leading quote, up to one with a trailing quote. */
  method CollectQuoted(input: text, pos: nat, first: text) returns (buffer: text, next: nat, ghost taken: seq<text>)
    requires pos <= |input| && Opens(first) && IsWord(first)
    ensures pos <= next <= |input| && taken != [] && taken[0] == first && AllWords(taken)
    ensures [first] + Words(input[pos..]) == taken + Words(input[next..])
    ensures buffer == Join(taken) && (SPACE in buffer <==> |taken| > 1)
    ensures NoneCloses(taken[..|taken| - 1])
    ensures Closes(taken[|taken| - 1]) || Words(input[next..]) == []
  {
    taken := [first];
    var last := first;
    buffer, next := first, pos;
    while !Closes(last)
      invariant pos <= next <= |input| && taken != [] && last == taken[|taken| - 1] && taken[0] == first
      invariant [first] + Words(input[pos..]) == taken + Words(input[next..]) && AllWords(taken)
      invariant buffer == Join(taken) && (SPACE in buffer <==> |taken| > 1)
      invariant NoneCloses(taken[..|taken| - 1])
      decreases |input| - next
    {
      var ok, w, n := NextWord(input, next);
      next := n;
      if !ok { break; }
      assert (taken + [w])[..|taken|] == taken[..|taken| - 1] + [last];
      JoinSnoc(taken, w);
      buffer := buffer + ([SPACE] + w);
      taken := taken + [w];
      last := w;
    }
  }

  /** One token off the front of the stream. */
  method NextToken(input: text, pos: nat) returns (ok: bool, token: text, next: nat)
    requires pos <= |input|
    ensures pos <= next <= |input| && (ok ==> pos < next)
    ensures Group(Words(input[pos..])) == if ok then [token] + Group(Words(input[next..])) else []
  {
    ghost var ws := Words(input[pos..]);
    ok, token, next := NextWord(input, pos);
    if ok {
      if token[0] == QUOTE {
        ghost var taken;
        token, next, taken := CollectQuoted(input, next, token);
        GroupTaken(ws, taken, Words(input[next..]));
        if SPACE !in token { token := StripQuotes(token); }
      } else {
        assert ws[1..] == Words(input[next..]);
      }
    }
  }

  method Tokenize(input: text) returns (tokens: seq<text>)
    ensures tokens == Tokens(input)
  {
    tokens := [];
    var pos: nat := 0;
    assert input[0..] == input;
    while true
      invariant pos <= |input| && tokens + Group(Words(input[pos..])) == Tokens(input)
      decreases |input| - pos
    {
      var ok, token, next := NextToken(input, pos);
      if !ok { return; }
      Associate(tokens, [token], Group(Words(input[next..])));
      tokens := tokens + [token];
      pos := next;
    }
  }

  lemma Associate<T>(a: seq<T>, b: seq<T>, c: seq<T>)
    ensures a + (b + c) == (a + b) + c
  {
  }

  lemma GroupTaken(ws: seq<text>, taken: seq<text>, rest: seq<text>)
    requires AllWords(ws) && AllWords(rest) && ws == taken + rest && taken != [] && Opens(taken[0])
    requires NoneCloses(taken[..|taken| - 1]) && (Closes(taken[|taken| - 1]) || rest == [])
    ensures Group(ws) == [QuotedToken(taken)] + Group(rest)
  {
    var n := |taken|;
    assert ws[..n] == taken && ws[n..] == rest && ws[..n - 1] == taken[..n - 1];
    QuotedCountIs(ws, n);
  }
}
