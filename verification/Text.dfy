/** Text as bytes: whitespace, words, lines, and the tokens the tokenizer makes of words. */
module Text {
  import opened Bytes

  type text = seq<byte>

  const SPACE: byte := 32
  const QUOTE: byte := 34
  const NEWLINE: byte := 10

  predicate IsSpace(b: byte) { b == SPACE || 9 <= b <= 13 }

  predicate NoSpace(s: text) { forall i :: 0 <= i < |s| ==> !IsSpace(s[i]) }

  predicate IsWord(w: text) { w != [] && NoSpace(w) }

  predicate AllWords(ws: seq<text>) { forall i :: 0 <= i < |ws| ==> IsWord(ws[i]) }

  // ----- Words --------------------------------------------------------------

  /** The length of the leading run of bytes that are not whitespace. */
  function WordLength(s: text): (n: nat)
    ensures n <= |s| && NoSpace(s[..n]) && (n < |s| ==> IsSpace(s[n]))
  {
    if s == [] || IsSpace(s[0]) then 0
    else
      var n := 1 + WordLength(s[1..]);
      assert s[..n] == [s[0]] + s[1..][..n - 1];
      n
  }

  /** What extracting words from a stream until it fails yields. */
  function Words(s: text): (ws: seq<text>)
    ensures AllWords(ws)
    decreases |s|
  {
    if s == [] then []
    else if IsSpace(s[0]) then Words(s[1..])
    else
      var n := WordLength(s);
      [s[..n]] + Words(s[n..])
  }

  lemma {:induction false} WordLengthUnique(s: text, n: nat)
    requires n <= |s| && NoSpace(s[..n]) && (n < |s| ==> IsSpace(s[n]))
    ensures WordLength(s) == n
  {
    if n > 0 {
      assert s[..n][0] == s[0];
      assert s[1..][..n - 1] == s[..n][1..];
      WordLengthUnique(s[1..], n - 1);
    }
  }

  lemma WordsOfWord(w: text)
    requires IsWord(w)
    ensures Words(w) == [w]
  {
    assert w[..|w|] == w;
    WordLengthUnique(w, |w|);
    assert w[|w|..] == [];
  }

  lemma WordsOfNoSpace(s: text)
    requires NoSpace(s)
    ensures Words(s) == if s == [] then [] else [s]
  {
    if s != [] { WordsOfWord(s); }
  }

  /** Whitespace between two texts keeps their words apart. */
  lemma {:induction false} WordsConcat(a: text, b: text)
    requires b != [] ==> IsSpace(b[0])
    ensures Words(a + b) == Words(a) + Words(b)
    decreases |a|
  {
    if a == [] {
      assert a + b == b;
    } else if IsSpace(a[0]) {
      assert (a + b)[1..] == a[1..] + b;
      WordsConcat(a[1..], b);
    } else {
      var n := WordLength(a);
      assert (a + b)[..n] == a[..n] && (a + b)[n..] == a[n..] + b;
      WordLengthUnique(a + b, n);
      WordsConcat(a[n..], b);
      assert Words(a + b) == [a[..n]] + (Words(a[n..]) + Words(b));
    }
  }

  // ----- Joining ------------------------------------------------------------

  /** Texts with single spaces between them. */
  function Join(ws: seq<text>): (s: text)
    ensures |ws| == 1 ==> s == ws[0]
  {
    if ws == [] then []
    else if |ws| == 1 then ws[0]
    else ws[0] + ([SPACE] + Join(ws[1..]))
  }

  /** All the words of several texts, one text after the other. */
  function WordsOfAll(ts: seq<text>): (ws: seq<text>)
    ensures AllWords(ws)
  {
    if ts == [] then [] else Words(ts[0]) + WordsOfAll(ts[1..])
  }

  lemma {:induction false} WordsOfJoin(ts: seq<text>)
    ensures Words(Join(ts)) == WordsOfAll(ts)
  {
    if |ts| == 1 {
      assert ts[1..] == [];
    } else if ts != [] {
      var rest := [SPACE] + Join(ts[1..]);
      WordsOfJoin(ts[1..]);
      WordsConcat(ts[0], rest);
      assert rest[1..] == Join(ts[1..]);
    }
  }

  lemma {:induction false} WordsOfAllWords(ws: seq<text>)
    requires AllWords(ws)
    ensures WordsOfAll(ws) == ws
  {
    if ws != [] {
      WordsOfWord(ws[0]);
      WordsOfAllWords(ws[1..]);
    }
  }

  // ----- Lines --------------------------------------------------------------

  predicate NoNewline(s: text) { forall i :: 0 <= i < |s| ==> s[i] != NEWLINE }

  function AddToFirst(b: byte, ls: seq<text>): (r: seq<text>)
    ensures r != []
  {
    if ls == [] then [[b]] else [[b] + ls[0]] + ls[1..]
  }

  /** What reading lines from a file until it fails yields; a last line without a newline
      counts if it is not empty. */
  function Lines(s: text): (ls: seq<text>)
    ensures s != [] ==> ls != []
  {
    if s == [] then []
    else if s[0] == NEWLINE then [[]] + Lines(s[1..])
    else AddToFirst(s[0], Lines(s[1..]))
  }

  lemma {:induction false} LinesCons(l: text, rest: text)
    requires NoNewline(l)
    ensures Lines(l + ([NEWLINE] + rest)) == [l] + Lines(rest)
  {
    var s := l + ([NEWLINE] + rest);
    if l == [] {
      assert s[1..] == rest;
    } else {
      LinesCons(l[1..], rest);
      assert s[1..] == l[1..] + ([NEWLINE] + rest);
      assert [l[0]] + l[1..] == l;
    }
  }

  lemma {:induction false} LinesOfLast(l: text)
    requires NoNewline(l) && l != []
    ensures Lines(l) == [l]
  {
    if |l| > 1 {
      LinesOfLast(l[1..]);
      assert [l[0]] + l[1..] == l;
    } else {
      assert l[1..] == [] && [l[0]] == l;
    }
  }

  /** The file ends where a line ends. */
  predicate Terminated(s: text) { s == [] || s[|s| - 1] == NEWLINE }

  /** What is appended to a file whose last line is ended is read after what was there. */
  lemma {:induction false} LinesAppend(a: text, b: text)
    requires Terminated(a)
    ensures Lines(a + b) == Lines(a) + Lines(b)
  {
    if a == [] {
      assert a + b == b;
    } else {
      assert (a + b)[1..] == a[1..] + b;
      LinesAppend(a[1..], b);
    }
  }
}
