/** Bytes as integers: everything on disk and in memory is a sequence of them. Helpers for
    sequences that grow at the end, and for regrouping them. */
module Bytes {

  type byte = x: int | 0 <= x < 256

  function Front<T>(s: seq<T>): (r: seq<T>)
    requires |s| > 0
  { s[..|s| - 1] }

  function Last<T>(s: seq<T>): (r: T)
    requires |s| > 0
  { s[|s| - 1] }

  lemma FourParts<T>(a: seq<T>, b: seq<T>, c: seq<T>, d: seq<T>)
    ensures ((a + b) + c) + d == a + (b + (c + d))
  {
  }

  lemma ThreeParts<T>(a: seq<T>, b: seq<T>, c: seq<T>)
    ensures (a + b) + c == a + (b + c)
  {
  }

  lemma NothingFirst<T>(a: seq<T>, b: seq<T>)
    ensures [] + a + b == a + b
  {
  }

  lemma SplitRest<T>(s: seq<T>, j: nat, k: nat)
    requires j <= k <= |s|
    ensures s[j..] == s[j..k] + s[k..]
  {
  }
}
