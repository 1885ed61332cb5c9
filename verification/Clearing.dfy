/** Clearing a store truncates its log file but leaves what is in flight or in the buffer, to
    be written later. Exactly when that does no harm. */
module Clearing {
  import opened Bytes
  import opened Text
  import opened Tokenizer
  import opened Commands
  import opened LogProtocol

  /** Every put among the pending operations is deleted again by a later one. */
  predicate AllDeleted(ops: seq<Op>) {
    forall i :: 0 <= i < |ops| && ops[i].Put? ==> Op.Del(ops[i].key) in ops[i..]
  }

  lemma {:induction false} KeyKept(s: Store, ops: seq<Op>, k: text)
    requires Op.Del(k) !in ops
    ensures k in s ==> k in ApplyAll(s, ops)
    decreases |ops|
  {
    if ops != [] {
      assert ops[0] in ops;
      KeyKept(Apply(s, ops[0]), ops[1..], k);
    }
  }

  lemma {:induction false} KeyPut(s: Store, ops: seq<Op>, i: nat)
    requires i < |ops| && ops[i].Put? && Op.Del(ops[i].key) !in ops[i..]
    ensures ops[i].key in ApplyAll(s, ops)
    decreases i
  {
    if i == 0 {
      assert ops[0..] == ops;
      KeyKept(Apply(s, ops[0]), ops[1..], ops[0].key);
    } else {
      assert ops[1..][i - 1..] == ops[i..];
      KeyPut(Apply(s, ops[0]), ops[1..], i - 1);
    }
  }

  lemma {:induction false} KeyGone(s: Store, ops: seq<Op>, k: text)
    requires AllDeleted(ops) && (k in s ==> Op.Del(k) in ops)
    ensures k !in ApplyAll(s, ops)
    decreases |ops|
  {
    if ops != [] {
      var rest := ops[1..];
      assert ops == [ops[0]] + rest && ops[0..] == ops;
      forall i | 0 <= i < |rest| && rest[i].Put?
        ensures Op.Del(rest[i].key) in rest[i..]
      {
        assert rest[i] == ops[i + 1] && rest[i..] == ops[i + 1..];
      }
      if ops[0].Put? && ops[0].key == k { assert Op.Del(k) in ops[0..]; }
      KeyGone(Apply(s, ops[0]), rest, k);
    }
  }

  /** After a clear, what is still pending becomes the whole log. It agrees with the empty
      store if and only if every pending put is also deleted again later. */
  lemma ClearAgreesIffAllDeleted(pending: seq<Op>)
    requires OpsSafe(pending)
    ensures Replay(Print(pending)) == map[] <==> AllDeleted(pending)
  {
    ReplayPrinted(map[], pending);
    var r := ApplyAll(map[], pending);
    if AllDeleted(pending) {
      forall k
        ensures k !in r
      {
        KeyGone(map[], pending, k);
      }
      assert r == map[];
    } else {
      var i :| 0 <= i < |pending| && pending[i].Put? && Op.Del(pending[i].key) !in pending[i..];
      KeyPut(map[], pending, i);
    }
  }

  /** Truncating the file at any moment of any run: what is left to be written stands for the
      empty store if and only if every put that was not yet written is deleted again. */
  lemma ClearedRunAgreesIff(base: text, actions: seq<Action>) returns (j: nat)
    requires IsRun(Opened(base), actions) && OpsSafe(Appended(actions))
    ensures j <= |Appended(actions)| && After(Opened(base), actions).file == base + Print(Appended(actions)[..j])
    ensures Replay(Total(After(Opened(base), actions).(file := []))) == map[] <==> AllDeleted(Appended(actions)[j..])
  {
    var k;
    j, k := WholeLines(base, actions);
    ClearedTotal(After(Opened(base), actions), base, Appended(actions), j, k);
    ClearAgreesIffAllDeleted(Appended(actions)[j..]);
  }

  lemma ClearedTotal(s: LogState, base: text, ops: seq<Op>, j: nat, k: nat)
    requires Cut(s, base, ops, j, k)
    ensures Total(s.(file := [])) == Print(ops[j..])
  {
    SplitRest(ops, j, k);
    PrintAppend(ops[j..k], ops[k..]);
    NothingFirst(s.inflight, s.buffer);
  }

  /** A put, then a clear before the flusher has come round: the entry is back on reload. */
  lemma PutSurvivesClear(k: text, v: text) returns (actions: seq<Action>)
    requires Plain(k) && Plain(v)
    ensures IsRun(Opened([]), actions) && Appended(actions) == [Put(k, v)]
    ensures Replay(Total(After(Opened([]), actions).(file := []))) == map[k := v]
  {
    var t;
    actions, t := Extend([], [], Opened([]), Append(Put(k, v)));
    assert Total(t.(file := [])) == Print([Put(k, v)]);
    ReplayPrinted(map[], [Put(k, v)]);
    PrimitivesOfOp(map[], Put(k, v));
  }
}
