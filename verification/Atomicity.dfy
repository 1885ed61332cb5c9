/** Which commands a crash can split: a command is logged line by line, and the flusher may
    write in between. */
module Atomicity {
  import opened Text
  import opened Tokenizer
  import opened Commands
  import opened LogProtocol

  /** Whatever prefix a crash leaves, the store is the one before or the one after. */
  ghost predicate CrashAtomic(s: Store, ops: seq<Op>) {
    forall j :: 0 <= j <= |ops| ==> ApplyAll(s, ops[..j]) == s || ApplyAll(s, ops[..j]) == ApplyAll(s, ops)
  }

  ghost predicate AllOrNothing(base: text, ops: seq<Op>, actions: seq<Action>)
    requires IsRun(Opened(base), actions)
  {
    var found := Replay(After(Opened(base), actions).file);
    found == Replay(base) || found == ApplyAll(Replay(base), ops)
  }

  /** At every moment of every run the file replays to all or nothing if and only if every
      prefix of the operations gives all or nothing. */
  lemma RunsAtomicIff(base: text, ops: seq<Op>)
    requires Terminated(base) && OpsSafe(ops)
    ensures (forall actions :: IsRun(Opened(base), actions) && Appended(actions) <= ops ==> AllOrNothing(base, ops, actions))
            <==> CrashAtomic(Replay(base), ops)
  {
    if CrashAtomic(Replay(base), ops) {
      forall actions | IsRun(Opened(base), actions) && Appended(actions) <= ops
        ensures AllOrNothing(base, ops, actions)
      {
        assert OpsSafe(Appended(actions));
        var j := CrashRecovery(base, actions);
        assert Appended(actions)[..j] == ops[..j];
      }
    }
    if forall actions :: IsRun(Opened(base), actions) && Appended(actions) <= ops ==> AllOrNothing(base, ops, actions) {
      forall j | 0 <= j <= |ops|
        ensures ApplyAll(Replay(base), ops[..j]) in {Replay(base), ApplyAll(Replay(base), ops)}
      {
        var actions := EveryPrefixReached(base, ops, j);
        ReplayExtended(base, ops[..j]);
        assert AllOrNothing(base, ops, actions);
      }
    }
  }

  predicate AllAlike(ops: seq<Op>) { forall i :: 0 <= i < |ops| ==> ops[i] == ops[0] }

  lemma {:induction false} ApplyAlike(s: Store, ops: seq<Op>)
    requires AllAlike(ops) && ops != []
    ensures ApplyAll(s, ops) == Apply(s, ops[0])
    decreases |ops|
  {
    if |ops| > 1 {
      assert ops[1] == ops[0] && AllAlike(ops[1..]);
      ApplyAlike(Apply(s, ops[0]), ops[1..]);
    }
  }

  lemma AlikeAtomic(s: Store, ops: seq<Op>)
    requires AllAlike(ops)
    ensures CrashAtomic(s, ops)
  {
    forall j | 0 < j <= |ops|
      ensures ApplyAll(s, ops[..j]) == ApplyAll(s, ops)
    {
      assert AllAlike(ops[..j]);
      ApplyAlike(s, ops[..j]);
      ApplyAlike(s, ops);
    }
  }

  /** Puts into an empty store: what the first one leaves must already be everything. */
  lemma AtomicPutsAlike(ops: seq<Op>)
    requires forall i :: 0 <= i < |ops| ==> ops[i].Put?
    requires CrashAtomic(map[], ops)
    ensures AllAlike(ops)
  {
    forall i | 0 <= i < |ops|
      ensures ops[i] == ops[0]
    {
      var none: Store := map[];
      var first, some, all := ApplyAll(none, ops[..1]), ApplyAll(none, ops[..i + 1]), ApplyAll(none, ops);
      assert ops[..1] == [ops[0]];
      PrimitivesOfOp(none, ops[0]);
      assert first == map[ops[0].key := ops[0].value];
      LastMentionDecides(none, ops[..i + 1], i);
      assert ops[i].key in some && ops[0].key in first;
      assert first == all == some;
    }
  }

  lemma {:induction false} DeletedGone(s: Store, ops: seq<Op>, i: nat)
    requires i < |ops| && forall j :: 0 <= j < |ops| ==> ops[j].Del?
    ensures ops[i].key !in ApplyAll(s, ops)
    decreases |ops|
  {
    if i == |ops| - 1 {
      LastMentionDecides(s, ops, i);
    } else {
      var last := |ops| - 1;
      assert ops == ops[..last] + [ops[last]];
      ApplyAllAppend(s, ops[..last], [ops[last]]);
      PrimitivesOfOp(ApplyAll(s, ops[..last]), ops[last]);
      DeletedGone(s, ops[..last], i);
    }
  }

  /** Deletes from a store that has two of the keys: the first one leaves the other. */
  lemma AtomicDelsAlike(ops: seq<Op>, i: nat, v: text)
    requires i < |ops| && forall j :: 0 <= j < |ops| ==> ops[j].Del?
    requires CrashAtomic(map[ops[0].key := v, ops[i].key := v], ops)
    ensures ops[i] == ops[0]
  {
    var s: Store := map[ops[0].key := v, ops[i].key := v];
    assert ops[..1] == [ops[0]];
    PrimitivesOfOp(s, ops[0]);
    assert ApplyAll(s, ops[..1]) == s - {ops[0].key};
    DeletedGone(s, ops, i);
    assert ops[0].key !in ApplyAll(s, ops[..1]) && ops[0].key in s;
  }

  // ----- Deletes that never find their key ----------------------------------

  /** A phrase left open only comes as the last token, so it is the key of no put. */
  predicate NoOpenKeys(s: Store) { forall k :: k in s ==> !OpenPhrase(k) }

  lemma {:induction false} OpenOnlyLast(ws: seq<text>, i: nat)
    requires AllWords(ws) && i + 1 < |Group(ws)|
    ensures !OpenPhrase(Group(ws)[i])
    decreases |ws|
  {
    var n := if Opens(ws[0]) then QuotedCount(ws) else 1;
    if i > 0 {
      assert Group(ws)[1..] == Group(ws[n..]);
      OpenOnlyLast(ws[n..], i - 1);
    } else if Opens(ws[0]) && n > 1 {
      SeveralWords(ws, n);
      assert ws[n..] != [];
    } else if Opens(ws[0]) {
      WordsOfNoSpace(StripQuotes(ws[0]));
    } else {
      WordsOfWord(ws[0]);
    }
  }

  lemma CommandKeysClosed(line: text)
    ensures var ops := Primitives(Parse(line)); forall i :: 0 <= i < |ops| && ops[i].Put? ==> !OpenPhrase(ops[i].key)
  {
    hide OpenPhrase, Group;
    var ops, ts := Primitives(Parse(line)), Tokens(line);
    forall i | 0 <= i < |ops| && ops[i].Put?
      ensures !OpenPhrase(ops[i].key)
    {
      assert 2 * i + 2 < |ts| && ops[i].key == ts[2 * i + 1];
      OpenOnlyLast(Words(line), 2 * i + 1);
    }
  }

  lemma {:induction false} ApplyKeepsClosed(s: Store, ops: seq<Op>)
    requires NoOpenKeys(s) && forall i :: 0 <= i < |ops| && ops[i].Put? ==> !OpenPhrase(ops[i].key)
    ensures NoOpenKeys(ApplyAll(s, ops))
    decreases |ops|
  {
    if ops != [] {
      ApplyKeepsClosed(Apply(s, ops[0]), ops[1..]);
    }
  }

  /** No log, whatever is in it, replays to a store with such a key. */
  lemma {:induction false} ReplayKeepsClosed(s: Store, ls: seq<text>)
    requires NoOpenKeys(s)
    ensures NoOpenKeys(ReplayLines(s, ls))
    decreases |ls|
  {
    if ls != [] {
      CommandKeysClosed(ls[0]);
      ApplyKeepsClosed(s, Primitives(Parse(ls[0])));
      ReplayKeepsClosed(ApplyAll(s, Primitives(Parse(ls[0]))), ls[1..]);
    }
  }

  predicate Idle(op: Op) { op.Del? && OpenPhrase(op.key) }

  /** The operations that can change a store. */
  function Effective(ops: seq<Op>): (es: seq<Op>)
    ensures |es| <= |ops|
    ensures forall i :: 0 <= i < |es| ==> es[i] in ops && !Idle(es[i])
  {
    if ops == [] then []
    else if Idle(ops[0]) then Effective(ops[1..])
    else [ops[0]] + Effective(ops[1..])
  }

  lemma {:induction false} EffectiveHas(ops: seq<Op>, i: nat)
    requires i < |ops| && !Idle(ops[i])
    ensures ops[i] in Effective(ops)
  {
    if i > 0 { EffectiveHas(ops[1..], i - 1); }
  }

  lemma {:induction false} IdleChangesNothing(s: Store, ops: seq<Op>)
    requires NoOpenKeys(s) && OpsSafe(ops)
    ensures ApplyAll(s, ops) == ApplyAll(s, Effective(ops))
    decreases |ops|
  {
    if ops != [] {
      var t := Apply(s, ops[0]);
      assert OpSafe(ops[0]);
      assert NoOpenKeys(t);
      IdleChangesNothing(t, ops[1..]);
      if Idle(ops[0]) { assert t == s; }
    }
  }

  /** Prefixes of the effective operations are the effective operations of prefixes. */
  lemma {:induction false} EffectivePrefix(ops: seq<Op>, j: nat) returns (m: nat)
    requires j <= |ops|
    ensures m <= |Effective(ops)| && Effective(ops[..j]) == Effective(ops)[..m]
  {
    if j == 0 {
      m := 0;
    } else {
      assert ops[..j][1..] == ops[1..][..j - 1];
      m := EffectivePrefix(ops[1..], j - 1);
      if !Idle(ops[0]) { m := m + 1; }
    }
  }

  lemma {:induction false} PrefixEffective(ops: seq<Op>, m: nat) returns (j: nat)
    requires m <= |Effective(ops)|
    ensures j <= |ops| && Effective(ops[..j]) == Effective(ops)[..m]
  {
    if m == 0 {
      j := 0;
    } else {
      j := PrefixEffective(ops[1..], if Idle(ops[0]) then m else m - 1);
      j := j + 1;
      assert ops[..j][1..] == ops[1..][..j - 1];
    }
  }

  lemma EffectiveAtomic(s: Store, ops: seq<Op>)
    requires NoOpenKeys(s) && OpsSafe(ops)
    ensures CrashAtomic(s, ops) <==> CrashAtomic(s, Effective(ops))
  {
    var es := Effective(ops);
    IdleChangesNothing(s, ops);
    if CrashAtomic(s, es) {
      forall j | 0 <= j <= |ops|
        ensures ApplyAll(s, ops[..j]) in {s, ApplyAll(s, ops)}
      {
        var m := EffectivePrefix(ops, j);
        IdleChangesNothing(s, ops[..j]);
        assert ApplyAll(s, es[..m]) in {s, ApplyAll(s, es)};
      }
    }
    if CrashAtomic(s, ops) {
      forall m | 0 <= m <= |es|
        ensures ApplyAll(s, es[..m]) in {s, ApplyAll(s, es)}
      {
        var j := PrefixEffective(ops, m);
        IdleChangesNothing(s, ops[..j]);
        assert ApplyAll(s, ops[..j]) in {s, ApplyAll(s, ops)};
      }
    }
  }

  // ----- Commands -----------------------------------------------------------

  /** At every moment of every run of the command over every log the file replays to all or
      nothing. */
  ghost predicate AlwaysAtomic(ops: seq<Op>) {
    forall base, actions :: Terminated(base) && IsRun(Opened(base), actions) && Appended(actions) <= ops ==>
      AllOrNothing(base, ops, actions)
  }

  lemma AlwaysAtomicOver(ops: seq<Op>, base: text)
    requires AlwaysAtomic(ops) && Terminated(base) && OpsSafe(ops)
    ensures NoOpenKeys(Replay(base)) && CrashAtomic(Replay(base), Effective(ops))
  {
    RunsAtomicIff(base, ops);
    ReplayKeepsClosed(map[], Lines(base));
    EffectiveAtomic(Replay(base), ops);
  }

  /** Two keys that a store can hold are deleted one after the other. */
  lemma AtomicDelsEffective(ops: seq<Op>, i: nat)
    requires AlwaysAtomic(ops) && OpsSafe(ops) && forall j :: 0 <= j < |ops| ==> ops[j].Del?
    requires i < |Effective(ops)|
    ensures Effective(ops)[i] == Effective(ops)[0]
  {
    var es := Effective(ops);
    var k0, ki, v: text := es[0].key, es[i].key, [97];
    var puts := [Put(k0, v), Put(ki, v)];
    assert es[0] in ops && es[i] in ops && es[0].Del? && es[i].Del?;
    assert Plain(v);
    assert OpsSafe(puts);
    PrintTerminated(puts);
    ReplayPrinted(map[], puts);
    assert puts == [puts[0]] + [puts[1]];
    ApplyAllAppend(map[], [puts[0]], [puts[1]]);
    PrimitivesOfOp(map[], puts[0]);
    PrimitivesOfOp(map[k0 := v], puts[1]);
    assert Replay(Print(puts)) == map[k0 := v, ki := v];
    AlwaysAtomicOver(ops, Print(puts));
    AtomicDelsAlike(es, i, v);
  }

  lemma {:induction false} PutsEffective(ops: seq<Op>)
    requires forall i :: 0 <= i < |ops| ==> ops[i].Put?
    ensures Effective(ops) == ops
  {
    if ops != [] {
      PutsEffective(ops[1..]);
    }
  }

  /** A safe command is all or nothing under every crash if and only if its operations are all
      alike, not counting deletes of a phrase left open, which no store can hold: put, del, and
      an mput or mdel that only repeats one item. */
  lemma CommandAtomicIff(c: Command)
    requires c.MPutCommand? ==> |c.items| % 2 == 0
    requires OpsSafe(Primitives(c))
    ensures AlwaysAtomic(Primitives(c)) <==> AllAlike(Effective(Primitives(c)))
  {
    var ops := Primitives(c);
    if AllAlike(Effective(ops)) {
      forall base, actions | Terminated(base) && IsRun(Opened(base), actions) && Appended(actions) <= ops
        ensures AllOrNothing(base, ops, actions)
      {
        RunsAtomicIff(base, ops);
        ReplayKeepsClosed(map[], Lines(base));
        AlikeAtomic(Replay(base), Effective(ops));
        EffectiveAtomic(Replay(base), ops);
      }
    }
    if AlwaysAtomic(ops) {
      if c.MPutCommand? {
        PutsEffective(ops);
        AlwaysAtomicOver(ops, []);
        AtomicPutsAlike(ops);
      } else if c.MDelCommand? {
        forall i | 0 <= i < |Effective(ops)|
          ensures Effective(ops)[i] == Effective(ops)[0]
        {
          AtomicDelsEffective(ops, i);
        }
      }
    }
  }

  /** A run in which a crash keeps half of an mput. */
  lemma MPutIsNotAtomic(k1: text, v1: text, k2: text, v2: text) returns (actions: seq<Action>)
    requires Plain(k1) && Plain(v1) && Plain(k2) && Plain(v2) && k1 != k2
    ensures IsRun(Opened([]), actions) && Appended(actions) == Puts([k1, v1, k2, v2])
    ensures !AllOrNothing([], Puts([k1, v1, k2, v2]), actions)
  {
    var ops := Puts([k1, v1, k2, v2]);
    actions := EveryPrefixReached([], ops, 1);
    assert ops[..1] == [ops[0]];
    ReplayExtended([], ops[..1]);
    PrimitivesOfOp(map[], ops[0]);
    LastMentionDecides(map[], ops, 1);
    var half, whole := ApplyAll(map[], ops[..1]), ApplyAll(map[], ops);
    assert k1 in half && k2 !in half && k2 in whole;
    assert After(Opened([]), actions).file == Print(ops[..1]);
  }
}
