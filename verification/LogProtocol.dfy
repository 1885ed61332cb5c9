/** The append-only log as a step system: commands append lines to a buffer, a flusher thread
    swaps the buffer out under the lock and writes it, and closing stops and joins the
    flusher, then drains what is left. Every theorem is about every interleaving. */
module LogProtocol {
  import opened Bytes
  import opened Text
  import opened Commands

  /** Where the flusher thread is: testing the stop flag, waiting for a second or a wake-up,
      about to take the lock, about to write what it took, or gone. */
  datatype Flusher = Testing | Waiting | Locking | Writing | Exited

  /** Where closing is. */
  datatype Closer = Running | Joining | Draining | Closed

  datatype LogState = LogState(file: text, inflight: text, buffer: text, flusher: Flusher, closer: Closer)

  datatype Action =
    | Append(op: Op)
    | Test | Wake | Swap | Write
    | Stop | Join | Drain

  predicate Enabled(s: LogState, a: Action) {
    match a
    case Append(_) => s.closer != Closed
    case Test => s.flusher == Testing
    case Wake => s.flusher == Waiting
    case Swap => s.flusher == Locking
    case Write => s.flusher == Writing
    case Stop => s.closer == Running
    case Join => s.closer == Joining && s.flusher == Exited
    case Drain => s.closer == Draining
  }

  function Step(s: LogState, a: Action): (t: LogState)
    requires Enabled(s, a)
  {
    match a
    case Append(op) => s.(buffer := s.buffer + Print([op]))
    case Test => s.(flusher := if s.closer == Running then Waiting else Exited)
    case Wake => s.(flusher := Locking)
    case Swap =>
      if s.buffer == [] then s.(flusher := Testing)
      else s.(inflight := s.buffer, buffer := [], flusher := Writing)
    case Write => s.(file := s.file + s.inflight, inflight := [], flusher := Testing)
    case Stop => s.(closer := Joining)
    case Join => s.(closer := Draining)
    case Drain => s.(file := s.file + s.buffer, buffer := [], closer := Closed)
  }

  /** A freshly opened log over what the file held before. */
  function Opened(base: text): (s: LogState) { LogState(base, [], [], Testing, Running) }

  /** A run: each action enabled where it is taken. */
  predicate IsRun(s: LogState, actions: seq<Action>)
    decreases |actions|, 0
  {
    actions == [] || (IsRun(s, Front(actions)) && Enabled(After(s, Front(actions)), Last(actions)))
  }

  function After(s: LogState, actions: seq<Action>): (t: LogState)
    requires IsRun(s, actions)
    decreases |actions|, 1
  {
    if actions == [] then s else Step(After(s, Front(actions)), Last(actions))
  }

  /** The operations appended in a run, in order. */
  function Appended(actions: seq<Action>): (ops: seq<Op>)
    decreases |actions|
  {
    if actions == [] then [] else Appended(Front(actions)) + New(Last(actions))
  }

  function New(a: Action): (ops: seq<Op>) { if a.Append? then [a.op] else [] }

  /** Everything appended so far, wherever it is. */
  function Total(s: LogState): (r: text) { s.file + s.inflight + s.buffer }

  predicate Consistent(s: LogState) {
    && (s.flusher != Writing ==> s.inflight == [])
    && (s.closer == Draining || s.closer == Closed ==> s.flusher == Exited)
    && (s.closer == Closed ==> s.buffer == [])
    && (s.closer == Running ==> s.flusher != Exited)
  }

  // ----- One step -----------------------------------------------------------

  lemma StepKeeps(s: LogState, a: Action)
    requires Enabled(s, a) && Consistent(s)
    ensures Consistent(Step(s, a))
    ensures Total(Step(s, a)) == Total(s) + Print(New(a))
    ensures s.file <= Step(s, a).file
  {
  }

  /** Once stopping, the flusher is never stuck and gone after at most four of its steps. */
  function FlusherSteps(s: LogState): (n: nat) {
    match s.flusher case Waiting => 4 case Locking => 3 case Writing => 2 case Testing => 1 case Exited => 0
  }

  function FlusherAction(s: LogState): (a: Action)
    requires s.flusher != Exited
    ensures Enabled(s, a)
  {
    match s.flusher case Testing => Test case Waiting => Wake case Locking => Swap case Writing => Write
  }

  lemma JoinReturns(s: LogState)
    requires s.closer != Running && s.flusher != Exited
    ensures FlusherSteps(Step(s, FlusherAction(s))) < FlusherSteps(s)
  {
  }

  /** The flusher's own steps move what is there, and add nothing. */
  lemma FlusherKeeps(s: LogState)
    requires Consistent(s) && s.flusher != Exited
    ensures Total(Step(s, FlusherAction(s))) == Total(s) && Step(s, FlusherAction(s)).closer == s.closer
    ensures s.closer != Running ==> FlusherSteps(Step(s, FlusherAction(s))) < FlusherSteps(s)
  {
    StepKeeps(s, FlusherAction(s));
    if s.closer != Running { JoinReturns(s); }
  }

  // ----- Whole runs ---------------------------------------------------------

  /** Conservation: file, in-flight buffer and log buffer together always hold exactly the
      lines appended, in order. */
  lemma {:induction false} Conservation(base: text, actions: seq<Action>)
    requires IsRun(Opened(base), actions)
    ensures Consistent(After(Opened(base), actions))
    ensures Total(After(Opened(base), actions)) == base + Print(Appended(actions))
  {
    if actions != [] {
      Conservation(base, Front(actions));
      StepKeeps(After(Opened(base), Front(actions)), Last(actions));
      PrintMore(base, Appended(Front(actions)), New(Last(actions)));
    }
  }

  lemma PrintMore(base: text, a: seq<Op>, b: seq<Op>)
    ensures (base + Print(a)) + Print(b) == base + Print(a + b)
  {
    PrintAppend(a, b);
  }

  /** The cuts between what is in the file, in flight and in the buffer fall between lines. */
  predicate Cut(s: LogState, base: text, ops: seq<Op>, j: nat, k: nat) {
    && j <= k <= |ops|
    && s.file == base + Print(ops[..j])
    && s.inflight == Print(ops[j..k])
    && s.buffer == Print(ops[k..])
  }

  lemma {:induction false} WholeLines(base: text, actions: seq<Action>) returns (j: nat, k: nat)
    requires IsRun(Opened(base), actions)
    ensures Cut(After(Opened(base), actions), base, Appended(actions), j, k)
  {
    if actions == [] {
      j, k := 0, 0;
      assert base + Print([]) == base;
    } else {
      j, k := WholeLines(base, Front(actions));
      Conservation(base, Front(actions));
      j, k := CutStep(After(Opened(base), Front(actions)), Last(actions), base, Appended(Front(actions)), j, k);
    }
  }

  lemma CutStep(s: LogState, a: Action, base: text, ops: seq<Op>, j0: nat, k0: nat) returns (j: nat, k: nat)
    requires Enabled(s, a) && Consistent(s) && Cut(s, base, ops, j0, k0)
    ensures Cut(Step(s, a), base, ops + New(a), j, k)
  {
    j, k := j0, k0;
    var n := |ops|;
    match a
    case Append(op) =>
      CutAppend(s, base, ops, op, j, k);
    case Swap =>
      assert ops + [] == ops;
      if s.buffer != [] {
        CutMove(ops, j, k);
        k := n;
      }
    case Write =>
      assert ops + [] == ops;
      CutWrite(base, ops, j, k);
      j := k;
    case Drain =>
      assert ops + [] == ops;
      CutMove(ops, j, k);
      CutWrite(base, ops, k, n);
      j, k := n, n;
    case _ =>
      assert ops + [] == ops;
  }

  lemma PrintEmpty(ops: seq<Op>)
    ensures Print(ops) == [] <==> ops == []
  {
  }

  /** Nothing in flight means that the two cuts coincide. */
  lemma CutMove(ops: seq<Op>, j: nat, k: nat)
    requires j <= k <= |ops| && Print(ops[j..k]) == []
    ensures j == k && ops[k..|ops|] == ops[k..] && Print(ops[|ops|..]) == []
  {
    PrintEmpty(ops[j..k]);
  }

  lemma CutWrite(base: text, ops: seq<Op>, j: nat, k: nat)
    requires j <= k <= |ops|
    ensures (base + Print(ops[..j])) + Print(ops[j..k]) == base + Print(ops[..k])
    ensures Print(ops[k..k]) == []
  {
    assert ops[..k] == ops[..j] + ops[j..k];
    PrintMore(base, ops[..j], ops[j..k]);
  }

  lemma CutAppend(s: LogState, base: text, ops: seq<Op>, op: Op, j: nat, k: nat)
    requires Cut(s, base, ops, j, k)
    ensures Cut(s.(buffer := s.buffer + Print([op])), base, ops + [op], j, k)
  {
    var all := ops + [op];
    assert all[..j] == ops[..j] && all[j..k] == ops[j..k] && all[k..] == ops[k..] + [op];
    PrintAppend(ops[k..], [op]);
  }

  // ----- What a crash leaves, and what closing guarantees --------------------

  /** Crash recovery: in every reachable state, replaying the file gives the store as it was
      after some prefix of the operations appended. */
  lemma CrashRecovery(base: text, actions: seq<Action>) returns (j: nat)
    requires IsRun(Opened(base), actions) && Terminated(base) && OpsSafe(Appended(actions))
    ensures j <= |Appended(actions)|
    ensures Replay(After(Opened(base), actions).file) == ApplyAll(Replay(base), Appended(actions)[..j])
  {
    var k;
    j, k := WholeLines(base, actions);
    ReplayExtended(base, Appended(actions)[..j]);
  }

  /** Replaying the file and everything still pending gives the store after all of them. */
  lemma PendingAgrees(base: text, actions: seq<Action>)
    requires IsRun(Opened(base), actions) && Terminated(base) && OpsSafe(Appended(actions))
    ensures Replay(Total(After(Opened(base), actions))) == ApplyAll(Replay(base), Appended(actions))
  {
    Conservation(base, actions);
    ReplayExtended(base, Appended(actions));
  }

  /** After closing, the file holds every line appended, none lost, doubled or moved. */
  lemma ClosedHoldsAll(base: text, actions: seq<Action>)
    requires IsRun(Opened(base), actions) && After(Opened(base), actions).closer == Closed
    ensures After(Opened(base), actions).file == base + Print(Appended(actions))
  {
    Conservation(base, actions);
  }

  /** A longer run never takes back what a shorter one put into the file. */
  lemma {:induction false} FileGrows(s: LogState, actions: seq<Action>, n: nat)
    requires IsRun(s, actions) && n <= |actions| && Consistent(s)
    ensures IsRun(s, actions[..n]) && Consistent(After(s, actions))
    ensures After(s, actions[..n]).file <= After(s, actions).file
    decreases |actions|
  {
    if n == |actions| {
      assert actions[..n] == actions;
      if n > 0 {
        FileGrows(s, Front(actions), 0);
        StepKeeps(After(s, Front(actions)), Last(actions));
      }
    } else {
      FileGrows(s, Front(actions), n);
      assert Front(actions)[..n] == actions[..n];
      StepKeeps(After(s, Front(actions)), Last(actions));
    }
  }

  // ----- Sessions of commands -----------------------------------------------

  /** The primitive operations of some command lines, in the order they reach the log. */
  function SessionOps(lines: seq<text>): (ops: seq<Op>)
    decreases |lines|
  {
    if lines == [] then [] else Primitives(Parse(lines[0])) + SessionOps(lines[1..])
  }

  lemma {:induction false} ApplyAllAppend(s: Store, a: seq<Op>, b: seq<Op>)
    ensures ApplyAll(s, a + b) == ApplyAll(ApplyAll(s, a), b)
    decreases |a|
  {
    if a == [] {
      assert a + b == b;
    } else {
      assert (a + b)[1..] == a[1..] + b;
      ApplyAllAppend(Apply(s, a[0]), a[1..], b);
    }
  }

  /** Commands typed one after the other do what their primitive operations do, and those are
      safe to log if the commands' tokens are. */
  lemma {:induction false} SessionApplies(s: Store, lines: seq<text>)
    ensures ReplayLines(s, lines) == ApplyAll(s, SessionOps(lines))
    ensures (forall i :: 0 <= i < |lines| ==> SafeLine(lines[i])) ==> OpsSafe(SessionOps(lines))
    decreases |lines|
  {
    if lines != [] {
      var ops := Primitives(Parse(lines[0]));
      SessionApplies(ApplyAll(s, ops), lines[1..]);
      ApplyAllAppend(s, ops, SessionOps(lines[1..]));
    }
  }

  /** At any moment of any session of safe commands, with the flusher and closing interleaved
      anywhere, also between the lines of one mput or mdel: the file replays to the store after
      some prefix of the operations, and file and buffers together to the store after all that
      were appended. Once all are appended and the log is closed, the file replays to the store
      the commands made. */
  lemma SessionRecovers(base: text, lines: seq<text>, actions: seq<Action>) returns (j: nat)
    requires IsRun(Opened(base), actions) && Terminated(base)
    requires forall i :: 0 <= i < |lines| ==> SafeLine(lines[i])
    requires Appended(actions) <= SessionOps(lines)
    ensures j <= |Appended(actions)|
    ensures var s, ops := After(Opened(base), actions), SessionOps(lines);
            && Replay(s.file) == ApplyAll(Replay(base), ops[..j])
            && Replay(Total(s)) == ApplyAll(Replay(base), ops[..|Appended(actions)|])
            && (s.closer == Closed && Appended(actions) == ops ==> Replay(s.file) == ReplayLines(Replay(base), lines))
  {
    var ops := SessionOps(lines);
    SessionApplies(Replay(base), lines);
    assert OpsSafe(Appended(actions));
    j := CrashRecovery(base, actions);
    assert Appended(actions)[..j] == ops[..j] && Appended(actions) == ops[..|Appended(actions)|];
    PendingAgrees(base, actions);
    if After(Opened(base), actions).closer == Closed {
      ClosedHoldsAll(base, actions);
      Conservation(base, actions);
    }
  }

  // ----- What a crash can leave ---------------------------------------------

  /** A run with one more action. */
  lemma Extend(base: text, actions: seq<Action>, t: LogState, a: Action) returns (longer: seq<Action>, u: LogState)
    requires IsRun(Opened(base), actions) && After(Opened(base), actions) == t && Enabled(t, a)
    ensures IsRun(Opened(base), longer) && After(Opened(base), longer) == u == Step(t, a)
    ensures Appended(longer) == if a.Append? then Appended(actions) + [a.op] else Appended(actions)
  {
    longer, u := actions + [a], Step(t, a);
    assert Front(longer) == actions;
  }

  lemma {:induction false} AppendEach(base: text, actions: seq<Action>, t: LogState, ops: seq<Op>)
    returns (longer: seq<Action>, u: LogState)
    requires IsRun(Opened(base), actions) && After(Opened(base), actions) == t && t.closer != Closed
    ensures IsRun(Opened(base), longer) && After(Opened(base), longer) == u == t.(buffer := t.buffer + Print(ops))
    ensures Appended(longer) == Appended(actions) + ops
    decreases |ops|
  {
    if ops == [] {
      longer, u := actions, t;
      assert t.buffer + [] == t.buffer && Appended(actions) + [] == Appended(actions);
    } else {
      var done, mid := Extend(base, actions, t, Append(ops[0]));
      longer, u := AppendEach(base, done, mid, ops[1..]);
      assert [ops[0]] + ops[1..] == ops;
      assert u.buffer == t.buffer + Print(ops) by { PrintMore(t.buffer, [ops[0]], ops[1..]); }
      assert Appended(longer) == Appended(actions) + ops by { Regrouped(Appended(actions), ops); }
    }
  }

  lemma Regrouped(a: seq<Op>, b: seq<Op>)
    requires b != []
    ensures (a + [b[0]]) + b[1..] == a + b
  {
  }

  /** One round of the flusher writes everything in the buffer. */
  lemma FlushAll(base: text, actions: seq<Action>, t: LogState) returns (longer: seq<Action>, u: LogState)
    requires IsRun(Opened(base), actions) && After(Opened(base), actions) == t
    requires t.flusher == Testing && t.closer == Running && t.inflight == [] && t.buffer != []
    ensures IsRun(Opened(base), longer) && Appended(longer) == Appended(actions)
    ensures After(Opened(base), longer) == u == t.(file := t.file + t.buffer, buffer := [])
  {
    longer, u := Extend(base, actions, t, Test);
    longer, u := Extend(base, longer, u, Wake);
    longer, u := Extend(base, longer, u, Swap);
    longer, u := Extend(base, longer, u, Write);
  }

  /** The flusher may write between any two appended lines, so a crash can leave every prefix. */
  lemma EveryPrefixReached(base: text, ops: seq<Op>, j: nat) returns (actions: seq<Action>)
    requires j <= |ops|
    ensures IsRun(Opened(base), actions) && Appended(actions) == ops
    ensures After(Opened(base), actions).file == base + Print(ops[..j])
  {
    var t;
    actions, t := AppendEach(base, [], Opened(base), ops[..j]);
    NothingAround(Print(ops[..j]), ops[..j]);
    if Print(ops[..j]) != [] {
      actions, t := FlushAll(base, actions, t);
    } else {
      NothingAround(base, []);
    }
    actions, t := AppendEach(base, actions, t, ops[j..]);
    assert ops[..j] + ops[j..] == ops;
  }

  lemma NothingAround(a: text, ops: seq<Op>)
    ensures [] + a == a && a + [] == a && [] + ops == ops
  {
  }
}
