/** The store and its log as objects over a disk: commands, replay on opening, clearing, and
    shutdown with compaction and snapshot. */
module Database {
  import opened Bytes
  import opened Text
  import opened Tokenizer
  import opened Commands
  import opened Clearing
  import opened ExactReplay
  import opened LogProtocol
  import opened Snapshot

  // ----- Disk ---------------------------------------------------------------

  class Disk {
    var files: map<text, text>

    constructor ()
      ensures files == map[]
    {
      files := map[];
    }
  }

  /** The contents of a file, empty if it does not exist. */
  function FileAt(files: map<text, text>, path: text): (f: text) {
    if path in files then files[path] else []
  }

  const LOGS: text := [108, 111, 103, 115, 47]
  const AOF: text := [46, 97, 111, 102]
  const DB_SUFFIX: text := [46, 100, 98]
  const TEMP: text := [95, 116, 101, 109, 112]

  function LogPath(name: text): (p: text) { LOGS + name + AOF }

  function DbPath(name: text): (p: text) { LOGS + name + DB_SUFFIX }

  /** The temporary file of a keyspace is the log of the keyspace `<name>_temp`. */
  function TempPath(name: text): (p: text) { LogPath(name + TEMP) }

  /** logs/k.aof, logs/k.db and logs/k_temp.aof. */
  lemma PathBytes(k: byte)
    ensures LogPath([k]) == [108, 111, 103, 115, 47, k, 46, 97, 111, 102]
    ensures DbPath([k]) == [108, 111, 103, 115, 47, k, 46, 100, 98]
    ensures TempPath([k]) == [108, 111, 103, 115, 47, k, 95, 116, 101, 109, 112, 46, 97, 111, 102]
  {
    assert [k] + TEMP == [k, 95, 116, 101, 109, 112];
  }

  lemma PathsDistinct(a: text, b: text)
    ensures LogPath(a) == LogPath(b) <==> a == b
    ensures LogPath(a) != DbPath(b)
    ensures TempPath(a) != LogPath(a)
  {
    var p, q, r := LogPath(a), LogPath(b), DbPath(b);
    assert p[5..|p| - 4] == a && q[5..|q| - 4] == b;
    assert p[|p| - 1] == 102 && r[|r| - 1] == 98;
    var t := TempPath(a);
    assert |t| == |p| + 5;
  }

  // ----- Log ----------------------------------------------------------------

  /** The log holds, in the file or on its way there, exactly what the store holds. */
  ghost predicate Faithful(total: text, store: Store) {
    Terminated(total) && Silent(total) && Replay(total) == store
  }

  /** A log that some run of the program left, or none: it agrees with what it replays to. */
  ghost predicate LeftEarlier(file: text) { Faithful(file, Replay(file)) && StoreSafe(Replay(file)) }

  /** A log and the operations whose lines are in its buffer. */
  datatype Recorded = Recorded(log: LogState, waiting: seq<Op>)

  class Log {
    const disk: Disk
    const name: text
    var logBuffer: text
    var localBuffer: text
    var flusher: Flusher
    var closer: Closer
    /** What the file held when it was opened or last replaced, and the operations appended
        since then: those in the file, those in flight and those in the buffer. */
    ghost var base: text
    ghost var written: seq<Op>
    ghost var taken: seq<Op>
    ghost var waiting: seq<Op>

    function File(): (f: text)
      reads this, disk
    { FileAt(disk.files, LogPath(name)) }

    /** The state of the step system this log is in. */
    function State(): (s: LogState)
      reads this, disk
    { LogState(File(), localBuffer, logBuffer, flusher, closer) }

    ghost function Record(): (r: Recorded)
      reads this, disk
    { Recorded(State(), waiting) }

    ghost predicate Valid()
      reads this, disk
    {
      && LogPath(name) in disk.files && Consistent(State())
      && File() == base + Print(written) && localBuffer == Print(taken) && logBuffer == Print(waiting)
    }

    /** The operations that are not in the file yet. */
    ghost function Pending(): (ops: seq<Op>)
      reads this
    { taken + waiting }

    ghost function History(): (ops: seq<Op>)
      reads this
    { written + Pending() }

    /** What was there was left by this program, and what was appended parses back. */
    ghost predicate Safe()
      reads this
    { LeftEarlier(base) && OpsSafe(History()) }

    constructor (disk: Disk, name: text)
      modifies disk
      ensures this.disk == disk && this.name == name && Valid()
      ensures disk.files == old(disk.files)[LogPath(name) := File()]
      ensures State() == Opened(FileAt(old(disk.files), LogPath(name)))
      ensures base == File() && written == taken == waiting == []
    {
      this.disk, this.name := disk, name;
      logBuffer, localBuffer, flusher, closer := [], [], Testing, Running;
      base, written, taken, waiting := FileAt(disk.files, LogPath(name)), [], [], [];
      new;
      if LogPath(name) !in disk.files {
        disk.files := disk.files[LogPath(name) := []];
      }
      assert base + [] == base;
    }

    /** Appends to the buffer; once the log is closed it only reports an error. */
    method AppendCommand(op: Op)
      requires Valid()
      modifies this`logBuffer, this`waiting
      ensures Valid() && Record() == LogAfter(old(Record()), [op])
    {
      if closer == Closed { return; }
      OnePrinted(op);
      PrintAppend(waiting, [op]);
      logBuffer := logBuffer + (Line(op) + [NEWLINE]);
      waiting := waiting + [op];
    }

    method WriteToFile(bytes: text)
      requires Valid()
      modifies disk
      ensures disk.files == old(disk.files)[LogPath(name) := old(File()) + bytes]
    {
      disk.files := disk.files[LogPath(name) := disk.files[LogPath(name)] + bytes];
    }

    /** One atomic step of the flusher thread. */
    method FlusherStep()
      requires Valid() && flusher != Exited
      modifies this, disk
      ensures Valid() && State() == Step(old(State()), FlusherAction(old(State())))
      ensures disk.files == old(disk.files)[LogPath(name) := File()]
      ensures base == old(base) && History() == old(History())
    {
      match flusher
      case Testing =>
        flusher := if closer == Running then Waiting else Exited;
        assert disk.files == disk.files[LogPath(name) := File()];
      case Waiting =>
        flusher := Locking;
        assert disk.files == disk.files[LogPath(name) := File()];
      case Locking =>
        TakeBuffer();
        assert disk.files == disk.files[LogPath(name) := File()];
      case Writing =>
        WriteTaken();
    }

    /** Under the lock: swaps the buffer out, if there is anything in it. */
    method TakeBuffer()
      requires Valid() && flusher == Locking
      modifies this`localBuffer, this`logBuffer, this`flusher, this`taken, this`waiting
      ensures Valid() && State() == Step(old(State()), Swap) && History() == old(History())
    {
      if logBuffer == [] {
        flusher := Testing;
      } else {
        PrintEmpty(taken);
        localBuffer, logBuffer, flusher := logBuffer, [], Writing;
        MovedOn(written, waiting);
        taken, waiting := waiting, [];
      }
    }

    /** Outside the lock: writes what was swapped out. */
    method WriteTaken()
      requires Valid() && flusher == Writing
      modifies this`localBuffer, this`flusher, this`written, this`taken, disk
      ensures Valid() && State() == Step(old(State()), Write) && History() == old(History())
      ensures disk.files == old(disk.files)[LogPath(name) := File()]
    {
      PrintMore(base, written, taken);
      WriteToFile(localBuffer);
      localBuffer, flusher := [], Testing;
      WrittenOn(written, taken, waiting);
      written, taken := written + taken, [];
    }

    /** Joining lets the flusher thread run to its end. */
    method JoinFlusher()
      requires Valid() && closer == Joining
      modifies this, disk
      ensures Valid() && closer == Joining && flusher == Exited && Total(State()) == old(Total(State()))
      ensures disk.files == old(disk.files)[LogPath(name) := File()]
      ensures base == old(base) && History() == old(History())
    {
      hide Print, Total, Consistent, Step;
      assert disk.files == disk.files[LogPath(name) := File()];
      while flusher != Exited
        invariant Valid() && closer == Joining && Total(State()) == old(Total(State()))
        invariant disk.files == old(disk.files)[LogPath(name) := File()]
        invariant base == old(base) && History() == old(History())
        decreases FlusherSteps(State())
      {
        FlusherKeeps(State());
        FlusherStep();
      }
    }

    /** Stops the flusher and waits for it, then drains the buffer. Closing again does nothing. */
    method CloseLog()
      requires Valid()
      modifies this, disk
      ensures Valid() && State() == LogState(old(Total(State())), [], [], Exited, Closed)
      ensures disk.files == old(disk.files)[LogPath(name) := File()]
      ensures base == old(base) && History() == old(History())
    {
      assert disk.files == disk.files[LogPath(name) := File()];
      if closer == Closed { return; }
      closer := Joining;
      JoinFlusher();
      Drain();
    }

    /** Writes what was appended one final time. */
    method Drain()
      requires Valid() && closer == Joining && flusher == Exited
      modifies this`logBuffer, this`closer, this`written, this`taken, this`waiting, disk
      ensures Valid() && State() == LogState(old(Total(State())), [], [], Exited, Closed)
      ensures disk.files == old(disk.files)[LogPath(name) := File()]
      ensures History() == old(History())
    {
      PrintEmpty(taken);
      PrintMore(base, written, waiting);
      NothingBetween(File(), logBuffer);
      MovedOn(written, waiting);
      WrittenOn(written, waiting, []);
      if logBuffer != [] {
        WriteToFile(logBuffer);
        logBuffer := [];
      } else {
        assert disk.files == disk.files[LogPath(name) := File()];
      }
      closer := Closed;
      written, taken, waiting := written + waiting, [], [];
    }

    /** Replaces the log by one put for each entry, unless nothing changed or nothing is left.
        `disks` is what is on disk before and after each step on the way. */
    method CompactLog(state: Store, dirty: nat, order: seq<text>) returns (ghost disks: seq<map<text, text>>)
      requires Valid() && closer == Closed && Enumerates(order, state)
      modifies disk, this`base, this`written
      ensures Valid() && State() == old(State()).(file := File())
      ensures disks == CompactionDisks(old(disk.files), name, dirty, order, state)
      ensures disk.files == disks[|disks| - 1]
      ensures if dirty == 0 || state == map[] then base == old(base) && History() == old(History())
              else base == File() == Print(Compacted(order, state)) && History() == [] && TempPath(name) !in disk.files
    {
      if dirty == 0 || |state| == 0 { return [disk.files]; }
      var buffer := CompactedBuffer(state, order);
      disks := ReplaceFile(buffer);
      base, written := buffer, [];
      PrintEmpty(taken);
      PrintEmpty(waiting);
      AllWritten([]);
      NothingBetween(buffer, []);
    }

    /** Writes the temporary file and renames it to the log. */
    method ReplaceFile(buffer: text) returns (ghost disks: seq<map<text, text>>)
      modifies disk
      ensures disks == [old(disk.files), old(disk.files)[TempPath(name) := []], old(disk.files)[TempPath(name) := buffer],
                        (old(disk.files) - {TempPath(name)})[LogPath(name) := buffer]]
      ensures disk.files == disks[3]
    {
      ghost var files := disk.files;
      RenamedFiles(files, TempPath(name), buffer);
      disks := [disk.files];
      disk.files := disk.files[TempPath(name) := []];
      disks := disks + [disk.files];
      disk.files := disk.files[TempPath(name) := buffer];
      disks := disks + [disk.files];
      disk.files := (disk.files - {TempPath(name)})[LogPath(name) := disk.files[TempPath(name)]];
      disks := disks + [disk.files];
    }

    /** The file is emptied, then written: plain up to 10 MB, above that compressed if this helps. */
    method WriteBinarySnapshot(state: Store, order: seq<text>)
      returns (ghost disks: seq<map<text, text>>, ghost compressed: text)
      requires Enumerates(order, state) && SnapshotFits(order, state)
      modifies disk
      ensures DbPath(name) in disk.files && Recover(disk.files[DbPath(name)]) == Some(state)
      ensures disks == [old(disk.files)[DbPath(name) := []], disk.files]
      ensures disk.files == old(disk.files)[DbPath(name) := disk.files[DbPath(name)]]
      ensures var n := 11 + 16 * |state| + TotalBytes(order, state);
              && FileForm(disk.files[DbPath(name)], n, compressed)
              && (n > 10485760 ==> CompressedForm(compressed, Serialize(order, state)))
      ensures SnapshotOf(disk.files[DbPath(name)], order, state)
    {
      hide Recover, SnapshotOf, FileForm, CompressedForm, Serialize, Compresses;
      disk.files := disk.files[DbPath(name) := []];
      disks := [disk.files];
      SerializedLength(order, state);
      var file;
      file, compressed := SnapshotFile(state, order);
      disk.files := disk.files[DbPath(name) := file];
      disks := disks + [disk.files];
    }
  }

  /** What is on disk before, between and after the steps of compaction: the temporary file is
      created, then written, then renamed to the log. */
  ghost function CompactionDisks(files: map<text, text>, name: text, dirty: nat, order: seq<text>, state: Store)
    : (disks: seq<map<text, text>>)
    requires Enumerates(order, state)
    ensures disks != [] && disks[0] == files
  {
    if dirty == 0 || state == map[] then [files]
    else
      var buffer := Print(Compacted(order, state));
      [files, files[TempPath(name) := []], files[TempPath(name) := buffer],
       (files - {TempPath(name)})[LogPath(name) := buffer]]
  }

  lemma MovedOn(a: seq<Op>, b: seq<Op>)
    ensures a + ([] + b) == a + (b + [])
  {
  }

  lemma WrittenOn(a: seq<Op>, b: seq<Op>, c: seq<Op>)
    ensures a + (b + c) == (a + b) + ([] + c)
  {
  }

  lemma GrownOn(a: seq<Op>, b: seq<Op>, c: seq<Op>, more: seq<Op>)
    ensures a + (b + (c + more)) == (a + (b + c)) + more
  {
  }

  lemma AllWritten(a: seq<Op>)
    ensures a + ([] + []) == a
  {
  }

  lemma NothingBetween(a: text, b: text)
    ensures a + [] + b == a + b && a + [] == a
  {
  }

  lemma RenamedFiles(files: map<text, text>, temp: text, buffer: text)
    ensures files[temp := []][temp := buffer] == files[temp := buffer]
    ensures files[temp := buffer] - {temp} == files - {temp}
  {
  }

  method CompactedBuffer(state: Store, order: seq<text>) returns (buffer: text)
    requires Enumerates(order, state)
    ensures buffer == Print(Compacted(order, state))
  {
    ghost var ops := Compacted(order, state);
    buffer := [];
    var i := 0;
    assert ops[..0] == [];
    while i < |order|
      invariant i <= |order| && buffer == Print(ops[..i])
    {
      PrintNext(ops, i);
      buffer := buffer + (PUT + [SPACE] + order[i] + [SPACE] + state[order[i]] + [NEWLINE]);
      i := i + 1;
    }
    assert ops[..i] == ops;
  }

  lemma PrintNext(ops: seq<Op>, i: nat)
    requires i < |ops|
    ensures Print(ops[..i + 1]) == Print(ops[..i]) + (Line(ops[i]) + [NEWLINE])
  {
    assert ops[..i + 1] == ops[..i] + [ops[i]];
    PrintAppend(ops[..i], [ops[i]]);
    OnePrinted(ops[i]);
  }

  lemma OnePrinted(op: Op)
    ensures Print([op]) == Line(op) + [NEWLINE]
  {
    assert [op][1..] == [];
  }

  // ----- Reading lines ------------------------------------------------------

  lemma FirstOfLines(s: text, i: nat, j: nat)
    requires i <= j <= |s| && i < |s| && NoNewline(s[i..j]) && (j < |s| ==> s[j] == NEWLINE)
    ensures Lines(s[i..]) == [s[i..j]] + if j < |s| then Lines(s[j + 1..]) else []
  {
    if j < |s| {
      assert s[i..] == s[i..j] + ([NEWLINE] + s[j + 1..]);
      LinesCons(s[i..j], s[j + 1..]);
    } else {
      assert s[i..] == s[i..j];
      LinesOfLast(s[i..]);
    }
  }

  /** getline on a stream that stands at `pos`. */
  method NextLine(s: text, pos: nat) returns (line: text, next: nat)
    requires pos < |s|
    ensures pos < next <= |s| && Lines(s[pos..]) == [line] + Lines(s[next..])
  {
    var end := pos;
    while end < |s| && s[end] != NEWLINE
      invariant pos <= end <= |s| && NoNewline(s[pos..end])
    {
      assert s[pos..end + 1] == s[pos..end] + [s[end]];
      end := end + 1;
    }
    FirstOfLines(s, pos, end);
    line := s[pos..end];
    next := if end < |s| then end + 1 else end;
    assert end == |s| ==> s[next..] == [];
  }

  // ----- DB -----------------------------------------------------------------

  lemma FaithfulLeft(file: text, store: Store)
    requires Faithful(file, store) && StoreSafe(store)
    ensures LeftEarlier(file) && Replay(file) == store
  {
  }

  lemma FaithfulExtended(total: text, store: Store, ops: seq<Op>)
    requires Faithful(total, store) && OpsSafe(ops)
    ensures Faithful(total + Print(ops), ApplyAll(store, ops))
  {
    TerminatedAppend(total, ops);
    SilentExtended(total, ops);
    ReplayExtended(total, ops);
  }

  lemma FaithfulCompacted(order: seq<text>, store: Store)
    requires Enumerates(order, store) && StoreSafe(store)
    ensures Faithful(Print(Compacted(order, store)), store)
  {
    var ops := Compacted(order, store);
    assert OpsSafe(ops);
    PrintTerminated(ops);
    PrintedSilent(ops);
    CompactedReplays(order, store);
  }

  lemma CompactedLeft(order: seq<text>, store: Store)
    requires Enumerates(order, store) && StoreSafe(store)
    ensures LeftEarlier(Print(Compacted(order, store)))
  {
    FaithfulCompacted(order, store);
  }

  /** What appending `ops` makes of the log: nothing once it is closed. */
  ghost function LogAfter(r: Recorded, ops: seq<Op>): (t: Recorded) {
    if r.log.closer == Closed then r
    else Recorded(r.log.(buffer := r.log.buffer + Print(ops)), r.waiting + ops)
  }

  lemma NothingLogged(r: Recorded)
    ensures LogAfter(r, []) == r
  {
    assert r.log.buffer + [] == r.log.buffer && r.waiting + [] == r.waiting;
  }

  lemma LoggedMore(r: Recorded, a: seq<Op>, b: seq<Op>)
    ensures LogAfter(LogAfter(r, a), b) == LogAfter(r, a + b)
  {
    PrintMore(r.log.buffer, a, b);
    Associate(r.waiting, a, b);
  }

  /** Safe operations, logged as they are done, keep log and store in agreement. */
  lemma LoggingKeepsFaith(r: Recorded, store: Store, ops: seq<Op>)
    requires Faithful(Total(r.log), store) && StoreSafe(store) && OpsSafe(ops) && r.log.closer != Closed
    ensures Faithful(Total(LogAfter(r, ops).log), ApplyAll(store, ops)) && StoreSafe(ApplyAll(store, ops))
  {
    SafeStoreKept(store, ops);
    FaithfulExtended(Total(r.log), store, ops);
    TotalLogged(r, ops);
  }

  lemma HistorySafe(written: seq<Op>, taken: seq<Op>, waiting: seq<Op>, ops: seq<Op>)
    requires OpsSafe(written + (taken + waiting)) && OpsSafe(ops)
    ensures OpsSafe(written + (taken + (waiting + ops)))
  {
    GrownOn(written, taken, waiting, ops);
  }

  lemma ClosedTotal(s: LogState)
    requires s.inflight == [] && s.buffer == []
    ensures Total(s) == s.file
  {
  }

  lemma TotalLogged(r: Recorded, ops: seq<Op>)
    requires r.log.closer != Closed
    ensures Total(LogAfter(r, ops).log) == Total(r.log) + Print(ops)
  {
    var s := r.log;
    assert s.file + s.inflight + (s.buffer + Print(ops)) == (s.file + s.inflight + s.buffer) + Print(ops);
  }

  /** Everything in the log, wherever it is, in order. */
  lemma HeldTotal(s: LogState, base: text, written: seq<Op>, taken: seq<Op>, waiting: seq<Op>)
    requires s.file == base + Print(written) && s.inflight == Print(taken) && s.buffer == Print(waiting)
    ensures Total(s) == base + Print(written + (taken + waiting))
  {
    PrintAppend(taken, waiting);
    PrintAppend(written, taken + waiting);
    FourParts(base, Print(written), Print(taken), Print(waiting));
  }

  /** Opening a file that a run of the program left, and no more. */
  lemma OpeningIsFaithful(file: text)
    requires Terminated(file) && Silent(file)
    ensures LogAfter(Recorded(Opened(file), []), ReplayLogged(Lines(file))) == Recorded(Opened(file), [])
    ensures Faithful(Total(Opened(file)), Replay(file))
  {
    NothingLogged(Recorded(Opened(file), []));
    assert file + [] + [] == file;
  }

  class DB {
    const disk: Disk
    const name: text
    const logger: Log
    var store: Store
    var replaying: bool
    var dirty: nat

    ghost predicate Valid()
      reads this, logger, logger.disk
    { logger.disk == disk && logger.name == name && logger.Valid() }

    /** Log and store agree, and all that is stored prints and parses back. */
    ghost predicate Durable()
      reads this, logger, logger.disk
    {
      && Faithful(Total(logger.State()), store) && StoreSafe(store)
      && logger.Safe()
    }

    /** Opens a keyspace and replays its log. */
    constructor (disk: Disk, name: text)
      modifies disk
      ensures this.disk == disk && this.name == name && Valid() && !replaying && dirty == 0
      ensures fresh(logger)
      ensures disk.files == old(disk.files)[LogPath(name) := FileAt(old(disk.files), LogPath(name))]
      ensures store == Replay(FileAt(old(disk.files), LogPath(name)))
      ensures logger.Record() == LogAfter(Recorded(Opened(FileAt(old(disk.files), LogPath(name))), []),
                                         ReplayLogged(Lines(FileAt(old(disk.files), LogPath(name)))))
      ensures LeftEarlier(FileAt(old(disk.files), LogPath(name))) ==>
                Durable() && logger.State() == Opened(FileAt(old(disk.files), LogPath(name)))
    {
      this.disk, this.name := disk, name;
      logger := new Log(disk, name);
      store, replaying, dirty := map[], false, 0;
      new;
      LoadFromLog();
      ghost var file := FileAt(old(disk.files), LogPath(name));
      assert logger.written == logger.taken == [];
      if LeftEarlier(file) {
        OpeningIsFaithful(file);
        AllWritten([]);
      }
    }

    // ----- Primitive operations ---------------------------------------------

    method Put(key: text, value: text)
      modifies this`store, this`dirty
      ensures store == old(store)[key := value]
      ensures dirty == old(dirty) + if replaying then 0 else 1
    {
      store := store[key := value];
      if !replaying { dirty := dirty + 1; }
    }

    method Del(key: text) returns (status: bool)
      modifies this`store, this`dirty
      ensures store == old(store) - {key} && (status <==> key in old(store))
      ensures dirty == old(dirty) + if status && !replaying then 1 else 0
    {
      status := key in store;
      if status {
        store := store - {key};
        if !replaying { dirty := dirty + 1; }
      }
    }

    method Get(key: text) returns (value: Option<text>)
      ensures value == if key in store then Some(store[key]) else None
    {
      value := if key in store then Some(store[key]) else None;
    }

    method MPut(items: seq<text>)
      requires |items| % 2 == 0
      modifies this`store, this`dirty
      ensures store == ApplyAll(old(store), Puts(items))
      ensures dirty == old(dirty) + if replaying then 0 else Changes(old(store), Puts(items))
    {
      ghost var ops := Puts(items);
      var i := 0;
      assert ops[0..] == ops;
      while i < |items|
        invariant i <= |items| && i % 2 == 0
        invariant ApplyAll(store, ops[i / 2..]) == ApplyAll(old(store), ops)
        invariant dirty + (if replaying then 0 else Changes(store, ops[i / 2..]))
                  == old(dirty) + (if replaying then 0 else Changes(old(store), ops))
      {
        assert ops[i / 2..][1..] == ops[(i + 2) / 2..] && ops[i / 2] == Op.Put(items[i], items[i + 1]);
        Put(items[i], items[i + 1]);
        i := i + 2;
      }
    }

    /** The status tells whether every key was there when its turn came. */
    method MDel(keys: seq<text>) returns (status: bool)
      modifies this`store, this`dirty
      ensures store == ApplyAll(old(store), Dels(keys))
      ensures dirty == old(dirty) + if replaying then 0 else Changes(old(store), Dels(keys))
      ensures status <==> Changes(old(store), Dels(keys)) == |keys|
    {
      ghost var ops := Dels(keys);
      ghost var done := 0;
      status := true;
      var i := 0;
      assert ops[0..] == ops;
      while i < |keys|
        invariant i <= |keys|
        invariant ApplyAll(store, ops[i..]) == ApplyAll(old(store), ops)
        invariant done + Changes(store, ops[i..]) == Changes(old(store), ops)
        invariant dirty == old(dirty) + if replaying then 0 else done
        invariant done <= i && (status <==> done == i)
      {
        assert ops[i..][1..] == ops[i + 1..] && ops[i] == Op.Del(keys[i]);
        var deleted := Del(keys[i]);
        if !deleted { status := false; } else { done := done + 1; }
        i := i + 1;
      }
    }

    method MGet(keys: seq<text>) returns (values: seq<Option<text>>)
      ensures |values| == |keys|
      ensures forall i :: 0 <= i < |keys| ==> values[i] == if keys[i] in store then Some(store[keys[i]]) else None
    {
      values := [];
      var i := 0;
      while i < |keys|
        invariant i <= |keys| && |values| == i
        invariant forall j :: 0 <= j < i ==> values[j] == if keys[j] in store then Some(store[keys[j]]) else None
      {
        var value := Get(keys[i]);
        values := values + [value];
        i := i + 1;
      }
    }

    /** The values of the keys that are present. */
    method GetPresent(keys: seq<text>) returns (res: seq<text>)
      ensures res == Found(store, keys)
    {
      var values := MGet(keys);
      res := [];
      var i := 0;
      assert keys[0..] == keys;
      while i < |values|
        invariant i <= |values| && res + Found(store, keys[i..]) == Found(store, keys)
      {
        assert keys[i..][1..] == keys[i + 1..];
        if values[i].Some? { res := res + [values[i].value]; }
        i := i + 1;
      }
    }

    method GetOne(key: text) returns (res: seq<text>)
      ensures res == Found(store, [key])
    {
      var value := Get(key);
      assert [key][1..] == [];
      res := if value.Some? then [value.value] else [];
    }

    // ----- Commands ---------------------------------------------------------

    /** One put line for each pair of an mput. */
    method LogPuts(items: seq<text>)
      requires Valid() && |items| % 2 == 0
      modifies logger`logBuffer, logger`waiting
      ensures Valid() && logger.Record() == LogAfter(old(logger.Record()), Puts(items))
    {
      ghost var ops, j := Puts(items), 0;
      var i := 0;
      assert ops[..0] == [];
      NothingLogged(logger.Record());
      while i < |items|
        invariant i == 2 * j && j <= |ops| && Valid()
        invariant logger.Record() == LogAfter(old(logger.Record()), ops[..j])
      {
        assert j < |ops| && ops[j] == Op.Put(items[i], items[i + 1]);
        LogNext(Op.Put(items[i], items[i + 1]), old(logger.Record()), ops, j);
        i, j := i + 2, j + 1;
      }
      assert ops[..j] == ops;
    }

    /** One del line for each key of an mdel. */
    method LogDels(keys: seq<text>)
      requires Valid()
      modifies logger`logBuffer, logger`waiting
      ensures Valid() && logger.Record() == LogAfter(old(logger.Record()), Dels(keys))
    {
      ghost var ops := Dels(keys);
      var i := 0;
      assert ops[..0] == [];
      NothingLogged(logger.Record());
      while i < |keys|
        invariant i <= |keys| && Valid()
        invariant logger.Record() == LogAfter(old(logger.Record()), ops[..i])
      {
        LogNext(Op.Del(keys[i]), old(logger.Record()), ops, i);
        i := i + 1;
      }
      assert ops[..i] == ops;
    }

    /** The next of several lines. */
    method LogNext(op: Op, ghost r: Recorded, ghost ops: seq<Op>, ghost j: nat)
      requires Valid() && j < |ops| && ops[j] == op && logger.Record() == LogAfter(r, ops[..j])
      modifies logger`logBuffer, logger`waiting
      ensures Valid() && logger.Record() == LogAfter(r, ops[..j + 1])
    {
      assert ops[..j + 1] == ops[..j] + [ops[j]];
      LoggedMore(r, ops[..j], [ops[j]]);
      logger.AppendCommand(op);
    }

    /** put and del log after changing the store, and not while replaying. */
    method ExecuteOne(op: Op)
      requires Valid()
      modifies this`store, this`dirty, logger`logBuffer, logger`waiting
      ensures Valid() && store == ApplyAll(old(store), [op])
      ensures dirty == old(dirty) + if replaying then 0 else Changes(old(store), [op])
      ensures logger.Record() == LogAfter(old(logger.Record()), if replaying then [] else [op])
    {
      OneOp(store, op);
      NothingLogged(logger.Record());
      match op {
        case Put(key, value) => Put(key, value);
        case Del(key) => var status := Del(key);
      }
      if !replaying { logger.AppendCommand(op); }
    }

    /** mput and mdel log every line before they change the store, even while replaying. */
    method ExecuteMPut(items: seq<text>)
      requires Valid() && |items| % 2 == 0
      modifies this`store, this`dirty, logger`logBuffer, logger`waiting
      ensures Valid() && store == ApplyAll(old(store), Puts(items))
      ensures dirty == old(dirty) + if replaying then 0 else Changes(old(store), Puts(items))
      ensures logger.Record() == LogAfter(old(logger.Record()), Puts(items))
    {
      LogPuts(items);
      MPut(items);
    }

    method ExecuteMDel(keys: seq<text>)
      requires Valid()
      modifies this`store, this`dirty, logger`logBuffer, logger`waiting
      ensures Valid() && store == ApplyAll(old(store), Dels(keys))
      ensures dirty == old(dirty) + if replaying then 0 else Changes(old(store), Dels(keys))
      ensures logger.Record() == LogAfter(old(logger.Record()), Dels(keys))
    {
      LogDels(keys);
      var status := MDel(keys);
    }

    method Execute(tokens: seq<text>) returns (res: seq<text>)
      requires Valid() && tokens != []
      modifies this`store, this`dirty, logger`logBuffer, logger`waiting
      ensures Valid() && store == ApplyAll(old(store), Primitives(Dispatch(tokens)))
      ensures dirty == old(dirty) + if replaying then 0 else Changes(old(store), Primitives(Dispatch(tokens)))
      ensures logger.Record() == LogAfter(old(logger.Record()), Logged(Dispatch(tokens), replaying))
      ensures res == if Dispatch(tokens).Query? then Found(store, Dispatch(tokens).keys) else []
    {
      res := [];
      if tokens[0] == PUT && |tokens| == 3 {
        ExecuteOne(Op.Put(tokens[1], tokens[2]));
      } else if tokens[0] == DEL && |tokens| == 2 {
        ExecuteOne(Op.Del(tokens[1]));
      } else if tokens[0] == GET && |tokens| == 2 {
        NothingLogged(logger.Record());
        assert tokens[1..] == [tokens[1]];
        res := GetOne(tokens[1]);
      } else {
        res := ExecuteMany(tokens);
      }
    }

    /** The commands on several keys, and what is none. */
    method ExecuteMany(tokens: seq<text>) returns (res: seq<text>)
      requires Valid() && tokens != []
      requires !(tokens[0] == PUT && |tokens| == 3) && !(tokens[0] == DEL && |tokens| == 2)
      requires !(tokens[0] == GET && |tokens| == 2)
      modifies this`store, this`dirty, logger`logBuffer, logger`waiting
      ensures Valid() && store == ApplyAll(old(store), Primitives(Dispatch(tokens)))
      ensures dirty == old(dirty) + if replaying then 0 else Changes(old(store), Primitives(Dispatch(tokens)))
      ensures logger.Record() == LogAfter(old(logger.Record()), Logged(Dispatch(tokens), replaying))
      ensures res == if Dispatch(tokens).Query? then Found(store, Dispatch(tokens).keys) else []
    {
      res := [];
      if tokens[0] == MPUT && |tokens| >= 5 && |tokens| % 2 != 0 {
        ExecuteMPut(tokens[1..]);
      } else if tokens[0] == MDEL && |tokens| >= 3 {
        ExecuteMDel(tokens[1..]);
      } else {
        NothingLogged(logger.Record());
        if tokens[0] == MGET && |tokens| >= 3 { res := GetPresent(tokens[1..]); }
      }
    }

    lemma OneOp(s: Store, op: Op)
      ensures ApplyAll(s, [op]) == Apply(s, op)
      ensures Changes(s, [op]) == if op.Put? || op.key in s then 1 else 0
    {
      assert [op][1..] == [];
    }

    /** Runs one command line: the store takes its primitive operations in order, the log
        gets the same ones, and dirty counts those that changed something. With safe tokens
        and an open log, the two still agree afterwards. */
    method ParseCommand(command: text) returns (res: seq<text>)
      requires Valid()
      modifies this`store, this`dirty, logger`logBuffer, logger`waiting
      ensures Valid() && store == ApplyAll(old(store), Primitives(Parse(command)))
      ensures dirty == old(dirty) + if replaying then 0 else Changes(old(store), Primitives(Parse(command)))
      ensures logger.Record() == LogAfter(old(logger.Record()), Logged(Parse(command), replaying))
      ensures res == if Parse(command).Query? then Found(store, Parse(command).keys) else []
      ensures old(Durable()) && !replaying && logger.closer != Closed && SafeLine(command) ==> Durable()
      ensures store == Effect(Tokens(command), old(store)) && res == Answer(Tokens(command), old(store))
      ensures Asks(Tokens(command)) ==>
                store == old(store) && dirty == old(dirty) && logger.Record() == old(logger.Record())
    {
      hide Faithful, Effect, Answer, Asks;
      LineEffect(command, store);
      NothingLogged(logger.Record());
      if Durable() && SafeLine(command) && logger.closer != Closed {
        LoggingKeepsFaith(logger.Record(), store, Primitives(Parse(command)));
        HistorySafe(logger.written, logger.taken, logger.waiting, Primitives(Parse(command)));
      }
      res := RunLine(command);
    }

    /** The line itself: nothing if it is blank, else what its tokens say. */
    method RunLine(command: text) returns (res: seq<text>)
      requires Valid()
      modifies this`store, this`dirty, logger`logBuffer, logger`waiting
      ensures Valid() && store == ApplyAll(old(store), Primitives(Parse(command)))
      ensures dirty == old(dirty) + if replaying then 0 else Changes(old(store), Primitives(Parse(command)))
      ensures logger.Record() == LogAfter(old(logger.Record()), Logged(Parse(command), replaying))
      ensures res == if Parse(command).Query? then Found(store, Parse(command).keys) else []
    {
      var empty := IsAllSpace(command);
      if |command| == 0 || empty {
        NothingLogged(logger.Record());
        return [];
      }
      var tokens := Tokenize(command);
      res := Execute(tokens);
    }

    // ----- Replay, clearing and shutdown ------------------------------------

    method ReplayLine(line: text)
      requires Valid() && !replaying
      modifies this`store, this`dirty, this`replaying, logger`logBuffer, logger`waiting
      ensures Valid() && !replaying && dirty == old(dirty)
      ensures store == ApplyAll(old(store), Primitives(Parse(line)))
      ensures logger.Record() == LogAfter(old(logger.Record()), Logged(Parse(line), true))
    {
      replaying := true;
      var res := ParseCommand(line);
      replaying := false;
    }

    /** Replays the log into an empty store: one command for each line of the file as it was
        when loading began. Nothing is counted as dirty. */
    method LoadFromLog()
      requires Valid() && !replaying
      modifies this`store, this`dirty, this`replaying, logger`logBuffer, logger`waiting
      ensures Valid() && !replaying && dirty == old(dirty)
      ensures store == if old(store) == map[] then Replay(logger.File()) else old(store)
      ensures logger.Record() == if old(store) == map[]
                                then LogAfter(old(logger.Record()), ReplayLogged(Lines(logger.File())))
                                else old(logger.Record())
    {
      if store != map[] { return; }
      var content := disk.files[LogPath(name)];
      ghost var done := [];
      var pos := 0;
      assert content[0..] == content;
      NothingLogged(logger.Record());
      while pos < |content|
        invariant pos <= |content| && Valid() && !replaying && dirty == old(dirty)
        invariant ReplayLines(store, Lines(content[pos..])) == Replay(content)
        invariant logger.Record() == LogAfter(old(logger.Record()), done)
        invariant done + ReplayLogged(Lines(content[pos..])) == ReplayLogged(Lines(content))
      {
        ghost var rest := Lines(content[pos..]);
        var line, next := NextLine(content, pos);
        assert rest[0] == line && rest[1..] == Lines(content[next..]);
        ghost var more := Logged(Parse(line), true);
        ReplayLine(line);
        LoggedMore(old(logger.Record()), done, more);
        Associate(done, more, ReplayLogged(rest[1..]));
        done := done + more;
        pos := next;
      }
      assert content[pos..] == [] && done + [] == done;
    }

    /** Empties the store and truncates both files. What is in flight or in the buffer stays,
        and log and store still agree if and only if every put in it is deleted again. */
    method ClearData()
      requires Valid()
      modifies this`store, disk, logger`base, logger`written
      ensures Valid() && store == map[]
      ensures disk.files == old(disk.files)[LogPath(name) := []][DbPath(name) := []]
      ensures logger.State() == old(logger.State()).(file := [])
      ensures logger.base == [] && logger.History() == old(logger.Pending())
      ensures OpsSafe(logger.Pending()) ==> (Durable() <==> AllDeleted(logger.Pending()))
    {
      PathsDistinct(name, name);
      store := map[];
      disk.files := disk.files[LogPath(name) := []];
      disk.files := disk.files[DbPath(name) := []];
      ghost var pending := logger.Pending();
      logger.base, logger.written := [], [];
      NothingBefore(pending);
      if OpsSafe(pending) {
        ClearedFaith(logger.State(), logger.taken, logger.waiting);
      }
    }

    /** A crash at any moment loses at most the operations that were not yet written: the file
        replays to the store as it was after those that were, and is fit to be opened again. */
    lemma CrashLeavesPrefix()
      requires Valid() && Durable()
      ensures Replay(logger.File()) == ApplyAll(Replay(logger.base), logger.written)
      ensures store == ApplyAll(Replay(logger.base), logger.History())
      ensures LeftEarlier(logger.File())
    {
      HeldTotal(logger.State(), logger.base, logger.written, logger.taken, logger.waiting);
      PrefixReplays(logger.base, logger.written, logger.Pending());
    }

    /** The two files a closed log leaves. `disks` is what a crash on the way may leave. */
    method WriteFiles(order: seq<text>) returns (ghost disks: seq<map<text, text>>)
      requires Valid() && logger.closer == Closed
      requires Enumerates(order, store) && SnapshotFits(order, store)
      modifies disk, logger`base, logger`written
      ensures Valid() && logger.State() == old(logger.State()).(file := logger.File())
      ensures logger.File() == if dirty == 0 || store == map[] then old(logger.File()) else Print(Compacted(order, store))
      ensures dirty != 0 && store != map[] ==> TempPath(name) !in disk.files
      ensures SnapshotOf(FileAt(disk.files, DbPath(name)), order, store)
      ensures disks == ShutdownDisks(old(disk.files), name, dirty, order, store, FileAt(disk.files, DbPath(name)))
      ensures disk.files == AfterShutdown(old(disk.files), name, dirty, order, store, FileAt(disk.files, DbPath(name)))
      ensures old(logger.Safe()) && StoreSafe(store) ==> logger.Safe()
      ensures Recover(FileAt(disk.files, DbPath(name))) == Some(store)
    {
      hide Recover, Print, SnapshotFits, LeftEarlier, SnapshotOf, FileForm, CompressedForm, Serialize;
      PathsDistinct(name, name);
      PathsDistinct(name + TEMP, name);
      disks := logger.CompactLog(store, dirty, order);
      if StoreSafe(store) { CompactedLeft(order, store); }
      ghost var more, _ := logger.WriteBinarySnapshot(store, order);
      disks := disks + more;
    }

    /** Closes the log, compacts it and writes the snapshot; the orders are the container's. From
        any state this says exactly when the log gives the store back: compaction repairs a log
        that did not, unless the store itself cannot be printed.
        `disks` is what a crash may leave from closing the log on. */
    method Shutdown(order: seq<text>) returns (ghost disks: seq<map<text, text>>)
      requires Valid() && Enumerates(order, store) && SnapshotFits(order, store)
      modifies logger, disk
      ensures Valid() && logger.State() == LogState(logger.File(), [], [], Exited, Closed)
      ensures logger.File() == if dirty == 0 || store == map[] then old(Total(logger.State()))
                               else Print(Compacted(order, store))
      ensures dirty != 0 && store != map[] ==> TempPath(name) !in disk.files
      ensures SnapshotOf(FileAt(disk.files, DbPath(name)), order, store)
      ensures disks == ShutdownDisks(old(disk.files)[LogPath(name) := old(Total(logger.State()))], name, dirty, order,
                                     store, FileAt(disk.files, DbPath(name)))
      ensures disk.files == AfterShutdown(old(disk.files)[LogPath(name) := old(Total(logger.State()))], name, dirty, order,
                                          store, FileAt(disk.files, DbPath(name)))
      ensures old(Durable()) ==> Durable() && AllFaithful(disks, name, store)
      ensures Replay(logger.File()) == store
              <==> if dirty == 0 || store == map[] then Replay(old(Total(logger.State()))) == store else StoreSafe(store)
      ensures Recover(FileAt(disk.files, DbPath(name))) == Some(store)
    {
      hide Recover, SnapshotOf, Faithful, AfterShutdown, ShutdownDisks, SnapshotFits, Print, Replay, LeftEarlier;
      ghost var durable := Durable();
      logger.CloseLog();
      ghost var closed := disk.files;
      disks := WriteFiles(order);
      ClosedTotal(logger.State());
      CompactionKeepsIffSafe(order, store);
      if durable {
        FaithfulCompacted(order, store);
        ShutdownIsCrashSafe(closed, name, dirty, order, store, FileAt(disk.files, DbPath(name)));
      }
    }
  }

  /** What is on disk from the closing of the log on: compaction, then the snapshot file emptied
      and written. */
  ghost function ShutdownDisks(closed: map<text, text>, name: text, dirty: nat, order: seq<text>, store: Store,
                               snapshot: text)
    : (disks: seq<map<text, text>>)
    requires Enumerates(order, store)
    ensures disks != []
  {
    var compacted := CompactionDisks(closed, name, dirty, order, store);
    var last := compacted[|compacted| - 1];
    compacted + [last[DbPath(name) := []], last[DbPath(name) := snapshot]]
  }

  ghost predicate AllFaithful(disks: seq<map<text, text>>, name: text, store: Store) {
    forall i :: 0 <= i < |disks| ==> Faithful(FileAt(disks[i], LogPath(name)), store)
  }

  /** The log is one of two texts on each of the disks. */
  predicate LogIsEither(disks: seq<map<text, text>>, name: text, a: text, b: text) {
    forall i :: 0 <= i < |disks| ==> FileAt(disks[i], LogPath(name)) == a || FileAt(disks[i], LogPath(name)) == b
  }

  lemma CompactionDisksLog(files: map<text, text>, name: text, dirty: nat, order: seq<text>, store: Store)
    requires Enumerates(order, store)
    ensures LogIsEither(CompactionDisks(files, name, dirty, order, store), name, FileAt(files, LogPath(name)),
                        Print(Compacted(order, store)))
  {
    PathsDistinct(name, name);
    OtherFile(files, TempPath(name), [], LogPath(name));
    OtherFile(files, TempPath(name), Print(Compacted(order, store)), LogPath(name));
  }

  lemma ShutdownDisksLog(closed: map<text, text>, name: text, dirty: nat, order: seq<text>, store: Store, snapshot: text)
    requires Enumerates(order, store)
    ensures LogIsEither(ShutdownDisks(closed, name, dirty, order, store, snapshot), name, FileAt(closed, LogPath(name)),
                        Print(Compacted(order, store)))
  {
    var compacted := CompactionDisks(closed, name, dirty, order, store);
    var last := compacted[|compacted| - 1];
    CompactionDisksLog(closed, name, dirty, order, store);
    PathsDistinct(name, name);
    OtherFile(last, DbPath(name), [], LogPath(name));
    OtherFile(last, DbPath(name), snapshot, LogPath(name));
  }

  lemma EitherFaithful(disks: seq<map<text, text>>, name: text, a: text, b: text, store: Store)
    requires LogIsEither(disks, name, a, b) && Faithful(a, store) && Faithful(b, store)
    ensures AllFaithful(disks, name, store)
  {
  }

  /** At none of these moments can a crash lose anything. */
  lemma ShutdownIsCrashSafe(closed: map<text, text>, name: text, dirty: nat, order: seq<text>, store: Store,
                            snapshot: text)
    requires Enumerates(order, store) && StoreSafe(store) && Faithful(FileAt(closed, LogPath(name)), store)
    ensures AllFaithful(ShutdownDisks(closed, name, dirty, order, store, snapshot), name, store)
  {
    FaithfulCompacted(order, store);
    ShutdownDisksLog(closed, name, dirty, order, store, snapshot);
    EitherFaithful(ShutdownDisks(closed, name, dirty, order, store, snapshot), name, FileAt(closed, LogPath(name)),
                   Print(Compacted(order, store)), store);
  }

  /** What is on disk in the end. */
  ghost function AfterShutdown(closed: map<text, text>, name: text, dirty: nat, order: seq<text>, store: Store,
                               snapshot: text)
    : (files: map<text, text>)
    requires Enumerates(order, store)
  {
    var compacted := if dirty == 0 || store == map[] then closed
                     else (closed - {TempPath(name)})[LogPath(name) := Print(Compacted(order, store))];
    compacted[DbPath(name) := snapshot]
  }

  /** Shutdown touches no other file. */
  lemma ShutdownKeepsOthers(closed: map<text, text>, name: text, dirty: nat, order: seq<text>, store: Store,
                            snapshot: text, path: text)
    requires Enumerates(order, store) && path !in {LogPath(name), DbPath(name), TempPath(name)}
    ensures var files := AfterShutdown(closed, name, dirty, order, store, snapshot);
            (path in files <==> path in closed) && FileAt(files, path) == FileAt(closed, path)
  {
  }

  lemma OtherFile(files: map<text, text>, written: text, bytes: text, path: text)
    requires written != path
    ensures FileAt(files[written := bytes], path) == FileAt(files, path)
  {
  }

  lemma PrefixReplays(base: text, written: seq<Op>, pending: seq<Op>)
    requires LeftEarlier(base) && OpsSafe(written + pending)
    ensures Replay(base + Print(written)) == ApplyAll(Replay(base), written)
    ensures Replay(base + Print(written + pending)) == ApplyAll(Replay(base), written + pending)
    ensures LeftEarlier(base + Print(written))
  {
    assert OpsSafe(written) by {
      forall i | 0 <= i < |written|
        ensures OpSafe(written[i])
      {
        assert (written + pending)[i] == written[i];
      }
    }
    ReplayExtended(base, written);
    ReplayExtended(base, written + pending);
    FaithfulExtended(base, Replay(base), written);
    SafeStoreKept(Replay(base), written);
  }

  lemma NothingBefore(ops: seq<Op>)
    ensures [] + ops == ops
  {
  }

  lemma SafeSuffix(ops: seq<Op>, rest: seq<Op>)
    requires OpsSafe(ops + rest)
    ensures OpsSafe(rest)
  {
    forall i | 0 <= i < |rest|
      ensures OpSafe(rest[i])
    {
      assert (ops + rest)[|ops| + i] == rest[i];
    }
  }

  /** The log after a clear, with some operations still to be written. */
  lemma ClearedFaith(s: LogState, taken: seq<Op>, waiting: seq<Op>)
    requires s.file == [] && s.inflight == Print(taken) && s.buffer == Print(waiting)
    requires OpsSafe(taken + waiting)
    ensures Faithful(Total(s), map[]) <==> AllDeleted(taken + waiting)
  {
    var pending := taken + waiting;
    PrintAppend(taken, waiting);
    NothingFirst(s.inflight, s.buffer);
    PrintTerminated(pending);
    PrintedSilent(pending);
    ClearAgreesIffAllDeleted(pending);
  }
}
