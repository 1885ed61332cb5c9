/** The dispatcher: commands to the current keyspace, switching between keyspaces, clearing
    and quitting. Every keyspace that is not open keeps a log that replays to its last store. */
module Server {
  import opened Text
  import opened Tokenizer
  import opened Commands
  import opened Clearing
  import opened LogProtocol
  import opened Snapshot
  import opened Database

  const STATS: text := [115, 116, 97, 116, 115]
  const CLEAR: text := [99, 108, 101, 97, 114]
  const USE: text := [117, 115, 101]
  const SHOW: text := [115, 104, 111, 119]
  const KEYS: text := [107, 101, 121, 115]
  const VALUES: text := [118, 97, 108, 117, 101, 115]
  const QUIT: text := [113, 117, 105, 116]
  const EXIT: text := [101, 120, 105, 116]

  /** The kind of answer; texts shown to people are not modelled. */
  datatype Reply = Report | Cleared | Switched(name: text) | Bye | Values(values: seq<text>)

  /** No keyspace is called like the temporary file of another. */
  ghost predicate NamesApart(names: set<text>) {
    forall a, b :: a in names && b in names ==> a != b + TEMP
  }

  /** Two tokens, the first of them use. */
  predicate IsUse(input: text) { |Tokens(input)| == 2 && Tokens(input)[0] == [117, 115, 101] }

  /** Inputs that are compared as a whole: stats, clear, show, keys, values, quit and exit. */
  predicate IsReserved(input: text) {
    input in {[115, 116, 97, 116, 115], [99, 108, 101, 97, 114], [115, 104, 111, 119], [107, 101, 121, 115],
              [118, 97, 108, 117, 101, 115], [113, 117, 105, 116], [101, 120, 105, 116]}
  }

  lemma ReservedIsOneToken(input: text)
    requires IsReserved(input)
    ensures Tokens(input) == [input] && !IsUse(input)
  {
    assert Plain(input);
    WordsOfWord(input);
    GroupOne(input);
  }

  /** `use` with a log-safe name, or one that is a phrase left open, switches to it. */
  lemma UseLine(name: text)
    requires LastSafe(name)
    ensures var input := Text.Join([[117, 115, 101], name]);
            IsUse(input) && Tokens(input)[1] == name
  {
    var ts: seq<text> := [USE, name];
    assert Plain(USE) && AllSafe(ts);
    TokenizerUndoesPrinter(ts);
  }

  /** A line that begins with the name of a command runs as a command. */
  lemma CommandLineRuns(input: text)
    requires Tokens(input) != []
    requires Tokens(input)[0] in {PUT, DEL, GET, MPUT, MDEL, MGET}
    ensures !IsUse(input) && !IsReserved(input)
  {
    if IsReserved(input) { ReservedIsOneToken(input); }
  }

  /** So does every line that is logged, safe or not. */
  lemma LoggedLineRuns(op: Op)
    ensures !IsUse(Line(op)) && !IsReserved(Line(op))
  {
    OperatorsPlain();
    var w := if op.Put? then PUT else DEL;
    var rest := if op.Put? then op.key + [SPACE] + op.value else op.key;
    assert Line(op) == w + ([SPACE] + rest);
    FirstToken(w, rest);
    CommandLineRuns(Line(op));
  }

  /** The logs of all saved keyspaces but the open one replay to what was saved. */
  ghost predicate SavedOn(files: map<text, text>, saved: map<text, Store>, open: text) {
    forall n :: n in saved && n != open ==> Faithful(FileAt(files, LogPath(n)), saved[n]) && StoreSafe(saved[n])
  }

  /** Two disks hold the same log for every keyspace but two. */
  ghost predicate SameLogs(files: map<text, text>, files': map<text, text>, a: text, b: text) {
    forall m :: m != a && m != b ==>
      FileAt(files', LogPath(m)) == FileAt(files, LogPath(m)) && (LogPath(m) in files' <==> LogPath(m) in files)
  }

  /** Writing the files of the open keyspace leaves the others saved. */
  lemma StillSaved(files: map<text, text>, files': map<text, text>, saved: map<text, Store>, open: text)
    requires SavedOn(files, saved, open) && NamesApart(saved.Keys + {open}) && SameLogs(files, files', open, open + TEMP)
    ensures SavedOn(files', saved, open)
  {
  }

  lemma LogsKept(files: map<text, text>, name: text)
    ensures var after := files[LogPath(name) := FileAt(files, LogPath(name))];
            forall m :: FileAt(after, LogPath(m)) == FileAt(files, LogPath(m))
  {
  }

  lemma LogWritten(files: map<text, text>, name: text, bytes: text)
    ensures SameLogs(files, files[LogPath(name) := bytes], name, name)
  {
    forall m | m != name
      ensures LogPath(m) != LogPath(name)
    {
      PathsDistinct(m, name);
    }
  }

  lemma BothWritten(files: map<text, text>, name: text)
    ensures SameLogs(files, files[LogPath(name) := []][DbPath(name) := []], name, name)
  {
    forall m | m != name
      ensures LogPath(m) !in {LogPath(name), DbPath(name)}
    {
      PathsDistinct(m, name);
    }
  }

  lemma ShutdownSameLogs(files: map<text, text>, total: text, name: text, dirty: nat, order: seq<text>, store: Store,
                         snapshot: text)
    requires Enumerates(order, store)
    ensures SameLogs(files, AfterShutdown(files[LogPath(name) := total], name, dirty, order, store, snapshot),
                     name, name + TEMP)
  {
    var after := AfterShutdown(files[LogPath(name) := total], name, dirty, order, store, snapshot);
    forall m | m != name && m != name + TEMP
      ensures FileAt(after, LogPath(m)) == FileAt(files, LogPath(m)) && (LogPath(m) in after <==> LogPath(m) in files)
    {
      PathsDistinct(m, name);
      PathsDistinct(m, name + TEMP);
      ShutdownKeepsOthers(files[LogPath(name) := total], name, dirty, order, store, snapshot, LogPath(m));
    }
  }

  /** What shutdown leaves of a keyspace: the log as it was, or rewritten if there is something to
      compact, and the snapshot. */
  ghost predicate LeftBehind(files: map<text, text>, name: text, total: text, dirty: nat, order: seq<text>, store: Store)
    requires forall i :: 0 <= i < |order| ==> order[i] in store
  {
    && FileAt(files, LogPath(name)) == (if dirty == 0 || store == map[] then total else Print(Compacted(order, store)))
    && SnapshotOf(FileAt(files, DbPath(name)), order, store) && Recover(FileAt(files, DbPath(name))) == Some(store)
  }

  /** Shutting down twice leaves the same as shutting down the second time only. */
  lemma LeftTwice(files: map<text, text>, files': map<text, text>, name: text, total: text, dirty: nat,
                  order: seq<text>, order': seq<text>, store: Store)
    requires Enumerates(order, store) && Enumerates(order', store)
    requires LeftBehind(files, name, total, dirty, order, store)
    requires LeftBehind(files', name, FileAt(files, LogPath(name)), dirty, order', store)
    ensures LeftBehind(files', name, total, dirty, order', store)
  {
  }

  class Server {
    const disk: Disk
    var db: DB
    var running: bool
    /** Whether the open log still writes to the file of its name. */
    var attached: bool
    /** The store of every keyspace at the time it was last left. */
    ghost var saved: map<text, Store>

    ghost predicate Valid()
      reads this, db, db.logger, db.logger.disk
    { db.Valid() && db.disk == disk && !db.replaying }

    ghost predicate AllSaved()
      reads this, disk
    { SavedOn(disk.files, saved, db.name) }

    ghost predicate Usable()
      reads this, db, db.logger, db.logger.disk
    { Valid() && attached && NamesApart(saved.Keys + {db.name}) }

    /** Every keyspace can be reopened as it is or was last left. */
    ghost predicate Recoverable()
      reads this, db, db.logger, db.logger.disk, disk
    { Usable() && db.Durable() && AllSaved() }

    /** Starts on a keyspace; if its log was left by this program everything is recoverable. */
    constructor (disk: Disk, name: text)
      modifies disk
      ensures this.disk == disk && db.name == name && fresh(db) && fresh(db.logger) && saved == map[] && running
      ensures Usable() && db.store == Replay(FileAt(old(disk.files), LogPath(name)))
      ensures LeftEarlier(FileAt(old(disk.files), LogPath(name))) ==> Recoverable()
    {
      hide Faithful, Replay, LeftEarlier;
      this.disk := disk;
      db := new DB(disk, name);
      running, attached := true, true;
      saved := map[];
    }

    /** A crash at any moment: every keyspace can be opened again, those that are not open as
        they were left, the open one as it was after what had been written. */
    lemma CrashThenRestart(n: text)
      requires Recoverable() && n in saved.Keys + {db.name}
      ensures var file := FileAt(disk.files, LogPath(n));
              && LeftEarlier(file)
              && Replay(file) == if n == db.name then ApplyAll(Replay(db.logger.base), db.logger.written) else saved[n]
    {
      db.CrashLeavesPrefix();
    }

    /** The flusher thread may take a step at any time: it changes no store and loses nothing. */
    method Tick()
      requires Usable() && db.logger.flusher != Exited
      modifies db.logger, disk
      ensures Usable() && db.store == old(db.store)
      ensures db.logger.State() == Step(old(db.logger.State()), FlusherAction(old(db.logger.State())))
      ensures Total(db.logger.State()) == old(Total(db.logger.State()))
      ensures old(Recoverable()) ==> Recoverable()
    {
      hide Faithful, LeftEarlier;
      ghost var s := db.logger.State();
      ghost var savedOnes := AllSaved();
      db.logger.FlusherStep();
      assert Total(db.logger.State()) == Total(s) by { FlusherKeeps(s); }
      LogWritten(old(disk.files), db.name, db.logger.File());
      if savedOnes { StillSaved(old(disk.files), disk.files, saved, db.name); }
    }

    /** A command, run by the open keyspace. Unless its tokens are unsafe or the log is closed,
        everything stays recoverable. */
    method Command(input: text) returns (values: seq<text>)
      requires Usable()
      modifies db`store, db`dirty, db.logger`logBuffer, db.logger`waiting
      ensures Usable() && db.store == ApplyAll(old(db.store), Primitives(Parse(input)))
      ensures db.store == Effect(Tokens(input), old(db.store)) && values == Answer(Tokens(input), old(db.store))
      ensures db.logger.Record() == LogAfter(old(db.logger.Record()), Primitives(Parse(input)))
      ensures old(Recoverable()) && db.logger.closer != Closed && SafeLine(input) ==> Recoverable()
    {
      hide Faithful, LeftEarlier, Effect, Answer;
      values := db.ParseCommand(input);
    }

    /** Clearing makes the open keyspace recoverable, whatever it was before, if and only if
        every put that is not yet in the file is deleted again. */
    method Clear()
      requires Usable()
      modifies db`store, disk, db.logger`base, db.logger`written
      ensures Usable() && db.store == map[]
      ensures disk.files == old(disk.files)[LogPath(db.name) := []][DbPath(db.name) := []]
      ensures db.logger.Pending() == old(db.logger.Pending())
      ensures old(AllSaved()) && OpsSafe(db.logger.Pending()) ==> (Recoverable() <==> AllDeleted(db.logger.Pending()))
      ensures old(Recoverable()) ==> OpsSafe(db.logger.Pending())
    {
      hide Faithful, LeftEarlier;
      ghost var savedOnes := AllSaved();
      if db.Durable() { SafeSuffix(db.logger.written, db.logger.Pending()); }
      db.ClearData();
      BothWritten(old(disk.files), db.name);
      if savedOnes { StillSaved(old(disk.files), disk.files, saved, db.name); }
    }

    /** Shutdown of the open keyspace; doing it again changes nothing that is replayed. */
    method ShutdownDb(order: seq<text>)
      requires Usable() && Enumerates(order, db.store) && SnapshotFits(order, db.store)
      modifies db.logger, disk
      ensures Usable() && db.logger.State() == LogState(db.logger.File(), [], [], Exited, Closed)
      ensures LeftBehind(disk.files, db.name, old(Total(db.logger.State())), db.dirty, order, db.store)
      ensures SameLogs(old(disk.files), disk.files, db.name, db.name + TEMP)
      ensures old(db.Durable()) ==> db.Durable() && Faithful(FileAt(disk.files, LogPath(db.name)), db.store)
      ensures db.dirty == 0 || db.store == map[] ==> db.logger.File() == old(Total(db.logger.State()))
      ensures old(AllSaved()) ==> AllSaved()
      ensures Replay(FileAt(disk.files, LogPath(db.name))) == db.store
              <==> if db.dirty == 0 || db.store == map[] then Replay(old(Total(db.logger.State()))) == db.store
                   else StoreSafe(db.store)
    {
      hide LeftBehind, Faithful, LeftEarlier, Replay;
      ghost var savedOnes := AllSaved();
      ghost var total := Total(db.logger.State());
      StopDb(order);
      ClosedTotal(db.logger.State());
      if savedOnes { StillSaved(old(disk.files), disk.files, saved, db.name); }
    }

    /** What that means for the open keyspace, and that the logs of the others are as before. */
    method StopDb(order: seq<text>)
      requires Valid() && Enumerates(order, db.store) && SnapshotFits(order, db.store)
      modifies db.logger, disk
      ensures Valid() && db.logger.State() == LogState(db.logger.File(), [], [], Exited, Closed)
      ensures old(db.Durable()) ==> db.Durable()
      ensures db.dirty == 0 || db.store == map[] ==> db.logger.File() == old(Total(db.logger.State()))
      ensures LeftBehind(disk.files, db.name, old(Total(db.logger.State())), db.dirty, order, db.store)
      ensures SameLogs(old(disk.files), disk.files, db.name, db.name + TEMP)
      ensures Replay(db.logger.File()) == db.store
              <==> if db.dirty == 0 || db.store == map[] then Replay(old(Total(db.logger.State()))) == db.store
                   else StoreSafe(db.store)
    {
      hide Recover, SnapshotOf, Faithful, LeftEarlier, Replay, StoreSafe;
      ghost var total := Total(db.logger.State());
      ghost var disks := db.Shutdown(order);
      ShutdownSameLogs(old(disk.files), total, db.name, db.dirty, order, db.store, FileAt(disk.files, DbPath(db.name)));
    }

    /** `use`: the open keyspace is shut down, the new one is opened, and the old one is shut
        down once more as it is destroyed. If the new one is the old one that replaces the file
        under the log just opened, unless there is nothing to compact. */
    method Use(name: text, order1: seq<text>, order2: seq<text>)
      requires Usable() && NamesApart(saved.Keys + {db.name, name})
      requires Enumerates(order1, db.store) && Enumerates(order2, db.store)
      requires SnapshotFits(order1, db.store) && SnapshotFits(order2, db.store)
      modifies this, db.logger, disk
      ensures db.name == name && fresh(db) && fresh(db.logger) && running == old(running) && (attached ==> Usable())
      ensures attached <==> name != old(db.name) || old(db.dirty) == 0 || old(db.store) == map[]
      ensures name != old(db.name) ==>
                && saved == old(saved)[old(db.name) := old(db.store)]
                && db.store == Replay(old(FileAt(disk.files, LogPath(name))))
                && (old(AllSaved()) && name in old(saved) ==> db.store == old(saved)[name])
      ensures LeftBehind(disk.files, old(db.name), old(Total(db.logger.State())), old(db.dirty), order2, old(db.store))
      ensures name == old(db.name) && old(Recoverable()) ==>
                && saved == old(saved) && db.store == old(db.store)
                && Faithful(FileAt(disk.files, LogPath(name)), db.store)
      ensures old(Recoverable()) && attached
              && (name != old(db.name) && name !in old(saved) ==> LeftEarlier(old(FileAt(disk.files, LogPath(name)))))
              ==> Recoverable()
    {
      hide LeftBehind, Faithful, Replay, LeftEarlier;
      if name == db.name {
        UseAgain(order1, order2);
      } else {
        SwitchTo(name, order1, order2);
      }
    }

    /** The same keyspace again: closed and compacted, opened, and compacted a second time. */
    method UseAgain(order1: seq<text>, order2: seq<text>)
      requires Usable() && Enumerates(order1, db.store) && Enumerates(order2, db.store)
      requires SnapshotFits(order1, db.store) && SnapshotFits(order2, db.store)
      modifies this, db.logger, disk
      ensures db.name == old(db.name) && fresh(db) && fresh(db.logger) && running == old(running) && saved == old(saved)
      ensures attached <==> old(db.dirty) == 0 || old(db.store) == map[]
      ensures attached ==> Usable() && (old(Recoverable()) ==> Recoverable())
      ensures LeftBehind(disk.files, db.name, old(Total(db.logger.State())), old(db.dirty), order2, old(db.store))
      ensures old(Recoverable()) ==> db.store == old(db.store) && Faithful(FileAt(disk.files, LogPath(db.name)), db.store)
    {
      hide LeftBehind, Faithful, Replay, LeftEarlier, SameLogs, StoreSafe, Enumerates, SnapshotFits;
      ghost var durable, store, total := db.Durable(), db.store, Total(db.logger.State());
      ShutdownDb(order1);
      ghost var files := disk.files;
      ClosedTotal(db.logger.State());
      if durable {
        FaithfulLeft(FileAt(disk.files, LogPath(db.name)), db.store);
      }
      var next := OpenNext(db.name);
      AdoptAgain(next, order2);
      LeftTwice(files, disk.files, db.name, total, old(db.dirty), order1, order2, store);
    }

    /** The old object shuts down a second time, under the log the new one has just opened. */
    method AdoptAgain(next: DB, order: seq<text>)
      requires Usable() && db.logger.closer == Closed && Enumerates(order, db.store) && SnapshotFits(order, db.store)
      requires next != db && next.logger != db.logger && next.disk == disk && next.Valid() && !next.replaying
      requires next.name == db.name
      modifies this`db, this`attached, db.logger, disk
      ensures db == next && (attached <==> old(db.dirty) == 0 || old(db.store) == map[])
      ensures attached ==> Usable() && (old(AllSaved()) && old(next.Durable()) ==> Recoverable())
      ensures LeftBehind(disk.files, next.name, old(Total(db.logger.State())), old(db.dirty), order, old(db.store))
      ensures old(db.Durable()) ==> Faithful(FileAt(disk.files, LogPath(next.name)), old(db.store))
    {
      hide LeftBehind, Faithful, Replay, LeftEarlier, SameLogs, StoreSafe, Enumerates, SnapshotFits;
      ClosedTotal(db.logger.State());
      ghost var file := db.logger.File();
      ShutdownDb(order);
      attached := db.dirty == 0 || db.store == map[];
      assert attached ==> db.logger.File() == file;
      assert attached ==> next.logger.State() == old(next.logger.State());
      db := next;
    }

    /** Another keyspace comes back as its log has it, which is as it was last left, in this run
        or in an earlier one. */
    method SwitchTo(name: text, order1: seq<text>, order2: seq<text>)
      requires Usable() && name != db.name && NamesApart(saved.Keys + {db.name, name})
      requires Enumerates(order1, db.store) && Enumerates(order2, db.store)
      requires SnapshotFits(order1, db.store) && SnapshotFits(order2, db.store)
      modifies this, db.logger, disk
      ensures Usable() && db.name == name && fresh(db) && fresh(db.logger) && running == old(running)
      ensures saved == old(saved)[old(db.name) := old(db.store)]
      ensures LeftBehind(disk.files, old(db.name), old(Total(db.logger.State())), old(db.dirty), order2, old(db.store))
      ensures db.store == Replay(old(FileAt(disk.files, LogPath(name))))
      ensures old(AllSaved()) && name in old(saved) ==> db.store == old(saved)[name]
      ensures old(Recoverable()) && (name !in old(saved) ==> LeftEarlier(old(FileAt(disk.files, LogPath(name)))))
              ==> Recoverable()
    {
      hide LeftBehind, Faithful, Replay, LeftEarlier, StoreSafe, Enumerates, SnapshotFits;
      ghost var savedOnes, store, total := AllSaved(), db.store, Total(db.logger.State());
      ghost var was, dirty := db.name, db.dirty;
      ghost var file := FileAt(disk.files, LogPath(name));
      ShutdownDb(order1);
      ghost var files := disk.files;
      ClosedTotal(db.logger.State());
      if savedOnes && name in saved { SavedFile(name, file); }
      var next := OpenNext(name);
      Replace(next, order2);
      LeftTwice(files, disk.files, was, total, dirty, order1, order2, store);
    }

    /** Assigning the new keyspace destroys the old one, which shuts it down again. */
    method Replace(next: DB, order: seq<text>)
      requires Usable() && Enumerates(order, db.store) && SnapshotFits(order, db.store)
      requires next != db && next.logger != db.logger && next.disk == disk && next.Valid() && !next.replaying
      requires next.name != db.name && NamesApart(saved.Keys + {db.name, next.name})
      modifies this, db.logger, disk
      ensures Usable() && db == next && db.store == old(next.store) && running == old(running)
      ensures saved == old(saved)[old(db.name) := old(db.store)]
      ensures LeftBehind(disk.files, old(db.name), old(Total(db.logger.State())), old(db.dirty), order, old(db.store))
      ensures old(Recoverable()) && old(next.Durable()) ==> Recoverable()
    {
      hide LeftBehind, Faithful, LeftEarlier, Replay;
      ShutdownDb(order);
      assert next.logger.State() == old(next.logger.State());
      Adopt(next);
    }

    method Adopt(next: DB)
      requires next.disk == disk && next.Valid() && !next.replaying
      requires attached && next.name != db.name && NamesApart(saved.Keys + {db.name, next.name})
      modifies this`db, this`saved
      ensures Usable() && db == next && running == old(running)
      ensures saved == old(saved)[old(db.name) := old(db.store)]
      ensures (&& old(AllSaved()) && old(StoreSafe(db.store)) && next.Durable()
               && old(Faithful(FileAt(disk.files, LogPath(db.name)), db.store))) ==> Recoverable()
    {
      hide Faithful, LeftEarlier;
      ghost var was, before := db.name, saved;
      saved := saved[db.name := db.store];
      assert saved.Keys + {next.name} == before.Keys + {db.name, next.name};
      db := next;
      assert forall n :: n in saved && n != was ==> n in before && saved[n] == before[n];
    }

    /** The file of a keyspace that was left in this run. */
    lemma SavedFile(name: text, file: text)
      requires AllSaved() && name != db.name && name in saved && file == FileAt(disk.files, LogPath(name))
      ensures LeftEarlier(file) && Replay(file) == saved[name]
    {
    }

    /** Opening another keyspace leaves the open one and all saved ones as they are. */
    method OpenNext(name: text) returns (next: DB)
      requires Usable()
      modifies disk
      ensures fresh(next) && fresh(next.logger) && next.disk == disk && next.name == name
      ensures next.Valid() && !next.replaying && next != db && next.logger != db.logger
      ensures next.store == Replay(FileAt(old(disk.files), LogPath(name)))
      ensures LeftEarlier(FileAt(old(disk.files), LogPath(name))) ==> next.Durable()
      ensures Usable() && db.store == old(db.store) && (old(Recoverable()) ==> Recoverable())
      ensures forall m :: FileAt(disk.files, LogPath(m)) == FileAt(old(disk.files), LogPath(m))
    {
      hide Faithful, Replay, Print, LeftEarlier;
      next := new DB(disk, name);
      LogsKept(old(disk.files), name);
    }

    /** quit and exit. */
    method Quit(order: seq<text>)
      requires Usable() && Enumerates(order, db.store) && SnapshotFits(order, db.store)
      modifies this`running, db.logger, disk
      ensures Usable() && !running && (old(Recoverable()) ==> Recoverable())
      ensures LeftBehind(disk.files, db.name, old(Total(db.logger.State())), db.dirty, order, db.store)
      ensures old(db.Durable()) ==> Faithful(FileAt(disk.files, LogPath(db.name)), db.store)
    {
      hide Faithful, LeftEarlier, Replay, Recover;
      running := false;
      ShutdownDb(order);
    }

    // ----- Dispatching ------------------------------------------------------

    /** What a request needs. The caller always has to send at least one word. */
    ghost predicate Admissible(input: text, order1: seq<text>, order2: seq<text>)
      reads this, db
    {
      && Words(input) != []
      && Enumerates(order1, db.store) && SnapshotFits(order1, db.store)
      && Enumerates(order2, db.store) && SnapshotFits(order2, db.store)
      && (IsUse(input) ==> NamesApart(saved.Keys + {db.name, Tokens(input)[1]}))
    }

    /** What keeps everything recoverable: no unsafe command and none on a closed log, no clear
        that leaves puts behind, no switch to a log that is not this program's, none to the open
        keyspace while it has changes. */
    ghost predicate Harmless(input: text)
      reads this, db, db.logger, disk
    {
      if IsUse(input) then
        var name := Tokens(input)[1];
        if name == db.name then db.dirty == 0 || db.store == map[]
        else name !in saved ==> LeftEarlier(FileAt(disk.files, LogPath(name)))
      else if IsReserved(input) then input == CLEAR ==> AllDeleted(db.logger.Pending())
      else db.logger.closer != Closed && SafeLine(input)
    }

    /** One request: `use`, then the reserved words, then a command; `stats` and `clear` come
        first, which makes no difference. */
    method Dispatcher(input: text, order1: seq<text>, order2: seq<text>) returns (reply: Reply)
      requires Usable() && Admissible(input, order1, order2)
      modifies this, db, db.logger, disk
      ensures attached <==>
                !(IsUse(input) && Tokens(input)[1] == old(db.name) && old(db.dirty) != 0 && old(db.store) != map[])
      ensures attached ==> Usable() && (old(Recoverable()) && old(Harmless(input)) ==> Recoverable())
      ensures input == [99, 108, 101, 97, 114] ==>
                && reply == Cleared && db == old(db) && db.store == map[]
                && disk.files == old(disk.files)[LogPath(db.name) := []][DbPath(db.name) := []]
                && (old(AllSaved()) && old(OpsSafe(db.logger.Pending())) ==> (Recoverable() <==> old(Harmless(input))))
      ensures input in {[115, 116, 97, 116, 115], [115, 104, 111, 119], [107, 101, 121, 115], [118, 97, 108, 117, 101, 115]} ==>
                && reply == Report && db == old(db) && db.store == old(db.store) && db.dirty == old(db.dirty)
                && disk.files == old(disk.files) && db.logger.Record() == old(db.logger.Record())
      ensures input in {[113, 117, 105, 116], [101, 120, 105, 116]} ==>
                && reply == Bye && !running && db == old(db) && db.store == old(db.store)
                && LeftBehind(disk.files, db.name, old(Total(db.logger.State())), old(db.dirty), order1, db.store)
      ensures input !in {[113, 117, 105, 116], [101, 120, 105, 116]} ==> running == old(running)
      ensures |Tokens(input)| == 2 && Tokens(input)[0] == [117, 115, 101] ==>
                var name := Tokens(input)[1];
                && reply == Switched(name) && db.name == name
                && LeftBehind(disk.files, old(db.name), old(Total(db.logger.State())), old(db.dirty), order2, old(db.store))
                && (name != old(db.name) ==>
                      && db.store == Replay(old(FileAt(disk.files, LogPath(name))))
                      && (old(AllSaved()) && name in old(saved) ==> db.store == old(saved)[name])
                      && saved == old(saved)[old(db.name) := old(db.store)])
                && (name == old(db.name) && old(Recoverable()) ==> db.store == old(db.store) && saved == old(saved))
      ensures !IsUse(input) && !IsReserved(input) ==>
                && db == old(db) && db.store == Effect(Tokens(input), old(db.store))
                && reply == Values(Answer(Tokens(input), old(db.store)))
                && db.logger.Record() == LogAfter(old(db.logger.Record()), Primitives(Parse(input)))
    {
      hide LeftBehind, Faithful, Replay, LeftEarlier, Effect, Answer, Parse, Primitives;
      var tokens := Tokenize(input);
      FirstTokenExists(input);
      if IsReserved(input) { ReservedIsOneToken(input); }
      if input == STATS {
        reply := Report;
      } else if input == CLEAR {
        Clear();
        reply := Cleared;
      } else if tokens[0] == USE && |tokens| == 2 {
        Use(tokens[1], order1, order2);
        reply := Switched(tokens[1]);
      } else {
        reply := DispatchLocal(input, order1);
      }
    }

    /** The requests that neither clear nor switch. */
    method DispatchLocal(input: text, order: seq<text>) returns (reply: Reply)
      requires Usable() && Enumerates(order, db.store) && SnapshotFits(order, db.store)
      modifies this`running, db, db.logger, disk
      ensures Usable()
      ensures input in {SHOW, KEYS, VALUES} ==>
                && reply == Report && db.store == old(db.store) && db.dirty == old(db.dirty)
                && disk.files == old(disk.files) && db.logger.Record() == old(db.logger.Record())
                && (old(Recoverable()) ==> Recoverable())
      ensures input in {QUIT, EXIT} ==>
                && reply == Bye && !running && db.store == old(db.store) && (old(Recoverable()) ==> Recoverable())
                && LeftBehind(disk.files, db.name, old(Total(db.logger.State())), old(db.dirty), order, db.store)
      ensures input !in {QUIT, EXIT} ==> running == old(running)
      ensures input !in {SHOW, KEYS, VALUES, QUIT, EXIT} ==>
                && db.store == Effect(Tokens(input), old(db.store))
                && reply == Values(Answer(Tokens(input), old(db.store)))
                && db.logger.Record() == LogAfter(old(db.logger.Record()), Primitives(Parse(input)))
                && (old(Recoverable()) && old(db.logger.closer) != Closed && SafeLine(input) ==> Recoverable())
    {
      hide LeftBehind, Faithful, Replay, LeftEarlier, Effect, Answer, Parse, Primitives;
      if input == SHOW || input == KEYS || input == VALUES {
        reply := Report;
      } else if input == QUIT || input == EXIT {
        Quit(order);
        reply := Bye;
      } else {
        var values := Command(input);
        reply := Values(values);
      }
    }

    /** Destroying the server shuts its keyspace down twice in a row. */
    method Destroy(order1: seq<text>, order2: seq<text>)
      requires Usable() && Enumerates(order1, db.store) && Enumerates(order2, db.store)
      requires SnapshotFits(order1, db.store) && SnapshotFits(order2, db.store)
      modifies db.logger, disk
      ensures Usable() && db.store == old(db.store) && (old(Recoverable()) ==> Recoverable())
      ensures LeftBehind(disk.files, db.name, old(Total(db.logger.State())), db.dirty, order2, db.store)
      ensures old(db.Durable()) ==> Faithful(FileAt(disk.files, LogPath(db.name)), db.store)
    {
      hide LeftBehind, Faithful, Replay, LeftEarlier;
      ghost var total := Total(db.logger.State());
      ShutdownDb(order1);
      ghost var files := disk.files;
      ClosedTotal(db.logger.State());
      ShutdownDb(order2);
      LeftTwice(files, disk.files, db.name, total, db.dirty, order1, order2, db.store);
    }
  }

  lemma FirstTokenExists(input: text)
    ensures Words(input) != [] ==> Tokens(input) != []
  {
  }
}
