/**
 One session as a state machine: statements, transactions, commits to the write-ahead log,
 loads and checkpoints. The theorems at the end hold over every run.
 */
module Sessions {
  import opened Values
  import opened TableStates
  import opened Catalogs
  import opened Constraints
  import opened Statements
  import opened Dumps
  import opened Frames
  import opened Loads
  import FkGraphs

  type Path = string

  /**
   A session. paths[i] is the file table i was loaded from, if any; two tables may name the same
   file. Two fields are history: partial holds, for each table that a failed COMMIT of the open
   transaction already appended to the log, what was appended; diverged holds the tables whose
   file and memory parted for a reason below, until a checkpoint or a load brings them together again.
   latched holds the tables on which an allocation failure is recorded, which the engine never clears,
   torn the files whose log ends in a piece of a frame: what is appended behind it no replay finds.
   */
  datatype World = World(db: Db, log: seq<Undo>, active: bool, paths: seq<Option<Path>>, files: map<Path, Disk>,
                         partial: map<nat, TableState>, diverged: set<nat>, latched: set<nat>, torn: set<Path>)

  /** A session that has loaded nothing yet. */
  function Fresh(files: map<Path, Disk>): World {
    World(Db([], []), [], false, [], files, map[], {}, {}, {})
  }

  datatype Stmt =
    | Query(dml: Dml, env: Env)
    | Create(name: string, defs: seq<ColumnDef>)
    | Begin
    | Commit
    | Rollback
    | Load(name: string, schema: Schema, path: Path)
    | Checkpoint(table: nat)

  datatype Reply =
    | Done(changes: nat)
    | Rejected(error: Error)
    | CommitFailed
    | CheckpointFailed
    | LoadedInPart
    | NoTransaction
    | AlreadyActive
    | Refused
    | Unavailable
  {
    /** Nothing was done: a check failed, or the file, its lock or memory was not to be had. */
    predicate Declined() {
      Refused? || Unavailable?
    }
  }

  /******* What a commit writes *******/

  /** The rows of a table the log touches, each once, in order of first appearance. */
  function TouchedRows(log: seq<Undo>, i: nat): seq<nat> {
    if log == [] then []
    else
      var rest, e := TouchedRows(log[..|log| - 1], i), log[|log| - 1];
      if e.table == i && e.row !in rest then rest + [e.row] else rest
  }

  /** The tables the log touches, each once, in order of first appearance. */
  function TouchedTables(log: seq<Undo>): seq<nat> {
    if log == [] then []
    else
      var rest, e := TouchedTables(log[..|log| - 1]), log[|log| - 1];
      if e.table !in rest then rest + [e.table] else rest
  }

  predicate Distinct(s: seq<nat>) {
    forall a, b :: 0 <= a < b < |s| ==> s[a] != s[b]
  }

  lemma {:induction false} TouchedRowsExactly(log: seq<Undo>, i: nat, r: nat)
    ensures r in TouchedRows(log, i) <==> exists k :: 0 <= k < |log| && log[k].table == i && log[k].row == r
  {
    if log != [] {
      var rest, e := log[..|log| - 1], log[|log| - 1];
      TouchedRowsExactly(rest, i, r);
      if k :| 0 <= k < |log| && log[k].table == i && log[k].row == r {
        if k < |rest| {
          assert rest[k] == log[k];
        }
      }
      if j :| 0 <= j < |rest| && rest[j].table == i && rest[j].row == r {
        assert log[j] == rest[j];
      }
    }
  }

  lemma {:induction false} TouchedTablesExactly(log: seq<Undo>, i: nat)
    ensures i in TouchedTables(log) <==> TouchedRows(log, i) != []
    ensures i in TouchedTables(log) <==> exists k :: 0 <= k < |log| && log[k].table == i
    ensures Distinct(TouchedTables(log))
  {
    if log != [] {
      TouchedTablesExactly(log[..|log| - 1], i);
    }
  }

  lemma {:induction false} TouchedRowsFit(db: Db, log: seq<Undo>, i: nat)
    requires LogFits(db, log) && i < |db.tables|
    ensures forall r :: r in TouchedRows(log, i) ==> r < |db.tables[i].rows|
  {
    if log != [] {
      var rest, e := log[..|log| - 1], log[|log| - 1];
      assert EntryFits(db, e);
      TouchedRowsFit(db, rest, i);
    }
  }

  /** The backing file of a table. */
  function DiskOf(w: World, i: nat): Option<Disk> {
    if i < |w.paths| && w.paths[i].Some? && w.paths[i].value in w.files then Some(w.files[w.paths[i].value]) else None
  }

  function WithDisk(w: World, i: nat, disk: Disk): World
    requires DiskOf(w, i).Some?
  {
    w.(files := w.files[w.paths[i].value := disk])
  }

  /** One table's share of a commit. A table without a backing file has nothing to write; behind a torn frame it is written in vain. */
  function AppendTable(w: World, i: nat): World {
    if DiskOf(w, i).Some? && i < |w.db.tables| && w.paths[i].value !in w.torn then
      var d := DiskOf(w, i).value;
      WithDisk(w, i, d.(frames := d.frames + FramesFor(w.db.tables[i], TouchedRows(w.log, i))))
    else w
  }

  function AppendTables(w: World, tables: seq<nat>): World {
    if tables == [] then w else AppendTable(AppendTables(w, tables[..|tables| - 1]), tables[|tables| - 1])
  }

  /** The tables a failed COMMIT got to, with what it wrote of them. */
  function Written(w: World, ts: seq<nat>): map<nat, TableState> {
    map i | i in ts && i < |w.db.tables| :: w.db.tables[i]
  }

  /******* Steps *******/

  /** An append that failed and could not be cut back: the frames of its first m rows stay, and maybe a piece of the next. */
  function TornAppend(w: World, i: nat, m: nat, tear: bool): World
    requires DiskOf(w, i).Some? && i < |w.db.tables| && m <= |TouchedRows(w.log, i)|
  {
    var path, d := w.paths[i].value, DiskOf(w, i).value;
    var v := if path in w.torn then w else WithDisk(w, i, d.(frames := d.frames + FramesFor(w.db.tables[i], TouchedRows(w.log, i)[..m])));
    v.(torn := if tear then v.torn + {path} else v.torn, diverged := v.diverged + {i})
  }

  /** A failed append leaves the log as it was, or could not be cut back. */
  ghost predicate AppendFailed(w: World, i: nat, w': World) {
    || w' == w
    || (DiskOf(w, i).Some? && i < |w.db.tables| && exists m: nat, tear :: m <= |TouchedRows(w.log, i)| && w' == TornAppend(w, i, m, tear))
  }

  /** The first k tables written, with what was written of them. */
  function PartlyWritten(w: World, k: nat): World
    requires k <= |TouchedTables(w.log)|
  {
    var ts := TouchedTables(w.log)[..k];
    AppendTables(w, ts).(partial := w.partial + Written(w, ts))
  }

  ghost predicate CommitFailsAt(w: World, k: nat, w': World) {
    k < |TouchedTables(w.log)| && AppendFailed(PartlyWritten(w, k), TouchedTables(w.log)[k], w')
  }

  /** COMMIT appends table after table. It stops at the first failure and then leaves the transaction open. */
  ghost predicate CommitStep(w: World, w': World, reply: Reply) {
    if reply.Done? then
      w' == AppendTables(w, TouchedTables(w.log)).(log := [], active := false, partial := map[])
    else
      reply == CommitFailed && exists k: nat :: CommitFailsAt(w, k, w')
  }

  /** A failed commit touches files and the history fields only. */
  lemma FailedCommitShape(w: World, k: nat, w': World)
    requires CommitFailsAt(w, k, w')
    ensures w' == w.(files := w'.files, partial := w'.partial, diverged := w'.diverged, torn := w'.torn)
    ensures w'.partial == w.partial + Written(w, TouchedTables(w.log)[..k]) && w'.files.Keys == w.files.Keys && w.diverged <= w'.diverged
  {
    AppendTablesOnlyFiles(w, TouchedTables(w.log)[..k]);
    hide AppendTables;
  }

  /** The tables of which a failed COMMIT wrote something that undoing the log takes back in memory. */
  function TakenBack(w: World): set<nat> {
    var u := UndoTo(w.db, w.log, 0);
    set i | i in w.partial && !(i < |u.tables| && Visible(u.tables[i]) == Visible(w.partial[i]))
  }

  function RolledBack(w: World): World {
    w.(db := UndoTo(w.db, w.log, 0), log := [], active := false, partial := map[], diverged := w.diverged + TakenBack(w))
  }

  /** ROLLBACK; writing an old key back can need index memory, so it may record a failure. */
  predicate RollbackStep(w: World, w': World) {
    w' == RolledBack(w).(latched := w'.latched) && w.latched <= w'.latched
  }

  /**
   A statement inside a transaction. Done: the catalog is what Run says, and undoing the new
   log entries gives back the catalog before, up to dead rows. Rejected: same, with no new entry.
   */
  ghost predicate DmlStep(w: World, s: Dml, env: Env, w': World, reply: Reply)
    requires w.db.Valid()
  {
    && w' == w.(db := w'.db, log := w'.log, latched := w'.latched)
    && w.latched <= w'.latched && |w'.db.tables| == |w.db.tables|
    && |w.log| <= |w'.log| && w'.log[..|w.log|] == w.log
    && Undoes(w.db, |w.log|, w'.db, w'.log)
    && if reply.Done? then Run(w.db, s, env) == Ok(Effect(w'.db, reply.changes))
       else
         && w'.log == w.log && reply.Rejected?
         && (reply.error == OutOfMemory || Run(w.db, s, env) == Err(reply.error))
  }

  /** An INSERT into a table with a recorded allocation failure: it fails, yet can leave a live all-NULL row. */
  predicate HitsLatch(w: World, s: Dml) {
    s.Insert? && s.rows != [] && w.db.Find(s.table).Some? && w.db.Find(s.table).value in w.latched
  }

  ghost predicate LatchedStep(w: World, s: Dml, w': World, reply: Reply)
    requires HitsLatch(w, s) && w.db.Valid()
  {
    var i := w.db.Find(s.table).value;
    && reply.Rejected?
    && (w' == w || w' == w.(db := w.db.With(i, w.db.tables[i].AppendNull()), diverged := w.diverged + {i}))
  }

  ghost predicate QueryStep(w: World, s: Dml, env: Env, w': World, reply: Reply)
    requires w.db.Valid()
  {
    if HitsLatch(w, s) then LatchedStep(w, s, w', reply) else DmlStep(w, s, env, w', reply)
  }

  /** Outside a transaction a statement runs in one of its own, committed or rolled back at its end. */
  ghost predicate AutoStep(w: World, s: Dml, env: Env, mid: World, r: Reply, w': World, reply: Reply)
    requires w.db.Valid()
  {
    && QueryStep(Opened(w), s, env, mid, r)
    && (r.Done? ==> CommitStep(mid, w', reply) && (reply.Done? ==> reply == r))
    && (!r.Done? ==> reply == r && RollbackStep(mid, w'))
  }

  function Opened(w: World): World {
    w.(active := true, log := [])
  }

  ghost predicate Step(w: World, s: Stmt, w': World, reply: Reply)
    requires w.db.Valid()
  {
    match s
    case Begin =>
      if w.active then reply == AlreadyActive && w' == w
      else reply.Done? && w' == Opened(w)
    case Rollback =>
      if w.active then reply.Done? && RollbackStep(w, w') else reply == NoTransaction && w' == w
    case Commit =>
      if w.active then CommitStep(w, w', reply) else reply == NoTransaction && w' == w
    case Query(dml, env) =>
      if w.active then QueryStep(w, dml, env, w', reply)
      else exists mid, r :: AutoStep(w, dml, env, mid, r, w', reply)
    case Create(name, defs) =>
      var r := CreateTable(w.db, name, defs);
      if reply.Done? then r.Ok? && w' == w.(db := r.value, paths := w.paths + [None])
      else reply.Rejected? && w' == w && (reply.error == OutOfMemory || r == Err(reply.error))
    case Load(name, schema, path) => LoadStep(w, name, schema, path, w', reply)
    case Checkpoint(i) => CheckpointStep(w, i, w', reply)
  }

  /******* Loads *******/

  /** The other tables loaded from the file of table n; when n lets go of it they stay as its commits left them. */
  function Sharers(w: World, n: nat): set<nat> {
    set j: nat | j < |w.paths| && j != n && n < |w.paths| && w.paths[n].Some? && w.paths[j] == w.paths[n]
  }

  /** A table read from a file in the catalog: in the place of the table of that name, or at the end. */
  function Installed(w: World, name: string, t: TableState, path: Path): World {
    var n := FkGraphs.PutAt(w.db, name);
    w.(db := FkGraphs.Put(w.db, name, t),
       paths := if n < |w.paths| then w.paths[n := Some(path)] else w.paths + [Some(path)],
       diverged := w.diverged + Sharers(w, n) - {n},
       latched := w.latched - {n})
  }

  /** A replay that ran out of memory: a warning is printed at most, and the table is installed as it is. */
  ghost predicate InstalledInPart(w: World, name: string, t: TableState, path: Path, w': World)
    requires path in w.files
  {
    var n, v := FkGraphs.PutAt(w.db, name), Installed(w, name, t, path);
    && v.latched <= w'.latched <= v.latched + {n}
    && w' == v.(latched := w'.latched, diverged := if Synced(t, w.files[path]) then v.diverged else v.diverged + {n})
  }

  /** Refused: a check of Accepts failed, there is no such file, or a table of that name exists and a transaction is open. */
  ghost predicate LoadStep(w: World, name: string, schema: Schema, path: Path, w': World, reply: Reply)
    requires w.db.Valid()
  {
    if reply.Declined() then w' == w && (reply.Refused? ==> !CanLoad(w, name, schema, path))
    else
      && CanLoad(w, name, schema, path)
      && if reply.Done? then w' == Installed(w, name, Recover(schema, w.files[path]), path)
         else
           && reply == LoadedInPart
           && exists t :: ReplayedInPart(schema, w.files[path], t) && InstalledInPart(w, name, t, path, w')
  }

  ghost predicate CanLoad(w: World, name: string, schema: Schema, path: Path)
    requires w.db.Valid()
  {
    && !(w.active && name in w.db.names) && path in w.files
    && DiskFits(schema.types, w.files[path]) && Accepts(w.db, name, schema, w.files[path].base)
  }

  /******* Checkpoints *******/

  /** No transaction is open, and the table has a backing file. */
  predicate CanCheckpoint(w: World, i: nat) {
    !w.active && DiskOf(w, i).Some? && i < |w.db.tables|
  }

  ghost predicate CheckpointStep(w: World, i: nat, w': World, reply: Reply)
    requires w.db.Valid()
  {
    if reply.Declined() then w' == w && (reply.Refused? ==> !CanCheckpoint(w, i))
    else
      && CanCheckpoint(w, i)
      && w.latched <= w'.latched
      && (exists disk, removed :: w' == Checkpointed(w, i, disk, removed, w'.latched) && CheckpointLeaves(w, i, disk, removed, reply))
  }

  /** removed: the old log is gone, and with it a torn end. */
  ghost predicate CheckpointLeaves(w: World, i: nat, disk: Disk, removed: bool, reply: Reply)
    requires DiskOf(w, i).Some? && i < |w.db.tables| && |w.db.tables[i].rows| == |w.db.tables[i].dead|
  {
    var dumped := Disk(DumpedBase(w.db.tables[i]), []);
    && (removed ==> disk == dumped)
    && if reply.Done? then removed else reply == CheckpointFailed && LeftByFailedCheckpoint(w.db.tables[i], DiskOf(w, i).value, disk)
  }

  /**
   A checkpoint that left this on disk. Memory is renumbered first; whether it still fits the file says Serves, unless
   commits were lost behind a torn end.
   */
  function Checkpointed(w: World, i: nat, disk: Disk, removed: bool, latched: set<nat>): World
    requires DiskOf(w, i).Some? && i < |w.db.tables| && |w.db.tables[i].rows| == |w.db.tables[i].dead|
  {
    var t, path := w.db.tables[i], w.paths[i].value;
    WithDisk(w, i, disk).(
      db := w.db.With(i, Compacted(t)),
      diverged := if disk == Disk(Compacted(t).rows, []) then w.diverged - {i}
                  else if Serves(t, DiskOf(w, i).value, disk) && path !in w.torn then w.diverged else w.diverged + {i},
      latched := latched,
      torn := if removed then w.torn - {path} else w.torn)
  }

  datatype Event = Event(stmt: Stmt, reply: Reply, after: World)

  function StateAfter(start: World, run: seq<Event>): World {
    if run == [] then start else run[|run| - 1].after
  }

  /** Every event of the run is a step from the state the previous one left. */
  ghost predicate IsRun(start: World, run: seq<Event>) {
    start.db.Valid() &&
    (run == [] ||
      (var rest, e := run[..|run| - 1], run[|run| - 1];
       && IsRun(start, rest)
       && StateAfter(start, rest).db.Valid()
       && Step(StateAfter(start, rest), e.stmt, e.after, e.reply)))
  }

  lemma RunExtended(start: World, run: seq<Event>, e: Event)
    requires IsRun(start, run) && StateAfter(start, run).db.Valid() && Step(StateAfter(start, run), e.stmt, e.after, e.reply)
    ensures IsRun(start, run + [e]) && StateAfter(start, run + [e]) == e.after
  {
    hide Step;
    assert (run + [e])[..|run|] == run;
  }

  /******* Integrity over every run *******/

  ghost predicate WellFormed(w: World) {
    && SchemaOk(w.db) && LogFits(w.db, w.log) && |w.paths| == |w.db.tables|
    && (!w.active ==> w.log == [] && w.partial == map[])
  }

  /** Sound now, and sound if everything uncommitted were undone. */
  ghost predicate Sound(w: World) {
    WellFormed(w) && Integrity(w.db) && Integrity(UndoTo(w.db, w.log, 0))
  }

  lemma SchemaOkUndone(db: Db, log: seq<Undo>)
    requires SchemaOk(db) && LogFits(db, log)
    ensures SchemaOk(UndoTo(db, log, 0))
  {
    UndoToShape(db, log, 0);
    SchemaOkBySchemas(db, UndoTo(db, log, 0));
  }

  lemma DmlWellFormed(w: World, s: Dml, env: Env, w': World, reply: Reply)
    requires WellFormed(w) && w.active && DmlStep(w, s, env, w', reply)
    ensures WellFormed(w') && DeadExt(UndoTo(w.db, w.log, 0), UndoTo(w'.db, w'.log, 0))
    ensures !reply.Done? ==> DeadExt(w.db, w'.db)
  {
    UndoesFromStart(w.db, w.log, w'.db, w'.log);
    var u := UndoTo(w'.db, w'.log, |w.log|);
    UndoToShape(w'.db, w'.log, |w.log|);
    forall i | 0 <= i < |w.db.tables| ensures w'.db.tables[i].schema == w.db.tables[i].schema {
      assert TableExt(w.db.tables[i], u.tables[i]);
    }
    assert w'.db.names == w.db.names;
    SchemaOkBySchemas(w.db, w'.db);
  }

  lemma DmlKeepsSound(w: World, s: Dml, env: Env, w': World, reply: Reply)
    requires Sound(w) && w.active && DmlStep(w, s, env, w', reply)
    ensures Sound(w')
  {
    DmlWellFormed(w, s, env, w', reply);
    SchemaOkUndone(w.db, w.log);
    UndoToShape(w'.db, w'.log, 0);
    ExtKeepsIntegrity(UndoTo(w.db, w.log, 0), UndoTo(w'.db, w'.log, 0));
    if reply.Done? {
      RunKeepsIntegrity(w.db, s, env);
    } else {
      ExtKeepsIntegrity(w.db, w'.db);
    }
  }

  lemma {:induction false} AppendTablesOnlyFiles(w: World, ts: seq<nat>)
    ensures var w' := AppendTables(w, ts); w' == w.(files := w'.files) && w'.files.Keys == w.files.Keys
  {
    if ts != [] {
      AppendTablesOnlyFiles(w, ts[..|ts| - 1]);
    }
  }

  lemma CommitKeepsSound(w: World, w': World, reply: Reply)
    requires Sound(w) && w.active && CommitStep(w, w', reply)
    ensures Sound(w')
  {
    if reply.Done? {
      AppendTablesOnlyFiles(w, TouchedTables(w.log));
    } else {
      var k: nat :| CommitFailsAt(w, k, w');
      FailedCommitShape(w, k, w');
    }
  }

  lemma RollbackKeepsSound(w: World, w': World)
    requires Sound(w) && RollbackStep(w, w')
    ensures Sound(w')
  {
    SchemaOkUndone(w.db, w.log);
    UndoToShape(w.db, w.log, 0);
  }

  lemma CreateKeepsSound(w: World, name: string, defs: seq<ColumnDef>, db': Db)
    requires Sound(w) && CreateTable(w.db, name, defs) == Ok(db')
    ensures Sound(w.(db := db', paths := w.paths + [None]))
  {
    CreateKeepsIntegrity(w.db, name, defs);
    var t := TableState(SchemaOf(defs), [], []);
    var u := UndoTo(w.db, w.log, 0);
    DeadExtReflexive(w.db);
    UndoToAdd(w.db, name, t, w.log, 0);
    UndoToShape(w.db, w.log, 0);
    SchemaOkUndone(w.db, w.log);
    DeadExtReflexive(u);
    assert Undoes(u, 0, w.db, w.log);
    UndoesAddEmpty(u, 0, w.db, w.log, name, t);
    UndoToShape(db', w.log, 0);
    ExtKeepsIntegrity(u, UndoTo(db', w.log, 0));
  }

  /** The step hits a latched table: see LatchedStep. */
  ghost predicate HitsLatchedTable(w: World, s: Stmt) {
    s.Query? && HitsLatch(w, s.dml)
  }

  lemma AutoKeepsSound(w: World, s: Dml, env: Env, mid: World, r: Reply, w': World, reply: Reply)
    requires Sound(w) && !w.active && !HitsLatch(w, s) && AutoStep(w, s, env, mid, r, w', reply)
    ensures Sound(w')
  {
    assert !HitsLatch(Opened(w), s);
    DmlKeepsSound(Opened(w), s, env, mid, r);
    if r.Done? {
      CommitKeepsSound(mid, w', reply);
    } else {
      RollbackKeepsSound(mid, w');
    }
  }

  lemma SoundIsValid(w: World)
    requires Sound(w)
    ensures w.db.Valid()
  {
  }

  lemma CheckpointKeepsSound(w: World, i: nat, w': World, reply: Reply)
    requires Sound(w) && CheckpointStep(w, i, w', reply)
    ensures Sound(w')
  {
    hide Integrity, SchemaOk, Serves, DumpedBase, Compacted;
    if !reply.Declined() {
      assert UndoTo(w.db, [], 0) == w.db && UndoTo(w'.db, [], 0) == w'.db;
      CompactionKeepsIntegrity(w.db, i);
      NothingLogged(w'.db);
    }
  }

  lemma NothingLogged(db: Db)
    ensures LogFits(db, [])
  {
  }

  /** A load of a new name outside a transaction, whose rows pass the checks also after the log is replayed. */
  ghost predicate PlainLoad(w: World, s: Stmt, w': World)
    requires w.db.Valid() && s.Load?
  {
    && !w.active && s.name !in w.db.names && |w'.db.tables| == |w.db.tables| + 1
    && var t := w'.db.tables[|w.db.tables|];
       |t.rows| == |t.dead| && BaseFits(s.schema, LiveRows(t.rows, t.dead)) && GoodBase(w.db, s.schema, LiveRows(t.rows, t.dead))
  }

  /** Without a log they do: the base rows are all there is. */
  lemma LoadWithoutLogIsPlain(w: World, s: Stmt, w': World)
    requires w.db.Valid() && !w.active && s.Load? && s.name !in w.db.names && Step(w, s, w', Done(0)) && w.files[s.path].frames == []
    ensures PlainLoad(w, s, w')
  {
    hide RowAccepted, GoodBase, FkGraphs.ReferencesAllowed, HeaderOk;
    var base := w.files[s.path].base;
    LiveRowsTwice(base);
    BaseAcceptedExactly(w.db, s.schema, base);
  }

  lemma LoadKeepsSound(w: World, s: Stmt, w': World, reply: Reply)
    requires Sound(w) && s.Load? && Step(w, s, w', reply) && !reply.Declined() && PlainLoad(w, s, w')
    ensures Sound(w')
  {
    hide Integrity, SchemaOk, GoodBase, RowAccepted, ReplayedInPart, Synced, Recover, FkGraphs.ReferencesAllowed;
    SoundIsValid(w);
    var t := LoadedIsValid(w, s, w', reply);
    LoadableBase(w, s.name, s.schema, s.path);
    LoadKeepsIntegrityExactly(w.db, s.name, t);
    assert UndoTo(w.db, [], 0) == w.db && UndoTo(w'.db, [], 0) == w'.db;
    NothingLogged(w'.db);
  }

  lemma StepKeepsSound(w: World, s: Stmt, w': World, reply: Reply)
    requires Sound(w) && Step(w, s, w', reply)
    requires !HitsLatchedTable(w, s) && (s.Load? && !reply.Declined() ==> PlainLoad(w, s, w'))
    ensures Sound(w')
  {
    hide LoadStep, CheckpointStep, PlainLoad, Integrity, SchemaOk;
    SoundIsValid(w);
    match s {
      case Begin =>
      case Rollback =>
        if w.active {
          RollbackKeepsSound(w, w');
        }
      case Commit =>
        if w.active {
          CommitKeepsSound(w, w', reply);
        }
      case Query(dml, env) =>
        if w.active {
          DmlKeepsSound(w, dml, env, w', reply);
        } else {
          var mid, r :| AutoStep(w, dml, env, mid, r, w', reply);
          AutoKeepsSound(w, dml, env, mid, r, w', reply);
        }
      case Create(name, defs) =>
        if reply.Done? {
          CreateKeepsSound(w, name, defs, w'.db);
        }
      case Load(_, _, _) =>
        if reply.Declined() {
          DeclinedLoad(w, s, w', reply);
        } else {
          LoadKeepsSound(w, s, w', reply);
        }
      case Checkpoint(i) =>
        CheckpointKeepsSound(w, i, w', reply);
    }
  }

  lemma DeclinedLoad(w: World, s: Stmt, w': World, reply: Reply)
    requires w.db.Valid() && s.Load? && Step(w, s, w', reply) && reply.Declined()
    ensures w' == w
  {
  }

  /**
   Which events a theorem about integrity can allow. A load checks base rows and leaves logged ones alone, and
   replacing a table or loading inside a transaction does not look at who refers to what.
   */
  ghost predicate PlainRun(start: World, run: seq<Event>) {
    forall k :: 0 <= k < |run| ==> PlainEvent(StateAfter(start, run[..k]), run[k])
  }

  ghost predicate PlainEvent(w: World, e: Event) {
    && !HitsLatchedTable(w, e.stmt)
    && (e.stmt.Load? && !e.reply.Declined() ==> w.db.Valid() && PlainLoad(w, e.stmt, e.after))
  }

  /** Integrity over every run of statements, transactions, checkpoints and plain loads, from the empty catalog on. */
  lemma {:induction false} RunsKeepIntegrity(files: map<Path, Disk>, run: seq<Event>)
    requires IsRun(Fresh(files), run) && PlainRun(Fresh(files), run)
    ensures Sound(StateAfter(Fresh(files), run))
  {
    hide Step, Sound, PlainEvent;
    if run == [] {
      FreshIsSound(files);
    } else {
      var rest, e := run[..|run| - 1], run[|run| - 1];
      forall k | 0 <= k < |rest| ensures rest[..k] == run[..k] {
      }
      RunsKeepIntegrity(files, rest);
      var w := StateAfter(Fresh(files), rest);
      assert PlainEvent(w, e);
      PlainStepKeepsSound(w, e);
    }
  }

  lemma FreshIsSound(files: map<Path, Disk>)
    ensures Sound(Fresh(files))
  {
    EmptyCatalogIsSound();
  }

  lemma PlainStepKeepsSound(w: World, e: Event)
    requires Sound(w) && w.db.Valid() && Step(w, e.stmt, e.after, e.reply) && PlainEvent(w, e)
    ensures Sound(e.after)
  {
    StepKeepsSound(w, e.stmt, e.after, e.reply);
  }

  lemma {:induction false} NullRowPasses(db: Db, i: nat, row: nat, c: nat)
    requires db.Valid() && i < |db.tables| && row < |db.tables[i].rows| && c <= |db.tables[i].schema.types|
    requires db.tables[i].schema.pk.None? && forall d :: 0 <= d < |db.tables[i].schema.types| ==> db.tables[i].Cell(row, d).Null?
    ensures RowViolation(db, i, row, c).None?
    decreases |db.tables[i].schema.types| - c
  {
    if c < |db.tables[i].schema.types| {
      NullRowPasses(db, i, row, c + 1);
    }
  }

  /** The row a latched INSERT leaves behind breaks integrity exactly when its table has a primary key. */
  lemma LatchedInsertExactly(db: Db, i: nat)
    requires SchemaOk(db) && Integrity(db) && i < |db.tables|
    ensures Integrity(db.With(i, db.tables[i].AppendNull())) <==> db.tables[i].schema.pk.None?
  {
    var t, n := db.tables[i], |db.tables[i].rows|;
    var t' := t.AppendNull();
    assert GrewByRow(t, t') && OnlyRow(t, t', n) && t'.Live(n);
    if t.schema.pk.None? {
      NullRowPasses(db.With(i, t'), i, n, 0);
      RowChangeKeepsIntegrity(db, i, t', n);
    } else {
      assert !KeyOk(db.With(i, t').tables[i], n);
    }
  }

  /******* Rollback *******/

  /** A rejected statement changes neither what anyone can see nor the undo log. */
  lemma RejectedStatementChangesNothing(w: World, s: Dml, env: Env, w': World, reply: Reply, i: nat)
    requires WellFormed(w) && w.active && DmlStep(w, s, env, w', reply) && !reply.Done? && i < |w.db.tables|
    ensures w'.log == w.log && i < |w'.db.tables| && Visible(w'.db.tables[i]) == Visible(w.db.tables[i])
  {
    DmlWellFormed(w, s, env, w', reply);
    DeadExtIsInvisible(w.db, w'.db, i);
  }

  /** Nothing ends the transaction. A COMMIT may fail; tables may be created and loaded. */
  ghost predicate WithinTransaction(start: World, run: seq<Event>) {
    forall k :: 0 <= k < |run| ==>
      !run[k].stmt.Rollback? && !(run[k].stmt.Commit? && run[k].reply.Done?) && !HitsLatchedTable(StateAfter(start, run[..k]), run[k].stmt)
  }

  /** Table i as the transaction found it, or as it was when created or loaded in it. */
  ghost function Origin(start: World, run: seq<Event>, i: nat): TableState
    requires i < |StateAfter(start, run).db.tables|
  {
    if run == [] then start.db.tables[i]
    else
      var rest := run[..|run| - 1];
      if i < |StateAfter(start, rest).db.tables| then Origin(start, rest, i) else StateAfter(start, run).db.tables[i]
  }

  /** Undoing the log now leaves these tables, up to dead rows. */
  ghost predicate UndoesTo(w: World, origins: seq<TableState>) {
    && w.db.Valid() && LogFits(w.db, w.log) && w.active
    && |UndoTo(w.db, w.log, 0).tables| == |w.db.tables| == |origins|
    && forall i :: 0 <= i < |origins| ==> TableExt(origins[i], UndoTo(w.db, w.log, 0).tables[i])
  }

  lemma AddIsUndoable(w: World, name: string, t: TableState, w': World, origins: seq<TableState>)
    requires UndoesTo(w, origins) && t.Valid() && w'.db == w.db.Add(name, t) && w'.log == w.log && w'.active
    ensures UndoesTo(w', origins + [t])
  {
    UndoToAdd(w.db, name, t, w.log, 0);
  }

  lemma QueryIsUndoable(w: World, s: Dml, env: Env, w': World, reply: Reply, origins: seq<TableState>)
    requires UndoesTo(w, origins) && DmlStep(w, s, env, w', reply)
    ensures UndoesTo(w', origins)
  {
    UndoesFromStart(w.db, w.log, w'.db, w'.log);
    UndoToShape(w'.db, w'.log, 0);
    var u, u' := UndoTo(w.db, w.log, 0), UndoTo(w'.db, w'.log, 0);
    forall i | 0 <= i < |origins| ensures TableExt(origins[i], u'.tables[i]) {
      assert TableExt(origins[i], u.tables[i]) && TableExt(u.tables[i], u'.tables[i]);
      TableExtTransitive(origins[i], u.tables[i], u'.tables[i]);
    }
  }

  /** The new table, if the step added one. */
  function Added(w: World, w': World): seq<TableState> {
    if |w.db.tables| < |w'.db.tables| then w'.db.tables[|w.db.tables|..] else []
  }

  lemma StepIsUndoable(w: World, s: Stmt, w': World, reply: Reply, origins: seq<TableState>)
    requires UndoesTo(w, origins) && Step(w, s, w', reply)
    requires !s.Rollback? && !(s.Commit? && reply.Done?) && !HitsLatchedTable(w, s)
    ensures UndoesTo(w', origins + Added(w, w')) && |Added(w, w')| <= 1
  {
    hide UndoesTo, Run, CreateTable, ReplayedInPart, Recover, CanLoad, InstalledInPart, Installed;
    assert UndoesTo(w, origins + []) by {
      assert origins + [] == origins;
    }
    UndoableShape(w, origins);
    match s {
      case Query(dml, env) =>
        QueryIsUndoable(w, dml, env, w', reply, origins);
        assert origins + Added(w, w') == origins;
      case Create(name, defs) =>
        if reply.Done? {
          CreatedTable(w.db, name, defs);
          AddIsUndoable(w, name, TableState(SchemaOf(defs), [], []), w', origins);
          assert Added(w, w') == [TableState(SchemaOf(defs), [], [])];
        }
      case Load(name, schema, path) =>
        if !reply.Declined() {
          var t := LoadedIsValid(w, s, w', reply);
          AddIsUndoable(w, name, t, w', origins);
          assert Added(w, w') == [t];
        } else {
          assert Added(w, w') == [];
        }
      case Commit =>
        var k: nat :| CommitFailsAt(w, k, w');
        FailedCommitShape(w, k, w');
        SameUndoable(w, w', origins);
      case _ =>
    }
  }

  lemma UndoableShape(w: World, origins: seq<TableState>)
    requires UndoesTo(w, origins)
    ensures w.db.Valid() && LogFits(w.db, w.log) && w.active && |origins| == |w.db.tables|
  {
  }

  lemma SameUndoable(w: World, w': World, origins: seq<TableState>)
    requires UndoesTo(w, origins) && w'.db == w.db && w'.log == w.log && w'.active
    ensures UndoesTo(w', origins + [])
  {
    assert origins + [] == origins;
  }

  lemma CreatedTable(db: Db, name: string, defs: seq<ColumnDef>)
    requires db.Valid() && CreateTable(db, name, defs).Ok?
    ensures CreateTable(db, name, defs).value == db.Add(name, TableState(SchemaOf(defs), [], []))
  {
  }

  /** What a load that was not refused installs. */
  lemma LoadedIsValid(w: World, s: Stmt, w': World, reply: Reply) returns (t: TableState)
    requires w.db.Valid() && s.Load? && Step(w, s, w', reply) && !reply.Declined()
    ensures CanLoad(w, s.name, s.schema, s.path) && t.Valid() && t.schema == s.schema
    ensures w'.db == FkGraphs.Put(w.db, s.name, t) && w'.log == w.log && w'.active == w.active
    ensures w.active ==> w'.db == w.db.Add(s.name, t)
    ensures reply.Done? ==> t == Recover(s.schema, w.files[s.path]) && w' == Installed(w, s.name, t, s.path)
    ensures !reply.Done? ==> ReplayedInPart(s.schema, w.files[s.path], t) && InstalledInPart(w, s.name, t, s.path, w')
  {
    hide Accepts;
    if reply.Done? {
      t := Recover(s.schema, w.files[s.path]);
      LoadableBase(w, s.name, s.schema, s.path);
      ReplayFits(Loaded(s.schema, w.files[s.path].base), w.files[s.path].frames);
    } else {
      t :| ReplayedInPart(s.schema, w.files[s.path], t) && InstalledInPart(w, s.name, t, s.path, w');
    }
  }

  lemma LoadableBase(w: World, name: string, schema: Schema, path: Path)
    requires w.db.Valid() && CanLoad(w, name, schema, path)
    ensures Loaded(schema, w.files[path].base).Valid() && w.files[path].base != [] && HeaderOk(schema) && DiskFits(schema.types, w.files[path])
  {
    hide RowAccepted, FkGraphs.ReferencesAllowed;
  }

  ghost function Origins(start: World, run: seq<Event>): (o: seq<TableState>)
    ensures |o| == |StateAfter(start, run).db.tables| && forall i :: 0 <= i < |o| ==> o[i] == Origin(start, run, i)
  {
    seq(|StateAfter(start, run).db.tables|, i requires 0 <= i < |StateAfter(start, run).db.tables| => Origin(start, run, i))
  }

  lemma {:induction false} TransactionIsUndoable(start: World, run: seq<Event>)
    requires start.db.Valid() && start.active && start.log == [] && IsRun(start, run) && WithinTransaction(start, run)
    ensures UndoesTo(StateAfter(start, run), Origins(start, run)) && |start.db.tables| <= |StateAfter(start, run).db.tables|
    ensures forall i :: 0 <= i < |start.db.tables| ==> Origin(start, run, i) == start.db.tables[i]
  {
    hide UndoesTo, Step;
    if run == [] {
      NothingToUndo(start);
      assert Origins(start, run) == start.db.tables;
    } else {
      var rest, e := run[..|run| - 1], run[|run| - 1];
      forall k | 0 <= k < |rest| ensures rest[..k] == run[..k] {
      }
      TransactionIsUndoable(start, rest);
      var w := StateAfter(start, rest);
      StepIsUndoable(w, e.stmt, e.after, e.reply, Origins(start, rest));
      UndoableShape(w, Origins(start, rest));
      UndoableShape(e.after, Origins(start, rest) + Added(w, e.after));
      assert Origins(start, run) == Origins(start, rest) + Added(w, e.after);
    }
  }

  lemma NothingToUndo(start: World)
    requires start.db.Valid() && start.active && start.log == []
    ensures UndoesTo(start, start.db.tables)
  {
  }

  /**
   ROLLBACK restores every table that existed at BEGIN as it was, and every later one as it was
   created or loaded.
   */
  lemma RollbackRestoresBegin(start: World, run: seq<Event>, i: nat)
    requires start.db.Valid() && start.active && start.log == [] && IsRun(start, run) && WithinTransaction(start, run)
    requires i < |StateAfter(start, run).db.tables|
    ensures i < |RolledBack(StateAfter(start, run)).db.tables|
    ensures Visible(RolledBack(StateAfter(start, run)).db.tables[i]) == Visible(Origin(start, run, i))
    ensures i < |start.db.tables| ==> Origin(start, run, i) == start.db.tables[i]
  {
    TransactionIsUndoable(start, run);
    var w := StateAfter(start, run);
    TableExtIsInvisible(Origin(start, run, i), UndoTo(w.db, w.log, 0).tables[i]);
  }
}
