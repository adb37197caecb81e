/**
 Runs, from a session that has loaded nothing, that end with a table and its file apart, or with a
 file that no later load takes. Each is a case that the theorems of Durability except, and shows
 that the exception is needed.
 */
module Divergences {
  import opened Values
  import opened TableStates
  import opened Expressions
  import opened Catalogs
  import opened Constraints
  import opened Statements
  import opened Dumps
  import opened Frames
  import opened Loads
  import opened Sessions
  import opened Durability
  import FkGraphs

  /** Between transactions, table i does not show what a reload of its file would. */
  ghost predicate Apart(w: World, i: nat) {
    !w.active && i < |w.db.tables| && DiskOf(w, i).Some? && !Agrees(w.db.tables[i], DiskOf(w, i).value)
  }

  /******* Statements that change one row *******/

  /** The statement changes one row of table i, which entry e undoes. */
  ghost predicate Changes(db: Db, s: Dml, env: Env, i: nat, t': TableState, e: Undo) {
    && db.Valid() && i < |db.tables| && db.Find(s.table) == Some(i) && e.table == i
    && Run(db, s, env) == Ok(Effect(db.With(i, t'), 1))
    && t'.Valid() && t'.schema == db.tables[i].schema && |t'.rows| >= |db.tables[i].rows|
    && EntryFits(db.With(i, t'), e) && DeadExt(db, UndoOne(db.With(i, t'), e))
  }

  /** The session after the change in its open transaction. */
  function Changed(w: World, t': TableState, e: Undo): World {
    w.(db := w.db.With(e.table, t'), log := w.log + [e])
  }

  lemma ChangeSteps(w: World, s: Dml, env: Env, i: nat, t': TableState, e: Undo)
    requires Changes(w.db, s, env, i, t', e) && LogFits(w.db, w.log) && i !in w.latched
    ensures !HitsLatch(w, s) && QueryStep(w, s, env, Changed(w, t', e), Done(1))
    ensures Changed(w, t', e).db.Valid() && LogFits(Changed(w, t', e).db, Changed(w, t', e).log)
  {
    hide Run, UndoTo, DeadExt;
    var w' := Changed(w, t', e);
    LogFitsWith(w.db, i, t', w.log);
    DeadExtReflexive(w.db);
    UndoNothing(w.db, w.log);
    assert Undoes(w.db, |w.log|, w.db, w.log);
    UndoesStep(w.db, |w.log|, w.db, w.log, w'.db, e);
    assert w'.log[..|w.log|] == w.log;
  }

  lemma UndoNothing(db: Db, log: seq<Undo>)
    ensures UndoTo(db, log, |log|) == db
  {
  }

  lemma OneEntryTouches(e: Undo)
    ensures TouchedTables([e]) == [e.table] && TouchedRows([e], e.table) == [e.row]
  {
    assert [e][..0] == [];
  }

  /** The session after the change is made and committed outside a transaction. */
  function Committed(w: World, i: nat, t': TableState, r: nat): World
    requires DiskOf(w, i).Some?
  {
    var d := DiskOf(w, i).value;
    WithDisk(w, i, d.(frames := d.frames + [FrameFor(t', r)])).(db := w.db.With(i, t'))
  }

  lemma ChangeCommits(w: World, s: Dml, env: Env, i: nat, t': TableState, e: Undo)
    requires Changes(w.db, s, env, i, t', e) && !w.active && w.log == [] && w.partial == map[] && DiskOf(w, i).Some? && i !in w.latched
    requires w.paths[i].value !in w.torn
    ensures Step(w, Query(s, env), Committed(w, i, t', e.row), Done(1)) && Committed(w, i, t', e.row).db.Valid()
  {
    hide QueryStep, TouchedTables, TouchedRows, Changes;
    var o := Opened(w);
    var mid, after := Changed(o, t', e), Committed(w, i, t', e.row);
    ChangeShape(w.db, s, env, i, t', e);
    ChangeSteps(o, s, env, i, t', e);
    OneEntryTouches(e);
    assert mid.log == [e] && [i][..0] == [];
    assert AppendTables(mid, [i]) == AppendTable(AppendTables(mid, []), i);
    assert FramesFor(mid.db.tables[i], [e.row]) == [FrameFor(t', e.row)];
    assert CommitStep(mid, after, Done(1));
    assert AutoStep(w, s, env, mid, Done(1), after, Done(1));
  }

  lemma ChangeShape(db: Db, s: Dml, env: Env, i: nat, t': TableState, e: Undo)
    requires Changes(db, s, env, i, t', e)
    ensures db.Valid() && i < |db.tables| && e.table == i && db.With(i, t').Valid() && LogFits(db, [])
  {
  }

  /******* Tables of one INT column *******/

  const Ids: Schema := Schema(["id"], [FtInt], None, [None])

  function IdRow(v: int64): Row {
    [Int(v)]
  }

  function InsertId(name: string, v: int64): Dml {
    Insert(name, [], [[LitInt(v)]])
  }

  /** One more live row. */
  function WithId(t: TableState, v: int64): TableState {
    t.(rows := t.rows + [IdRow(v)], dead := t.dead + [false])
  }

  /** The same column as a key. */
  const Keys: Schema := Schema(["id"], [FtInt], Some(0), [None])

  /** The row passes the row checks of its table. */
  predicate NewId(t: TableState, v: int64) {
    t.schema == Ids || (t.schema == Keys && forall r :: 0 <= r < |t.rows| ==> |t.rows[r]| == 1 && !CellEqual(Int(v), t.rows[r][0]))
  }

  lemma IdIsAssigned(t: TableState, v: int64)
    requires t.Valid() && (t.schema == Ids || t.schema == Keys)
    ensures AssignAll(t.AppendNull(), |t.rows|, [0], [Int(v)]) == WithId(t, v)
  {
    var a := t.AppendNull();
    assert [0][..0] == [] && [Int(v)][..0] == [];
    assert AssignAll(a, |t.rows|, [], []) == a;
    assert AssignOne(a, |t.rows|, 0, Int(v)) == a.PutCell(|t.rows|, 0, Int(v));
    assert a.rows[|t.rows|][0 := Int(v)] == IdRow(v);
    assert a.rows[|t.rows| := IdRow(v)] == t.rows + [IdRow(v)];
  }

  lemma NewIdPasses(db: Db, i: nat, t: TableState, v: int64)
    requires db.Valid() && i < |db.tables| && db.tables[i] == WithId(t, v) && NewId(t, v)
    ensures RowViolation(db, i, |t.rows|, 0).None?
  {
    var t' := db.tables[i];
    assert t'.Cell(|t.rows|, 0) == Int(v);
    forall r | r != |t.rows| && t.schema == Keys ensures !t'.Holds(r, 0, Int(v)) {
      assert 0 <= r < |t.rows| ==> t'.rows[r] == t.rows[r];
    }
    assert RowViolation(db, i, |t.rows|, 1).None?;
    assert CellViolation(db, i, |t.rows|, 0).None?;
  }

  lemma IdIsInserted(db: Db, i: nat, v: int64, env: Env)
    requires db.Valid() && i < |db.tables| && NewId(db.tables[i], v)
    ensures InsertRow(db, i, [0], [LitInt(v)], env) == Ok(db.With(i, WithId(db.tables[i], v)))
  {
    hide RowViolation, NewId;
    var t := db.tables[i];
    IdSchema(t, v);
    IdIsAssigned(t, v);
    var ctx := NoContext(env);
    assert Infer(LitInt(v), ctx) == Some(TInt) && ValueOf(LitInt(v), ctx) == Int(v);
    assert ValuesOf([LitInt(v)], ctx) == [Int(v)];
    assert FirstBadValue([LitInt(v)], [0], t.schema.types, env, 0).None?;
    var db' := WithNewRow(db, i, [0], [Int(v)]);
    assert db' == db.With(i, WithId(t, v));
    NewIdPasses(db', i, t, v);
  }

  lemma IdSchema(t: TableState, v: int64)
    requires NewId(t, v)
    ensures (t.schema == Ids || t.schema == Keys) && t.schema.types == [FtInt]
  {
  }

  lemma InsertRuns(db: Db, i: nat, name: string, v: int64, env: Env)
    requires db.Valid() && db.Find(name) == Some(i) && NewId(db.tables[i], v)
    ensures Run(db, InsertId(name, v), env) == Ok(Effect(db.With(i, WithId(db.tables[i], v)), 1))
  {
    IdIsInserted(db, i, v, env);
    var rows := [[LitInt(v)]];
    assert rows[..0] == [];
    assert InsertRows(db, i, [0], [], env) == Ok(db);
    assert InsertRows(db, i, [0], rows, env) == InsertRow(db, i, [0], [LitInt(v)], env);
    var cols := InsertColumns(db.tables[i].schema, []);
    assert cols.Ok? && cols.value == [0];
  }

  lemma InsertChanges(db: Db, i: nat, name: string, v: int64, env: Env)
    requires db.Valid() && db.Find(name) == Some(i) && NewId(db.tables[i], v)
    ensures Changes(db, InsertId(name, v), env, i, WithId(db.tables[i], v), UndoInsert(i, |db.tables[i].rows|))
  {
    hide Run, DeadExt;
    InsertRuns(db, i, name, v, env);
    assert RowFits([FtInt], IdRow(v));
    InsertIsUndone(db, i, WithId(db.tables[i], v));
  }

  /******* Building runs *******/

  lemma {:induction false} Extended(files: map<Path, Disk>, run: seq<Event>, s: Stmt, reply: Reply, after: World) returns (longer: seq<Event>)
    requires IsRun(Fresh(files), run) && StateAfter(Fresh(files), run).db.Valid()
    requires Step(StateAfter(Fresh(files), run), s, after, reply)
    ensures IsRun(Fresh(files), longer) && StateAfter(Fresh(files), longer) == after && longer == run + [Event(s, reply, after)]
  {
    hide Step;
    RunExtended(Fresh(files), run, Event(s, reply, after));
    longer := run + [Event(s, reply, after)];
  }

  lemma StartOfRun(files: map<Path, Disk>)
    ensures IsRun(Fresh(files), []) && StateAfter(Fresh(files), []) == Fresh(files)
  {
  }

  /** The session after a load of a new name. */
  function LoadedInto(w: World, name: string, schema: Schema, path: Path): World
    requires path in w.files
  {
    w.(db := w.db.Add(name, Recover(schema, w.files[path])), paths := w.paths + [Some(path)])
  }

  lemma LoadsNew(w: World, name: string, schema: Schema, path: Path)
    requires w.db.Valid() && |w.paths| == |w.db.tables| && name !in w.db.names && path in w.files && CanLoad(w, name, schema, path)
    requires |w.db.tables| !in w.diverged && |w.db.tables| !in w.latched
    ensures Step(w, Load(name, schema, path), LoadedInto(w, name, schema, path), Done(0)) && LoadedInto(w, name, schema, path).db.Valid()
  {
    hide CanLoad;
    NewIsInstalled(w, name, Recover(schema, w.files[path]), path);
    LoadableBase(w, name, schema, path);
    ReplayFits(Loaded(schema, w.files[path].base), w.files[path].frames);
  }

  lemma NewIsInstalled(w: World, name: string, t: TableState, path: Path)
    requires |w.paths| == |w.db.tables| == |w.db.names| && name !in w.db.names && |w.db.tables| !in w.diverged && |w.db.tables| !in w.latched
    ensures Installed(w, name, t, path) == w.(db := w.db.Add(name, t), paths := w.paths + [Some(path)])
  {
    assert Sharers(w, |w.db.tables|) == {};
  }

  lemma IdsCanLoad(w: World, name: string, path: Path)
    requires w.db.Valid() && name !in w.db.names && path in w.files && w.files[path].base != [] && DiskFits(Ids.types, w.files[path])
    ensures CanLoad(w, name, Ids, path)
  {
    AcceptsWithoutKeys(w.db, name, Ids, w.files[path].base);
  }

  lemma KeysCanLoad(w: World, name: string, path: Path)
    requires w.db == Db([], []) && path in w.files && w.files[path].base == [IdRow(1)] && DiskFits(Keys.types, w.files[path])
    ensures CanLoad(w, name, Keys, path)
  {
    BaseAcceptedExactly(w.db, Keys, [IdRow(1)]);
  }

  lemma LoadsId(w: World, name: string, path: Path)
    requires w.db.Valid() && |w.paths| == |w.db.tables| && name !in w.db.names
    requires path in w.files && w.files[path].base != [] && DiskFits(Ids.types, w.files[path])
    requires |w.db.tables| !in w.diverged && |w.db.tables| !in w.latched
    ensures Step(w, Load(name, Ids, path), LoadedInto(w, name, Ids, path), Done(0)) && LoadedInto(w, name, Ids, path).db.Valid()
  {
    IdsCanLoad(w, name, path);
    LoadsNew(w, name, Ids, path);
  }

  lemma RecoverNoFrames(schema: Schema, base: seq<Row>)
    ensures Recover(schema, Disk(base, [])) == Loaded(schema, base)
  {
  }

  /** Rows of which the log deletes the first. */
  lemma RecoverTombstone(schema: Schema, base: seq<Row>)
    requires base != []
    ensures Recover(schema, Disk(base, [Tombstone(0)])) == Loaded(schema, base).SetDead(0, true)
  {
    assert [Tombstone(0)][..0] == [];
    assert Replay(Loaded(schema, base), [Tombstone(0)]) == ApplyFrame(Loaded(schema, base), Tombstone(0));
  }

  /** Two tables loaded from files that hold one row. */
  lemma {:induction false} TwoLoaded(files: map<Path, Disk>, f: Path, g: Path) returns (w: World, run: seq<Event>)
    requires f in files && g in files && files[f] == files[g] == Disk([IdRow(1)], [])
    ensures IsRun(Fresh(files), run) && StateAfter(Fresh(files), run) == w && w.db.Valid()
    ensures var t := Loaded(Ids, [IdRow(1)]);
      w == World(Db(["a", "b"], [t, t]), [], false, [Some(f), Some(g)], files, map[], {}, {}, {})
  {
    hide Step, IsRun, Recover, StateAfter;
    StartOfRun(files);
    RecoverNoFrames(Ids, [IdRow(1)]);
    LoadsId(Fresh(files), "a", f);
    var one := LoadedInto(Fresh(files), "a", Ids, f);
    var r := Extended(files, [], Load("a", Ids, f), Done(0), one);
    LoadsId(one, "b", g);
    w := LoadedInto(one, "b", Ids, g);
    run := Extended(files, r, Load("b", Ids, g), Done(0), w);
  }

  /******* Two tables on one file *******/

  /**
   One file loaded under two names. A commit to the first table makes the file disagree with the second;
   a commit to the second then overwrites the row that the first committed.
   */
  lemma {:induction false} SharedFileDiverges(env: Env) returns (files: map<Path, Disk>, run: seq<Event>, longer: seq<Event>)
    ensures IsRun(Fresh(files), run) && IsRun(Fresh(files), longer)
    ensures var w := StateAfter(Fresh(files), run); |w.db.tables| == 2 && w.diverged == {} && Apart(w, 1)
    ensures var w := StateAfter(Fresh(files), longer); |w.db.tables| == 2 && w.diverged == {} && Apart(w, 0)
  {
    hide Step, IsRun, Agrees, Recover, StateAfter, LogFits, HitsLatch, LiveRows;
    files := map["f" := Disk([IdRow(1)], [])];
    var w2, r2 := TwoLoaded(files, "f", "f");
    InsertChanges(w2.db, 0, "a", 7, env);
    ChangeCommits(w2, InsertId("a", 7), env, 0, WithId(w2.db.tables[0], 7), UndoInsert(0, 1));
    var w3 := Committed(w2, 0, WithId(w2.db.tables[0], 7), 1);
    run := Extended(files, r2, Query(InsertId("a", 7), env), Done(1), w3);
    var t := Loaded(Ids, [IdRow(1)]);
    SecondSharer(t, 7, Disk([IdRow(1)], []), WithId(t, 7));
    InsertChanges(w3.db, 1, "b", 8, env);
    ChangeCommits(w3, InsertId("b", 8), env, 1, WithId(w3.db.tables[1], 8), UndoInsert(1, 1));
    var w4 := Committed(w3, 1, WithId(w3.db.tables[1], 8), 1);
    longer := Extended(files, run, Query(InsertId("b", 8), env), Done(1), w4);
    Overwritten(t);
  }

  /** The first table is then loaded from another file: the second has its file to itself, and still disagrees with it. */
  lemma {:induction false} LeftSharerDiverges(env: Env) returns (files: map<Path, Disk>, run: seq<Event>)
    ensures IsRun(Fresh(files), run)
    ensures var w := StateAfter(Fresh(files), run); |w.db.tables| == 2 && Sole(w, 1) && Apart(w, 1)
  {
    hide Step, IsRun, Agrees, Recover, StateAfter, Changes;
    files := map["f" := Disk([IdRow(1)], []), "g" := Disk([IdRow(1)], [])];
    var w2, r2 := TwoLoaded(files, "f", "f");
    InsertChanges(w2.db, 0, "a", 7, env);
    ChangeCommits(w2, InsertId("a", 7), env, 0, WithId(w2.db.tables[0], 7), UndoInsert(0, 1));
    var w3 := Committed(w2, 0, WithId(w2.db.tables[0], 7), 1);
    var r3 := Extended(files, r2, Query(InsertId("a", 7), env), Done(1), w3);
    var w4 := FirstReloaded(w3);
    run := Extended(files, r3, Load("a", Ids, "g"), Done(0), w4);
    var t := Loaded(Ids, [IdRow(1)]);
    SecondSharer(t, 7, Disk([IdRow(1)], []), WithId(t, 7));
  }

  lemma FirstReloaded(w: World) returns (after: World)
    requires w.db.Valid() && w.db.names == ["a", "b"] && w.paths == [Some("f"), Some("f")] && !w.active
    requires "g" in w.files && w.files["g"] == Disk([IdRow(1)], [])
    ensures Step(w, Load("a", Ids, "g"), after, Done(0)) && after.db.Valid() && !after.active
    ensures |after.db.tables| == 2 && after.db.tables[1] == w.db.tables[1] && after.paths == [Some("g"), Some("f")] && after.files == w.files
  {
    AcceptsWithoutKeys(w.db, "a", Ids, [IdRow(1)]);
    RecoverNoFrames(Ids, [IdRow(1)]);
    assert w.db.Find("a") == Some(0);
    after := Installed(w, "a", Loaded(Ids, [IdRow(1)]), "g");
    assert CanLoad(w, "a", Ids, "g");
  }

  lemma SecondSharer(t: TableState, v: int64, disk: Disk, writer: TableState)
    requires t == Loaded(Ids, [IdRow(1)]) && disk == Disk([IdRow(1)], []) && writer == WithId(t, v)
    ensures !Agrees(t, Disk([IdRow(1)], [] + [Frame.Put(1, IdRow(v))]))
  {
    LoadSyncs(Ids, disk);
    RecoverNoFrames(Ids, [IdRow(1)]);
    SyncedRecovery(t, disk);
    assert FramesFor(writer, [1]) == [Frame.Put(1, IdRow(v))];
    SharedFileExactly(writer, t, disk, [1]);
    assert 1 in [1] && ViewOf(t, 1).Absent? && ViewOf(writer, 1).Present?;
  }

  lemma Overwritten(t: TableState)
    requires t == Loaded(Ids, [IdRow(1)])
    ensures !Agrees(WithId(t, 7), Disk([IdRow(1)], [] + [Frame.Put(1, IdRow(7))] + [Frame.Put(1, IdRow(8))]))
  {
    var mem, disk := WithId(t, 7), Disk([IdRow(1)], [] + [Frame.Put(1, IdRow(7))] + [Frame.Put(1, IdRow(8))]);
    AgreesRowByRow(mem, disk);
    ReloadShows(Ids, disk, 1);
    assert disk.frames[|disk.frames| - 1] == Frame.Put(1, IdRow(8));
    assert ViewOf(mem, 1) == Present(IdRow(7)) && ReloadedView(Ids, disk, 1) == Present(IdRow(8));
    assert IdRow(7)[0] != IdRow(8)[0];
    assert !RowSynced(mem, disk, 1);
  }

  /******* A commit that fails half way, then ROLLBACK *******/

  lemma TwoEntriesTouch()
    ensures var log := [UndoInsert(0, 1), UndoInsert(1, 1)];
      TouchedTables(log) == [0, 1] && TouchedRows(log, 0) == [1] && TouchedRows(log, 1) == [1]
  {
    var log := [UndoInsert(0, 1), UndoInsert(1, 1)];
    OneEntryTouches(UndoInsert(0, 1));
    assert log[..1] == [UndoInsert(0, 1)];
    assert TouchedRows([UndoInsert(0, 1)], 1) == [] by {
      assert [UndoInsert(0, 1)][..0] == [];
    }
  }

  /** The commit stops after the first of its two tables. */
  lemma StopsAfterFirst(w: World)
    requires TouchedTables(w.log) == [0, 1] && 0 < |w.db.tables|
    ensures CommitStep(w, AppendTable(w, 0).(partial := w.partial + map[0 := w.db.tables[0]]), CommitFailed)
  {
    var ts := TouchedTables(w.log);
    assert ts[..1] == [0] && [0][..0] == [];
    assert AppendTables(w, [0]) == AppendTable(AppendTables(w, []), 0);
    assert Written(w, [0]) == map[0 := w.db.tables[0]];
    assert CommitFailsAt(w, 1, AppendTable(w, 0).(partial := w.partial + map[0 := w.db.tables[0]]));
  }

  lemma UndoTwo(db: Db, e0: Undo, e1: Undo)
    ensures UndoTo(db, [e0, e1], 0) == UndoOne(UndoOne(db, e1), e0)
  {
    var once := UndoOne(db, e1);
    assert [e0, e1][..1] == [e0] && [e0][..0] == [];
    assert UndoTo(once, [e0], 0) == UndoTo(UndoOne(once, e0), [e0][..0], 0);
  }

  /** COMMIT writes its first table and fails at the second; ROLLBACK hides the row, the file keeps it. */
  lemma {:induction false} FailedCommitDiverges(env: Env) returns (files: map<Path, Disk>, run: seq<Event>)
    ensures IsRun(Fresh(files), run)
    ensures var w := StateAfter(Fresh(files), run);
      |w.db.tables| == 2 && Sole(w, 0) && Apart(w, 0)
  {
    hide Step, IsRun, Agrees, Recover, StateAfter, LogFits, UndoTo, Visible, TakenBack, WithId, HitsLatch;
    files := map["f" := Disk([IdRow(1)], []), "g" := Disk([IdRow(1)], [])];
    var t := Loaded(Ids, [IdRow(1)]);
    var w2, r2 := TwoLoaded(files, "f", "g");
    var w4, r4 := HalfCommitted(files, r2, env);
    FreshIsDurable(files);
    ReloadExactly(files, r4, 0);
    RollbackSteps(w4);
    run := Extended(files, r4, Rollback, Done(0), RolledBack(w4));
    RowTakenBack(w4, t);
  }

  lemma RollbackSteps(w: World)
    requires w.db.Valid() && w.active
    ensures Step(w, Rollback, RolledBack(w), Done(0))
  {
  }

  lemma RowTakenBack(w: World, t: TableState)
    requires t == Loaded(Ids, [IdRow(1)]) && w.db == Db(["a", "b"], [WithId(t, 7), WithId(t, 7)]) && w.log == [UndoInsert(0, 1), UndoInsert(1, 1)]
    ensures |RolledBack(w).db.tables| == 2 && Visible(RolledBack(w).db.tables[0]) != Visible(WithId(t, 7))
  {
    UndoTwo(w.db, UndoInsert(0, 1), UndoInsert(1, 1));
    assert 1 in Visible(WithId(t, 7)) && 1 !in Visible(RolledBack(w).db.tables[0]);
  }

  /** BEGIN, one INSERT into each table, and a COMMIT that fails after the first. */
  lemma {:induction false} HalfCommitted(files: map<Path, Disk>, run: seq<Event>, env: Env) returns (w: World, longer: seq<Event>)
    requires IsRun(Fresh(files), run)
    requires var w := StateAfter(Fresh(files), run); var t := Loaded(Ids, [IdRow(1)]);
      && w == World(Db(["a", "b"], [t, t]), [], false, [Some("f"), Some("g")], files, map[], {}, {}, {})
      && "f" in files && "g" in files && w.db.Valid()
    ensures IsRun(Fresh(files), longer) && StateAfter(Fresh(files), longer) == w
    ensures var t := Loaded(Ids, [IdRow(1)]);
      && w.db == Db(["a", "b"], [WithId(t, 7), WithId(t, 7)]) && w.log == [UndoInsert(0, 1), UndoInsert(1, 1)]
      && w.active && w.db.Valid() && w.paths == [Some("f"), Some("g")] && w.files.Keys == files.Keys && w.partial == map[0 := WithId(t, 7)] && w.diverged == {} && w.torn == {}
  {
    hide Step, IsRun, StateAfter, LogFits, QueryStep, TouchedTables, TouchedRows, CommitStep, Changes, EntryFits;
    var w2 := StateAfter(Fresh(files), run);
    var t := Loaded(Ids, [IdRow(1)]);
    var w3 := Opened(w2);
    BeginSteps(w2);
    var r3 := Extended(files, run, Begin, Done(0), w3);
    NothingLogged(w3.db);
    InsertChanges(w3.db, 0, "a", 7, env);
    ChangeSteps(w3, InsertId("a", 7), env, 0, WithId(t, 7), UndoInsert(0, 1));
    var w4 := Changed(w3, WithId(t, 7), UndoInsert(0, 1));
    OpenQuerySteps(w3, InsertId("a", 7), env, w4);
    var r4 := Extended(files, r3, Query(InsertId("a", 7), env), Done(1), w4);
    InsertChanges(w4.db, 1, "b", 7, env);
    ChangeSteps(w4, InsertId("b", 7), env, 1, WithId(t, 7), UndoInsert(1, 1));
    var w5 := Changed(w4, WithId(t, 7), UndoInsert(1, 1));
    OpenQuerySteps(w4, InsertId("b", 7), env, w5);
    var r5 := Extended(files, r4, Query(InsertId("b", 7), env), Done(1), w5);
    TwoEntriesTouch();
    assert w5.log == [UndoInsert(0, 1), UndoInsert(1, 1)];
    StopsAfterFirst(w5);
    w := AppendTable(w5, 0).(partial := w5.partial + map[0 := w5.db.tables[0]]);
    OpenCommitSteps(w5, w);
    longer := Extended(files, r5, Commit, CommitFailed, w);
  }

  lemma BeginSteps(w: World)
    requires w.db.Valid() && !w.active
    ensures Step(w, Begin, Opened(w), Done(0))
  {
  }

  lemma OpenQuerySteps(w: World, s: Dml, env: Env, w': World)
    requires w.db.Valid() && w.active && QueryStep(w, s, env, w', Done(1))
    ensures Step(w, Query(s, env), w', Done(1))
  {
  }

  lemma OpenCommitSteps(w: World, w': World)
    requires w.db.Valid() && w.active && CommitStep(w, w', CommitFailed)
    ensures Step(w, Commit, w', CommitFailed)
  {
  }

  /******* A log with a torn end *******/

  /** The append of the only frame is torn, and the file cannot be cut back. */
  lemma AppendTears(w: World, e: Undo)
    requires w.log == [e] && DiskOf(w, e.table).Some? && e.table < |w.db.tables| && w.paths[e.table].value !in w.torn
    ensures CommitStep(w, w.(torn := w.torn + {w.paths[e.table].value}, diverged := w.diverged + {e.table}), CommitFailed)
  {
    OneEntryTouches(e);
    var i, d := e.table, DiskOf(w, e.table).value;
    var after := w.(torn := w.torn + {w.paths[i].value}, diverged := w.diverged + {i});
    assert [i][..0] == [] && PartlyWritten(w, 0) == w;
    assert d.(frames := d.frames + FramesFor(w.db.tables[i], TouchedRows(w.log, i)[..0])) == d;
    assert w.files[w.paths[i].value := d] == w.files;
    assert after == TornAppend(w, i, 0, true);
    assert CommitFailsAt(w, 0, after);
  }

  /** The next commit succeeds, and what it appends is lost behind the tear. */
  lemma CommitsInVain(w: World, e: Undo)
    requires w.log == [e] && DiskOf(w, e.table).Some? && w.paths[e.table].value in w.torn
    ensures CommitStep(w, w.(log := [], active := false, partial := map[]), Done(0))
  {
    OneEntryTouches(e);
    assert [e.table][..0] == [];
    assert AppendTables(w, [e.table]) == AppendTable(AppendTables(w, []), e.table);
  }

  /** INSERT, its commit torn; COMMIT once more, answered with success: the file does not have the row. */
  lemma {:induction false} TornAppendDiverges(env: Env) returns (files: map<Path, Disk>, run: seq<Event>)
    ensures IsRun(Fresh(files), run) && run != [] && run[|run| - 1].stmt == Commit && run[|run| - 1].reply == Done(0)
    ensures var w := StateAfter(Fresh(files), run); |w.db.tables| == 1 && Sole(w, 0) && Apart(w, 0)
  {
    hide IsRun, StateAfter, Step, Changes, Recover, Agrees, CommitStep, QueryStep;
    files := map["f" := Disk([IdRow(1)], [])];
    StartOfRun(files);
    var w0 := Fresh(files);
    LoadsId(w0, "a", "f");
    var w1 := LoadedInto(w0, "a", Ids, "f");
    var r1 := Extended(files, [], Load("a", Ids, "f"), Done(0), w1);
    RecoverNoFrames(Ids, [IdRow(1)]);
    var t, e := w1.db.tables[0], UndoInsert(0, 1);
    InsertChanges(w1.db, 0, "a", 7, env);
    NothingLogged(w1.db);
    ChangeSteps(Opened(w1), InsertId("a", 7), env, 0, WithId(t, 7), e);
    var mid := Changed(Opened(w1), WithId(t, 7), e);
    AppendTears(mid, e);
    var w2 := mid.(torn := {"f"}, diverged := {0});
    assert mid.torn + {"f"} == {"f"} && mid.diverged + {0} == {0};
    TornQuerySteps(w1, InsertId("a", 7), env, mid, w2);
    var r2 := Extended(files, r1, Query(InsertId("a", 7), env), CommitFailed, w2);
    CommitsInVain(w2, e);
    var w3 := w2.(log := [], active := false, partial := map[]);
    CommitSteps(w2, w3);
    run := Extended(files, r2, Commit, Done(0), w3);
    UnknownToFile(t);
  }

  lemma TornQuerySteps(w: World, s: Dml, env: Env, mid: World, after: World)
    requires w.db.Valid() && !w.active && QueryStep(Opened(w), s, env, mid, Done(1)) && CommitStep(mid, after, CommitFailed)
    ensures Step(w, Query(s, env), after, CommitFailed)
  {
    hide QueryStep, CommitStep;
    assert AutoStep(w, s, env, mid, Done(1), after, CommitFailed);
  }

  lemma CommitSteps(w: World, w': World)
    requires w.db.Valid() && w.active && CommitStep(w, w', Done(0))
    ensures Step(w, Commit, w', Done(0))
  {
  }

  lemma UnknownToFile(t: TableState)
    requires t == Loaded(Ids, [IdRow(1)])
    ensures !Agrees(WithId(t, 7), Disk([IdRow(1)], []))
  {
    var mem, disk := WithId(t, 7), Disk([IdRow(1)], []);
    AgreesRowByRow(mem, disk);
    ReloadShows(Ids, disk, 1);
    assert ViewOf(mem, 1) == Present(IdRow(7)) && !RowSynced(mem, disk, 1);
  }

  /******* A checkpoint that fails *******/

  /** A checkpoint of a table with a gap, failing before or after the dump, and what it leaves. */
  lemma {:induction false} FailedCheckpointDiverges(dumped: bool) returns (files: map<Path, Disk>, run: seq<Event>)
    ensures IsRun(Fresh(files), run)
    ensures var w := StateAfter(Fresh(files), run);
      |w.db.tables| == 1 && Sole(w, 0) && Apart(w, 0)
  {
    hide Step, IsRun, Agrees, Recover, StateAfter, LiveRows;
    var base := [IdRow(1), IdRow(2)];
    var was := Disk(base, [Tombstone(0)]);
    files := map["f" := was];
    StartOfRun(files);
    var w0 := Fresh(files);
    LoadsId(w0, "a", "f");
    var w1 := LoadedInto(w0, "a", Ids, "f");
    var r1 := Extended(files, [], Load("a", Ids, "f"), Done(0), w1);
    RecoverTombstone(Ids, base);
    LoadSyncs(Ids, was);
    var t := w1.db.tables[0];
    assert t.dead[0] && !t.dead[1];
    var disk := if dumped then Disk(DumpedBase(t), was.frames) else was;
    CheckpointFails(w1, disk);
    var w2 := Checkpointed(w1, 0, disk, false, {});
    run := Extended(files, r1, Checkpoint(0), CheckpointFailed, w2);
    FailedCheckpointExactly(t, was, disk);
  }

  lemma CheckpointFails(w: World, disk: Disk)
    requires w.db.Valid() && !w.active && DiskOf(w, 0).Some? && |w.db.tables| == 1 && w.latched == {}
    requires LeftByFailedCheckpoint(w.db.tables[0], DiskOf(w, 0).value, disk)
    ensures Step(w, Checkpoint(0), Checkpointed(w, 0, disk, false, {}), CheckpointFailed)
  {
  }

  /******* A load that runs out of memory *******/

  lemma FirstFrameOnly(disk: Disk, t: TableState)
    requires disk == Disk([IdRow(1)], [Frame.Put(0, IdRow(1)), Frame.Put(1, IdRow(2))]) && t == Loaded(Ids, [IdRow(1)])
    ensures ReplayedInPart(Ids, disk, t) && !Agrees(t, disk)
  {
    hide Agrees, Recover;
    assert disk.frames[..1] == [Frame.Put(0, IdRow(1))] && disk.frames[..1][..0] == [];
    AgreesRowByRow(t, disk);
    ReloadShows(Ids, disk, 1);
    assert !RowSynced(t, disk, 1);
  }

  lemma PartialLoadSteps(w: World, path: Path, t: TableState)
    requires w.db == Db([], []) && w.paths == [] && w.diverged == {} && w.latched == {} && path in w.files
    requires CanLoad(w, "a", Ids, path) && ReplayedInPart(Ids, w.files[path], t) && !Synced(t, w.files[path])
    ensures Step(w, Load("a", Ids, path), w.(db := w.db.Add("a", t), paths := [Some(path)], diverged := {0}, latched := {0}), LoadedInPart)
  {
    hide ReplayedInPart, CanLoad, Synced;
    var after := w.(db := w.db.Add("a", t), paths := [Some(path)], diverged := {0}, latched := {0});
    NewIsInstalled(w, "a", t, path);
    assert InstalledInPart(w, "a", t, path, after);
  }

  /** The allocation for the second frame fails: the table is installed without the row, a later reload shows it. */
  lemma {:induction false} PartialLoadDiverges() returns (files: map<Path, Disk>, run: seq<Event>)
    ensures IsRun(Fresh(files), run)
    ensures var w := StateAfter(Fresh(files), run);
      |w.db.tables| == 1 && Sole(w, 0) && Apart(w, 0)
  {
    hide IsRun, Agrees, Recover, StateAfter, Step, ReplayedInPart, Synced;
    var disk := Disk([IdRow(1)], [Frame.Put(0, IdRow(1)), Frame.Put(1, IdRow(2))]);
    files := map["f" := disk];
    StartOfRun(files);
    var w0, t := Fresh(files), Loaded(Ids, [IdRow(1)]);
    FirstFrameOnly(disk, t);
    if Synced(t, disk) {
      SyncedRecovery(t, disk);
    }
    IdsCanLoad(w0, "a", "f");
    PartialLoadSteps(w0, "f", t);
    var w1 := w0.(db := w0.db.Add("a", t), paths := [Some("f")], diverged := {0}, latched := {0});
    run := Extended(files, [], Load("a", Ids, "f"), LoadedInPart, w1);
  }

  /******* Files that no load takes *******/

  /** No load of this file, under whatever name and schema, is anything but refused. */
  ghost predicate NeverLoads(w: World, path: Path)
    requires w.db.Valid()
  {
    forall name, schema, after, reply :: Step(w, Load(name, schema, path), after, reply) ==> reply.Declined()
  }

  lemma EmptyBaseRefused(w: World, path: Path)
    requires w.db.Valid() && path in w.files && w.files[path].base == []
    ensures NeverLoads(w, path)
  {
  }

  /** A load, and a checkpoint of the table, whose rows the log had all deleted. */
  lemma {:induction false} EmptiedByCheckpoint() returns (files: map<Path, Disk>, w: World, run: seq<Event>)
    ensures IsRun(Fresh(files), run) && StateAfter(Fresh(files), run) == w
    ensures w == World(Db(["a"], [TableState(Ids, [], [])]), [], false, [Some("f")], map["f" := Disk([], [])], map[], {}, {}, {})
  {
    hide IsRun, Recover, StateAfter, LiveRows, Step;
    var was := Disk([IdRow(1)], [Tombstone(0)]);
    files := map["f" := was];
    StartOfRun(files);
    var w0 := Fresh(files);
    LoadsId(w0, "a", "f");
    var w1 := LoadedInto(w0, "a", Ids, "f");
    var r1 := Extended(files, [], Load("a", Ids, "f"), Done(0), w1);
    RecoverTombstone(Ids, [IdRow(1)]);
    var t := w1.db.tables[0];
    AllDead(t);
    w := Checkpointed(w1, 0, Disk([], []), true, {});
    CheckpointSucceeds(w1);
    run := Extended(files, r1, Checkpoint(0), Done(0), w);
  }

  /** DELETE of every row, a checkpoint, then a committed INSERT: the file agrees with memory, but no .load takes it. */
  lemma {:induction false} EmptyBaseIsRefused(env: Env) returns (files: map<Path, Disk>, run: seq<Event>)
    ensures IsRun(Fresh(files), run)
    ensures var w := StateAfter(Fresh(files), run);
      !w.active && |w.db.tables| == 1 && Tracked(w, 0) && Visible(w.db.tables[0]) != map[] && NeverLoads(Fresh(w.files), w.paths[0].value)
  {
    hide IsRun, StateAfter, Step, Visible;
    var w2: World, r2: seq<Event>;
    files, w2, r2 := EmptiedByCheckpoint();
    var t := WithId(w2.db.tables[0], 7);
    InsertChanges(w2.db, 0, "a", 7, env);
    ChangeCommits(w2, InsertId("a", 7), env, 0, t, UndoInsert(0, 0));
    var w3 := Committed(w2, 0, t, 0);
    run := Extended(files, r2, Query(InsertId("a", 7), env), Done(1), w3);
    EmptyBaseRefused(Fresh(w3.files), "f");
    RowIsVisible(t, 0);
  }

  lemma RowIsVisible(t: TableState, r: nat)
    requires ViewOf(t, r).Present?
    ensures Visible(t) != map[]
  {
    assert r in Visible(t);
  }

  lemma CheckpointSucceeds(w: World)
    requires w.db.Valid() && !w.active && DiskOf(w, 0).Some? && |w.db.tables| == 1 && w.latched == {}
    ensures Step(w, Checkpoint(0), Checkpointed(w, 0, Disk(DumpedBase(w.db.tables[0]), []), true, {}), Done(0))
  {
  }

  /******* A dump that does not keep every cell *******/

  function Notes(keyed: bool): Schema {
    Schema(["note"], [FtText], if keyed then Some(0) else None, [None])
  }

  /** No load of this file under this schema is anything but refused. */
  ghost predicate RefusedAs(w: World, schema: Schema, path: Path)
    requires w.db.Valid()
  {
    forall name, after, reply :: Step(w, Load(name, schema, path), after, reply) ==> reply.Declined()
  }

  lemma EmptyTextIsDumped(t: TableState)
    requires t.rows == [[Text([])]] && t.dead == [false]
    ensures DumpedBase(t) == [[Null(FtText)]] && Compacted(t).rows == t.rows
  {
    LiveRowsWithoutGaps(t.rows, t.dead);
    assert LiveRows(t.rows, t.dead) == t.rows && t.rows[..0] == [];
    assert DumpedRow([Text([])]) == [Null(FtText)];
    assert !Skipped(t.rows[0]);
  }

  lemma NotesCanLoad(w: World, keyed: bool, path: Path)
    requires w.db.Valid() && "a" !in w.db.names && path in w.files && w.files[path] == Disk([[Text([])]], [])
    ensures CanLoad(w, "a", Notes(keyed), path)
  {
    BaseAcceptedExactly(w.db, Notes(keyed), w.files[path].base);
  }

  /**
   A table with an empty text is loaded and checkpointed: memory shows the text, a reload shows NULL. If
   the text is a key no later load takes the file.
   */
  lemma {:induction false} EmptyTextDiverges(keyed: bool) returns (files: map<Path, Disk>, run: seq<Event>)
    ensures IsRun(Fresh(files), run)
    ensures var w := StateAfter(Fresh(files), run);
      |w.db.tables| == 1 && Sole(w, 0) && Apart(w, 0) && w.paths[0].Some? && (keyed ==> RefusedAs(Fresh(w.files), w.db.tables[0].schema, w.paths[0].value))
  {
    hide IsRun, StateAfter, Step, Recover, Agrees, CanLoad, DumpedBase, Serves, RefusedAs, Sharers;
    var base := [[Text([])]];
    files := map["f" := Disk(base, [])];
    StartOfRun(files);
    var w0 := Fresh(files);
    NotesCanLoad(w0, keyed, "f");
    LoadsNew(w0, "a", Notes(keyed), "f");
    var w1 := LoadedInto(w0, "a", Notes(keyed), "f");
    var r1 := Extended(files, [], Load("a", Notes(keyed), "f"), Done(0), w1);
    RecoverNoFrames(Notes(keyed), base);
    var t := w1.db.tables[0];
    EmptyTextIsDumped(t);
    CheckpointSucceeds(w1);
    var w2 := Checkpointed(w1, 0, Disk(DumpedBase(t), []), true, {});
    run := Extended(files, r1, Checkpoint(0), Done(0), w2);
    CheckpointExactly(t);
    assert ViewOf(t, 0).Present? && !Storable(t.rows[0][0]);
    if keyed {
      NullKeyRefused(Fresh(w2.files), Notes(true), "f");
    }
  }

  lemma NullKeyRefused(w: World, schema: Schema, path: Path)
    requires w.db.Valid() && path in w.files && schema == Notes(true) && w.files[path].base == [[Null(FtText)]]
    ensures RefusedAs(w, schema, path)
  {
    hide ReplayedInPart, InstalledInPart, DiskFits, HeaderOk, Recover;
    forall name ensures !CanLoad(w, name, schema, path) {
      if BaseFits(schema, w.files[path].base) {
        BaseAcceptedExactly(w.db, schema, w.files[path].base);
        assert w.files[path].base[0][0].Null?;
      }
    }
  }

  /******* A row that a recorded allocation failure leaves *******/

  /** An INSERT for which memory gives out: it is rejected, and the table remembers the failure. */
  lemma MemoryGivesOut(w: World, env: Env)
    requires w.db.Valid() && !w.active && w.log == [] && w.partial == map[] && w.latched == {} && w.db.names == ["a"]
    ensures Step(w, Query(InsertId("a", 7), env), w.(latched := {0}), Rejected(OutOfMemory))
  {
    hide Run;
    var mid := Opened(w).(latched := {0});
    DeadExtReflexive(w.db);
    assert DmlStep(Opened(w), InsertId("a", 7), env, mid, Rejected(OutOfMemory));
    assert RollbackStep(mid, w.(latched := {0}));
    assert AutoStep(w, InsertId("a", 7), env, mid, Rejected(OutOfMemory), w.(latched := {0}), Rejected(OutOfMemory));
  }

  /** The next INSERT is rejected too, and leaves a live row. */
  function WithNullRow(w: World): World
    requires |w.db.tables| == 1
  {
    w.(db := w.db.With(0, w.db.tables[0].AppendNull()), diverged := w.diverged + {0})
  }

  lemma LatchedInsertSteps(w: World, env: Env)
    requires w.db.Valid() && !w.active && w.log == [] && w.partial == map[] && w.latched == {0} && w.db.names == ["a"]
    ensures Step(w, Query(InsertId("a", 7), env), WithNullRow(w), Rejected(OutOfMemory)) && WithNullRow(w).db.Valid()
  {
    var mid := WithNullRow(Opened(w));
    assert Opened(w).db.Find("a") == Some(0);
    assert LatchedStep(Opened(w), InsertId("a", 7), mid, Rejected(OutOfMemory));
    assert RollbackStep(mid, WithNullRow(w));
    assert AutoStep(w, InsertId("a", 7), env, mid, Rejected(OutOfMemory), WithNullRow(w), Rejected(OutOfMemory));
  }

  /** Memory shows a row that the file does not. */
  lemma {:induction false} LatchedInsertDiverges(env: Env) returns (files: map<Path, Disk>, run: seq<Event>)
    ensures IsRun(Fresh(files), run)
    ensures var w := StateAfter(Fresh(files), run); |w.db.tables| == 1 && Sole(w, 0) && Apart(w, 0)
  {
    hide IsRun, StateAfter, Step, Recover, Agrees, Synced;
    files := map["f" := Disk([IdRow(1)], [])];
    StartOfRun(files);
    var w0 := Fresh(files);
    LoadsId(w0, "a", "f");
    var w1 := LoadedInto(w0, "a", Ids, "f");
    var r1 := Extended(files, [], Load("a", Ids, "f"), Done(0), w1);
    MemoryGivesOut(w1, env);
    var w2 := w1.(latched := {0});
    var r2 := Extended(files, r1, Query(InsertId("a", 7), env), Rejected(OutOfMemory), w2);
    LatchedInsertSteps(w2, env);
    run := Extended(files, r2, Query(InsertId("a", 7), env), Rejected(OutOfMemory), WithNullRow(w2));
    RecoverNoFrames(Ids, [IdRow(1)]);
    LoadSyncs(Ids, files["f"]);
    UnloggedRowExactly(w2.db.tables[0], files["f"]);
  }

  /** A rejected INSERT that leaves a dead row. */
  function WithDeadRow(w: World): World
    requires |w.db.tables| == 1
  {
    w.(db := w.db.With(0, w.db.tables[0].AppendNull().SetDead(|w.db.tables[0].rows|, true)))
  }

  lemma DeadRowSteps(w: World, env: Env)
    requires w.db.Valid() && !w.active && w.log == [] && w.partial == map[] && w.latched == {} && w.db.names == ["a"]
    ensures Step(w, Query(InsertId("a", 7), env), WithDeadRow(w), Rejected(OutOfMemory)) && WithDeadRow(w).db.Valid()
  {
    hide Run;
    var t, mid := w.db.tables[0], WithDeadRow(Opened(w));
    OnlyCellsNone(t.AppendNull(), |t.rows|);
    KilledRowIsExt(t, t.AppendNull());
    DeadExtReflexive(w.db);
    UndoNothing(w.db, []);
    assert LogFits(w.db, []);
    UndoesDeadRow(w.db, 0, w.db, [], 0, t.AppendNull().SetDead(|t.rows|, true));
    assert DmlStep(Opened(w), InsertId("a", 7), env, mid, Rejected(OutOfMemory));
    assert RollbackStep(mid, WithDeadRow(w));
    assert AutoStep(w, InsertId("a", 7), env, mid, Rejected(OutOfMemory), WithDeadRow(w), Rejected(OutOfMemory));
  }

  /** DELETE without WHERE from a table without a key whose last row alone is live. */
  lemma DeleteChanges(db: Db, i: nat, name: string, env: Env)
    requires db.Valid() && db.Find(name) == Some(i) && db.tables[i].rows != []
    requires var t := db.tables[i]; t.Live(|t.rows| - 1) && !Referenced(db, i, |t.rows| - 1) && forall r :: 0 <= r < |t.rows| - 1 ==> t.dead[r]
    ensures var t := db.tables[i];
      Changes(db, Delete(name, None), env, i, t.SetDead(|t.rows| - 1, true), UndoDelete(i, |t.rows| - 1))
  {
    hide DeadExt, Referenced;
    var t := db.tables[i];
    var n: nat := |t.rows| - 1;
    DeletesNothing(db, i, env, n);
    assert DeleteRows(db, i, None, env, |t.rows|) == Ok(Effect(db.With(i, t.SetDead(n, true)), 1));
    DeleteIsUndone(db, i, n);
    DeadExtReflexive(db);
  }

  lemma {:induction false} DeletesNothing(db: Db, i: nat, env: Env, n: nat)
    requires db.Valid() && i < |db.tables| && n <= |db.tables[i].rows| && forall r :: 0 <= r < n ==> db.tables[i].dead[r]
    ensures DeleteRows(db, i, None, env, n) == Ok(Effect(db, 0))
  {
    if n > 0 {
      DeletesNothing(db, i, env, n - 1);
    }
  }

  lemma AllDead(t: TableState)
    requires t.schema == Ids && |t.rows| == |t.dead| && forall r :: 0 <= r < |t.dead| ==> t.dead[r]
    ensures NoGaps(t.dead) && Compacted(t) == TableState(Ids, [], [])
  {
    LiveRowsWithoutGaps(t.rows, t.dead);
    assert t.dead != [] ==> t.dead[0];
  }

  lemma PhantomBelow()
    ensures var disk := Disk([], [] + [Frame.Put(1, IdRow(7))] + [Tombstone(1)]);
      !OnDisk(disk, 0) && Height(disk.frames, 0) == 2
  {
    var first := [Frame.Put(1, IdRow(7))];
    var frames := [] + first + [Tombstone(1)];
    assert first[..0] == [] && first[0].row == 1;
    assert Height(first, 0) == 2 && LastFrame(first, 0) == LastFrame(first[..0], 0) == None;
    assert frames[..1] == first && frames[1].row == 1;
    assert LastFrame(frames, 0) == LastFrame(frames[..1], 0);
  }

  /** An INSERT and a DELETE above a dead row, committed, and a checkpoint that fails before its dump. */
  lemma {:induction false} ShrunkBelowLog(env: Env) returns (files: map<Path, Disk>, w: World, run: seq<Event>)
    ensures IsRun(Fresh(files), run) && StateAfter(Fresh(files), run) == w
    ensures var disk := Disk([], [] + [Frame.Put(1, IdRow(7))] + [Tombstone(1)]);
      w == World(Db(["a"], [TableState(Ids, [], [])]), [], false, [Some("f")], map["f" := disk], map[], {}, {}, {})
  {
    hide IsRun, StateAfter, Step, LiveRows, Changes;
    var w2: World, r2: seq<Event>;
    files, w2, r2 := EmptiedByCheckpoint();
    DeadRowSteps(w2, env);
    var w3 := WithDeadRow(w2);
    var r3 := Extended(files, r2, Query(InsertId("a", 7), env), Rejected(OutOfMemory), w3);
    InsertChanges(w3.db, 0, "a", 7, env);
    var t4 := WithId(w3.db.tables[0], 7);
    ChangeCommits(w3, InsertId("a", 7), env, 0, t4, UndoInsert(0, 1));
    var w4 := Committed(w3, 0, t4, 1);
    var r4 := Extended(files, r3, Query(InsertId("a", 7), env), Done(1), w4);
    DeleteChanges(w4.db, 0, "a", env);
    var t5 := t4.SetDead(1, true);
    ChangeCommits(w4, Delete("a", None), env, 0, t5, UndoDelete(0, 1));
    var w5 := Committed(w4, 0, t5, 1);
    var r5 := Extended(files, r4, Query(Delete("a", None), env), Done(1), w5);
    var disk := DiskOf(w5, 0).value;
    CheckpointFails(w5, disk);
    assert disk == Disk([], [] + [Frame.Put(1, IdRow(7))] + [Tombstone(1)]);
    AllDead(t5);
    w := Checkpointed(w5, 0, disk, false, {});
    run := Extended(files, r5, Checkpoint(0), CheckpointFailed, w);
  }

  /** The condition of UnloggedRowExactly is met by a run: here the row that is left agrees with the file. */
  lemma {:induction false} LatchedInsertCanAgree(env: Env) returns (files: map<Path, Disk>, run: seq<Event>)
    ensures IsRun(Fresh(files), run)
    ensures var w := StateAfter(Fresh(files), run);
      |w.db.tables| == 1 && Sole(w, 0) && DiskOf(w, 0).Some? && 0 in w.latched && Visible(w.db.tables[0]) != map[] && Agrees(w.db.tables[0], DiskOf(w, 0).value)
  {
    hide IsRun, StateAfter, Step, Agrees, Visible;
    var w6: World, r6: seq<Event>;
    files, w6, r6 := ShrunkBelowLog(env);
    FreshIsDurable(files);
    RunsKeepDurable(Fresh(files), r6);
    assert TableDurable(w6, 0) && Tracked(w6, 0);
    MemoryGivesOut(w6, env);
    var w7 := w6.(latched := {0});
    var r7 := Extended(files, r6, Query(InsertId("a", 7), env), Rejected(OutOfMemory), w7);
    LatchedInsertSteps(w7, env);
    var w8 := WithNullRow(w7);
    run := Extended(files, r7, Query(InsertId("a", 7), env), Rejected(OutOfMemory), w8);
    PhantomBelow();
    UnloggedRowExactly(w6.db.tables[0], DiskOf(w6, 0).value);
    RowIsVisible(w8.db.tables[0], 0);
  }

  /******* A base row whose parent is gone *******/

  const Children: Schema := Schema(["ref"], [FtInt], None, [Some(FkRef("p", "id"))])

  const Unrefer: Dml := Update("c", [Assignment("ref", LitNull)], None)

  lemma ParentColumn(db: Db)
    requires db.Valid() && |db.names| >= 1 && db.names[0] == "p" && db.tables[0].schema == Keys
    ensures FkTarget(db, Children, 0) == Some(Target(0, 0)) && Keys.FindColumn("id") == Some(0)
  {
  }

  lemma ChildrenCanLoad(w: World)
    requires w.db == Db(["p"], [Loaded(Keys, [IdRow(1)])]) && !w.active && "fc" in w.files && w.files["fc"] == Disk([IdRow(1)], [])
    ensures CanLoad(w, "c", Children, "fc")
  {
    hide FkTarget;
    ParentColumn(w.db);
    assert w.db.tables[0].Holds(0, 0, Int(1));
    assert !FkGraphs.ColumnsReach(w.db, 0, 1, "c", 1);
    assert FkGraphs.ReferenceAllowed(w.db, "c", Children, 0);
    assert Matched(w.db, Children, IdRow(1), 0);
    BaseAcceptedExactly(w.db, Children, [IdRow(1)]);
  }

  /** UPDATE c SET ref = NULL, on the one row of c. */
  lemma UnreferChanges(db: Db, env: Env)
    requires db.Valid() && db.names == ["p", "c"] && db.tables == [Loaded(Keys, [IdRow(1)]), Loaded(Children, [IdRow(1)])]
    ensures Changes(db, Unrefer, env, 1, db.tables[1].PutCell(0, 0, Null(FtInt)), UndoUpdate(1, 0, 0, Int(1)))
  {
    hide DeadExt;
    var t := db.tables[1];
    var t' := t.PutCell(0, 0, Null(FtInt));
    var ctx := RowContext(db, 1, 0, env);
    UpdateIsUndone(db, 1, 0, 0, Null(FtInt));
    DeadExtReflexive(db);
    UnreferResolves(db, env);
    UnreferRow(db, env);
    assert UpdateRows(db, 1, [0], [LitNull], None, env, 0) == Ok(Effect(db, 0));
    assert UpdateRows(db, 1, [0], [LitNull], None, env, 1) == Ok(Effect(db.With(1, t'), 1));
    assert Exprs(Unrefer.assignments) == [LitNull];
  }

  lemma UnreferResolves(db: Db, env: Env)
    requires db.Valid() && db.names == ["p", "c"] && db.tables == [Loaded(Keys, [IdRow(1)]), Loaded(Children, [IdRow(1)])]
    ensures var r := ResolveAssignments(Children, RowContext(db, 1, 0, env), Unrefer.assignments); r.Ok? && r.value == [0]
  {
    var ctx := RowContext(db, 1, 0, env);
    assert Unrefer.assignments[..0] == [];
    assert Children.FindColumn("ref") == Some(0);
    assert Infer(LitNull, ctx) == Some(TNull);
  }

  lemma UnreferRow(db: Db, env: Env)
    requires db.Valid() && db.names == ["p", "c"] && db.tables == [Loaded(Keys, [IdRow(1)]), Loaded(Children, [IdRow(1)])]
    ensures UpdateRow(db, 1, [0], [LitNull], None, env, 0) == Ok(Effect(db.With(1, db.tables[1].PutCell(0, 0, Null(FtInt))), 1))
  {
    hide FkTarget;
    var t := db.tables[1];
    var t' := t.PutCell(0, 0, Null(FtInt));
    var vs := ValuesOf([LitNull], RowContext(db, 1, 0, env));
    assert vs[0].Null?;
    assert [0][..0] == [] && vs[..0] == [];
    assert AssignAll(t, 0, [], []) == t && AssignAll(t, 0, [0], vs) == AssignOne(t, 0, 0, vs[0]) == t';
    var db' := db.With(1, t');
    assert CellViolation(db', 1, 0, 0).None? && RowViolation(db', 1, 0, 1).None?;
  }

  /** DELETE FROM p, when no row refers to its one row any more. */
  lemma UnreferencedNow(db: Db)
    requires db.Valid() && db.names == ["p", "c"]
    requires db.tables == [Loaded(Keys, [IdRow(1)]), Loaded(Children, [IdRow(1)]).PutCell(0, 0, Null(FtInt))]
    ensures !Referenced(db, 0, 0)
  {
    forall m: nat, c: nat ensures !(PointsAt(db, m, c, 0) && db.tables[m].HasMatch(c, Int(1))) {
      if PointsAt(db, m, c, 0) {
        assert m == 1 && c == 0;
        assert forall r :: !db.tables[1].Holds(r, 0, Int(1));
      }
    }
  }

  /** The two loads. */
  lemma {:induction false} ParentAndChild(files: map<Path, Disk>) returns (w: World, run: seq<Event>)
    requires files == map["fp" := Disk([IdRow(1)], []), "fc" := Disk([IdRow(1)], [])]
    ensures IsRun(Fresh(files), run) && StateAfter(Fresh(files), run) == w && w.db.Valid()
    ensures w == World(Db(["p", "c"], [Loaded(Keys, [IdRow(1)]), Loaded(Children, [IdRow(1)])]), [], false, [Some("fp"), Some("fc")], files, map[], {}, {}, {})
  {
    hide IsRun, StateAfter, Step, Recover, CanLoad;
    StartOfRun(files);
    var w0 := Fresh(files);
    RecoverNoFrames(Keys, [IdRow(1)]);
    RecoverNoFrames(Children, [IdRow(1)]);
    KeysCanLoad(w0, "p", "fp");
    LoadsNew(w0, "p", Keys, "fp");
    var w1 := LoadedInto(w0, "p", Keys, "fp");
    var r1 := Extended(files, [], Load("p", Keys, "fp"), Done(0), w1);
    assert w1.db == Db(["p"], [Loaded(Keys, [IdRow(1)])]);
    ChildrenCanLoad(w1);
    LoadsNew(w1, "c", Children, "fc");
    w := LoadedInto(w1, "c", Children, "fc");
    run := Extended(files, r1, Load("c", Children, "fc"), Done(0), w);
  }

  lemma ChildRefused(w: World)
    requires w.db == Db(["p"], [Loaded(Keys, [IdRow(1)]).SetDead(0, true)]) && "fc" in w.files && w.files["fc"].base == [IdRow(1)]
    ensures w.db.Valid() && RefusedAs(w, Children, "fc")
  {
    hide ReplayedInPart, InstalledInPart, DiskFits, HeaderOk, Recover, FkTarget, FkGraphs.ReferencesAllowed;
    ParentColumn(w.db);
    assert forall r :: !w.db.tables[0].Holds(r, 0, Int(1));
    assert BaseFits(Children, [IdRow(1)]) && !Matched(w.db, Children, IdRow(1), 0);
    assert [IdRow(1)][0] == IdRow(1) && !AllMatched(w.db, Children, IdRow(1));
    BaseAcceptedExactly(w.db, Children, [IdRow(1)]);
  }

  /**
   Parent and child are loaded, UPDATE c SET ref = NULL, DELETE FROM p, each committed. In the next session the
   parent loads, but the base row of the child still refers to the deleted row: its file is refused,
   whose log holds the row that is valid.
   */
  lemma {:induction false} ChildIsRefused(env: Env) returns (files: map<Path, Disk>, run: seq<Event>, next: seq<Event>)
    ensures IsRun(Fresh(files), run)
    ensures var w := StateAfter(Fresh(files), run);
      && !w.active && |w.db.tables| == 2 && Tracked(w, 1) && Visible(w.db.tables[1]) != map[] && DiskOf(w, 1).value.base != []
      && IsRun(Fresh(w.files), next)
      && var v := StateAfter(Fresh(w.files), next);
         v.db.names == ["p"] && v.db.Valid() && v.files == w.files && RefusedAs(v, w.db.tables[1].schema, w.paths[1].value)
  {
    hide IsRun, StateAfter, Step, Visible, Changes, Recover, RefusedAs, CanLoad;
    files := map["fp" := Disk([IdRow(1)], []), "fc" := Disk([IdRow(1)], [])];
    var w2, r2 := ParentAndChild(files);
    UnreferChanges(w2.db, env);
    var t3 := w2.db.tables[1].PutCell(0, 0, Null(FtInt));
    ChangeCommits(w2, Unrefer, env, 1, t3, UndoUpdate(1, 0, 0, Int(1)));
    var w3 := Committed(w2, 1, t3, 0);
    var r3 := Extended(files, r2, Query(Unrefer, env), Done(1), w3);
    UnreferencedNow(w3.db);
    DeleteChanges(w3.db, 0, "p", env);
    var t4 := w3.db.tables[0].SetDead(0, true);
    ChangeCommits(w3, Delete("p", None), env, 0, t4, UndoDelete(0, 0));
    var w4 := Committed(w3, 0, t4, 0);
    run := Extended(files, r3, Query(Delete("p", None), env), Done(1), w4);
    RowIsVisible(t3, 0);
    next := ParentAlone(w4.files);
  }

  /** The next session loads the parent. */
  lemma {:induction false} ParentAlone(files: map<Path, Disk>) returns (run: seq<Event>)
    requires "fp" in files && files["fp"] == Disk([IdRow(1)], [] + [Tombstone(0)]) && "fc" in files && files["fc"].base == [IdRow(1)]
    ensures IsRun(Fresh(files), run)
    ensures var v := StateAfter(Fresh(files), run); v.db.names == ["p"] && v.db.Valid() && v.files == files && RefusedAs(v, Children, "fc")
  {
    hide IsRun, StateAfter, Step, Recover, RefusedAs, CanLoad;
    StartOfRun(files);
    var v0 := Fresh(files);
    KeysCanLoad(v0, "p", "fp");
    LoadsNew(v0, "p", Keys, "fp");
    var v1 := LoadedInto(v0, "p", Keys, "fp");
    run := Extended(files, [], Load("p", Keys, "fp"), Done(0), v1);
    assert [] + [Tombstone(0)] == [Tombstone(0)];
    RecoverTombstone(Keys, [IdRow(1)]);
    ChildRefused(v1);
  }

  /******* Integrity after a restart *******/

  lemma RecoverBeyond()
    ensures Recover(Keys, Disk([IdRow(1)], [] + [Frame.Put(2, IdRow(7))])) == TableState(Keys, [IdRow(1), NullRow([FtInt]), IdRow(7)], [false, false, false])
  {
    var t, frames := Loaded(Keys, [IdRow(1)]), [] + [Frame.Put(2, IdRow(7))];
    assert frames[..0] == [] && Replay(t, frames[..0]) == t;
    var two := t.AppendNull();
    var three := two.AppendNull();
    assert Grown(three, 3) == three && Grown(two, 3) == Grown(three, 3) && Grown(t, 3) == Grown(two, 3);
    assert Replay(t, frames).rows == [IdRow(1), NullRow([FtInt]), IdRow(7)];
  }

  lemma PlainExtended(start: World, run: seq<Event>, e: Event)
    requires PlainRun(start, run) && PlainEvent(StateAfter(start, run), e)
    ensures PlainRun(start, run + [e])
  {
    hide PlainEvent;
    var longer := run + [e];
    forall k | 0 <= k < |longer| ensures PlainEvent(StateAfter(start, longer[..k]), longer[k]) {
      assert longer[..k] == if k < |run| then run[..k] else run;
    }
  }

  lemma PlainQuery(w: World, s: Dml, env: Env, reply: Reply, after: World)
    requires w.latched == {}
    ensures PlainEvent(w, Event(Query(s, env), reply, after))
  {
  }

  lemma PlainFirstLoad(w: World, e: Event)
    requires w.db == Db([], []) && !w.active && e.stmt.Load? && Step(w, e.stmt, e.after, Done(0)) && e.reply == Done(0) && w.files[e.stmt.path].frames == []
    ensures PlainEvent(w, e)
  {
    LoadWithoutLogIsPlain(w, e.stmt, e.after);
  }

  /**
   A rejected INSERT, then a committed one, into a table with a key: all is well in this session. The next one
   loads the table, a reload makes up the row number that was never logged, and its key is NULL.
   */
  lemma {:induction false} PhantomBreaksIntegrity(env: Env) returns (files: map<Path, Disk>, run: seq<Event>, next: seq<Event>)
    ensures IsRun(Fresh(files), run) && PlainRun(Fresh(files), run) && Integrity(StateAfter(Fresh(files), run).db)
    ensures var w := StateAfter(Fresh(files), run); !w.active && IsRun(Fresh(w.files), next) && !Integrity(StateAfter(Fresh(w.files), next).db)
  {
    hide IsRun, StateAfter, Step, Changes, Recover, CanLoad, PlainEvent, PlainRun, Integrity, Sound;
    files := map["f" := Disk([IdRow(1)], [])];
    StartOfRun(files);
    var w0 := Fresh(files);
    KeysCanLoad(w0, "a", "f");
    LoadsNew(w0, "a", Keys, "f");
    var w1 := LoadedInto(w0, "a", Keys, "f");
    var r1 := Extended(files, [], Load("a", Keys, "f"), Done(0), w1);
    RecoverNoFrames(Keys, [IdRow(1)]);
    PlainFirstLoad(w0, Event(Load("a", Keys, "f"), Done(0), w1));
    NothingIsPlain(w0);
    PlainExtended(w0, [], Event(Load("a", Keys, "f"), Done(0), w1));
    DeadRowSteps(w1, env);
    var w2 := WithDeadRow(w1);
    var r2 := Extended(files, r1, Query(InsertId("a", 7), env), Rejected(OutOfMemory), w2);
    PlainQuery(w1, InsertId("a", 7), env, Rejected(OutOfMemory), w2);
    PlainExtended(w0, r1, Event(Query(InsertId("a", 7), env), Rejected(OutOfMemory), w2));
    var t := WithId(w2.db.tables[0], 7);
    InsertChanges(w2.db, 0, "a", 7, env);
    ChangeCommits(w2, InsertId("a", 7), env, 0, t, UndoInsert(0, 2));
    var w3 := Committed(w2, 0, t, 2);
    run := Extended(files, r2, Query(InsertId("a", 7), env), Done(1), w3);
    PlainQuery(w2, InsertId("a", 7), env, Done(1), w3);
    PlainExtended(w0, r2, Event(Query(InsertId("a", 7), env), Done(1), w3));
    RunsKeepIntegrity(files, run);
    SoundHasIntegrity(w3);
    next := NullKeyLoaded(w3.files);
  }

  lemma NothingIsPlain(start: World)
    ensures PlainRun(start, [])
  {
  }

  lemma SoundHasIntegrity(w: World)
    requires Sound(w)
    ensures Integrity(w.db)
  {
  }

  lemma {:induction false} NullKeyLoaded(files: map<Path, Disk>) returns (run: seq<Event>)
    requires "f" in files && files["f"] == Disk([IdRow(1)], [] + [Frame.Put(2, IdRow(7))])
    ensures IsRun(Fresh(files), run) && !Integrity(StateAfter(Fresh(files), run).db)
  {
    hide IsRun, StateAfter, Step, Recover, CanLoad;
    StartOfRun(files);
    var v0 := Fresh(files);
    KeysCanLoad(v0, "a", "f");
    LoadsNew(v0, "a", Keys, "f");
    var v1 := LoadedInto(v0, "a", Keys, "f");
    run := Extended(files, [], Load("a", Keys, "f"), Done(0), v1);
    RecoverBeyond();
    var t := v1.db.tables[0];
    assert t.Live(1) && t.Cell(1, 0).Null? && !KeyOk(t, 1);
  }

  /** The child refers to row id 7, which no live row of the parent has. */
  lemma Orphaned(db: Db)
    requires db.Valid() && db.names == ["p", "c"] && db.tables[0].schema == Keys && db.tables[1] == Loaded(Children, [IdRow(7)])
    requires forall r :: 0 <= r < |db.tables[0].rows| && !db.tables[0].dead[r] ==> db.tables[0].rows[r] == IdRow(1)
    ensures !Integrity(db)
  {
    hide FkTarget;
    ParentColumn(db);
    assert db.tables[1].Live(0) && db.tables[1].Cell(0, 0) == Int(7);
    assert forall r :: !db.tables[0].Holds(r, 0, Int(7));
    assert !RefOk(db, 1, 0, 0);
  }

  lemma ChildOfSevenCanLoad(w: World, t: TableState)
    requires w.db == Db(["p"], [t]) && t.Valid() && t.schema == Keys && t.HasMatch(0, Int(7))
    requires "fc" in w.files && w.files["fc"] == Disk([IdRow(7)], [])
    ensures CanLoad(w, "c", Children, "fc")
  {
    hide FkTarget;
    ParentColumn(w.db);
    assert !FkGraphs.ColumnsReach(w.db, 0, 1, "c", 1);
    assert FkGraphs.ReferenceAllowed(w.db, "c", Children, 0);
    assert Matched(w.db, Children, IdRow(7), 0);
    BaseAcceptedExactly(w.db, Children, [IdRow(7)]);
  }

  /** A load, BEGIN and INSERT of a parent. */
  lemma {:induction false} ParentInserted(files: map<Path, Disk>, env: Env) returns (w: World, run: seq<Event>)
    requires files == map["fp" := Disk([IdRow(1)], []), "fc" := Disk([IdRow(7)], [])]
    ensures IsRun(Fresh(files), run) && StateAfter(Fresh(files), run) == w && w.db.Valid()
    ensures w == World(Db(["p"], [WithId(Loaded(Keys, [IdRow(1)]), 7)]), [UndoInsert(0, 1)], true, [Some("fp")], files, map[], {}, {}, {})
  {
    hide IsRun, StateAfter, Step, Changes, Recover, CanLoad, LogFits;
    StartOfRun(files);
    var w0 := Fresh(files);
    KeysCanLoad(w0, "p", "fp");
    LoadsNew(w0, "p", Keys, "fp");
    var w1 := LoadedInto(w0, "p", Keys, "fp");
    var r1 := Extended(files, [], Load("p", Keys, "fp"), Done(0), w1);
    RecoverNoFrames(Keys, [IdRow(1)]);
    BeginSteps(w1);
    var w2 := Opened(w1);
    var r2 := Extended(files, r1, Begin, Done(0), w2);
    var t := w2.db.tables[0];
    InsertChanges(w2.db, 0, "p", 7, env);
    NothingLogged(w2.db);
    ChangeSteps(w2, InsertId("p", 7), env, 0, WithId(t, 7), UndoInsert(0, 1));
    w := Changed(w2, WithId(t, 7), UndoInsert(0, 1));
    OpenQuerySteps(w2, InsertId("p", 7), env, w);
    run := Extended(files, r2, Query(InsertId("p", 7), env), Done(1), w);
  }

  /** BEGIN, INSERT of a parent, .load of a child that refers to it, ROLLBACK: the child stays. */
  lemma {:induction false} RollbackOrphansLoadedRow(env: Env) returns (files: map<Path, Disk>, run: seq<Event>)
    ensures IsRun(Fresh(files), run) && !Integrity(StateAfter(Fresh(files), run).db)
  {
    hide IsRun, StateAfter, Step, Recover, CanLoad, Integrity, UndoTo, TakenBack;
    files := map["fp" := Disk([IdRow(1)], []), "fc" := Disk([IdRow(7)], [])];
    var w3, r3 := ParentInserted(files, env);
    var t := Loaded(Keys, [IdRow(1)]);
    assert w3.db.tables[0].Holds(1, 0, Int(7));
    ChildOfSevenCanLoad(w3, WithId(t, 7));
    LoadsNew(w3, "c", Children, "fc");
    var w4 := LoadedInto(w3, "c", Children, "fc");
    var r4 := Extended(files, r3, Load("c", Children, "fc"), Done(0), w4);
    RecoverNoFrames(Children, [IdRow(7)]);
    RollbackSteps(w4);
    run := Extended(files, r4, Rollback, Done(0), RolledBack(w4));
    RowUndone(w4, t);
    Orphaned(RolledBack(w4).db);
  }

  lemma RowUndone(w: World, t: TableState)
    requires t == Loaded(Keys, [IdRow(1)]) && w.db == Db(["p", "c"], [WithId(t, 7), Loaded(Children, [IdRow(7)])]) && w.log == [UndoInsert(0, 1)]
    ensures RolledBack(w).db == w.db.With(0, WithId(t, 7).SetDead(1, true)) && RolledBack(w).db.Valid()
  {
    assert [UndoInsert(0, 1)][..0] == [];
    assert UndoTo(w.db, w.log, 0) == UndoTo(UndoOne(w.db, UndoInsert(0, 1)), [], 0);
  }

  /** .load of another file over a parent leaves its children as they are. */
  lemma {:induction false} ReloadOrphansChild() returns (files: map<Path, Disk>, run: seq<Event>)
    ensures IsRun(Fresh(files), run) && !Integrity(StateAfter(Fresh(files), run).db)
  {
    hide IsRun, StateAfter, Step, Recover, CanLoad, Integrity;
    files := map["fp" := Disk([IdRow(7)], []), "fc" := Disk([IdRow(7)], []), "fq" := Disk([IdRow(1)], [])];
    StartOfRun(files);
    var w0 := Fresh(files);
    SevenCanLoad(w0);
    LoadsNew(w0, "p", Keys, "fp");
    var w1 := LoadedInto(w0, "p", Keys, "fp");
    var r1 := Extended(files, [], Load("p", Keys, "fp"), Done(0), w1);
    RecoverNoFrames(Keys, [IdRow(7)]);
    var t := w1.db.tables[0];
    assert t.Holds(0, 0, Int(7));
    ChildOfSevenCanLoad(w1, t);
    LoadsNew(w1, "c", Children, "fc");
    var w2 := LoadedInto(w1, "c", Children, "fc");
    var r2 := Extended(files, r1, Load("c", Children, "fc"), Done(0), w2);
    RecoverNoFrames(Children, [IdRow(7)]);
    RecoverNoFrames(Keys, [IdRow(1)]);
    var w3 := ParentReplaced(w2);
    run := Extended(files, r2, Load("p", Keys, "fq"), Done(0), w3);
    Orphaned(w3.db);
  }

  lemma SevenCanLoad(w: World)
    requires w.db == Db([], []) && "fp" in w.files && w.files["fp"] == Disk([IdRow(7)], [])
    ensures CanLoad(w, "p", Keys, "fp")
  {
    BaseAcceptedExactly(w.db, Keys, [IdRow(7)]);
  }

  lemma ParentReplaced(w: World) returns (after: World)
    requires w.db == Db(["p", "c"], [Loaded(Keys, [IdRow(7)]), Loaded(Children, [IdRow(7)])]) && !w.active
    requires "fq" in w.files && w.files["fq"] == Disk([IdRow(1)], [])
    ensures Step(w, Load("p", Keys, "fq"), after, Done(0))
    ensures after.db == Db(["p", "c"], [Loaded(Keys, [IdRow(1)]), Loaded(Children, [IdRow(7)])]) && after.db.Valid()
  {
    BaseAcceptedExactly(w.db, Keys, [IdRow(1)]);
    RecoverNoFrames(Keys, [IdRow(1)]);
    assert w.db.Find("p") == Some(0);
    after := Installed(w, "p", Loaded(Keys, [IdRow(1)]), "fq");
    assert CanLoad(w, "p", Keys, "fq");
  }
}
