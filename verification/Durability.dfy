/**
 Memory against disk over whole runs of one session.

 Outside the rows of the open transaction, memory always agrees with what a reload would give.
 Unless a COMMIT failed halfway, so does the state a ROLLBACK would leave, which is why a crash
 inside a transaction amounts to a rollback. The exceptions are a file that two tables were loaded
 from and the tables in diverged; for each way into it Divergences has a run.
 */
module Durability {
  import opened Values
  import opened TableStates
  import opened Catalogs
  import opened Constraints
  import opened Statements
  import opened Dumps
  import opened Frames
  import opened Loads
  import opened Sessions
  import FkGraphs

  /** No other table was loaded from the file of table i. */
  predicate Sole(w: World, i: nat) {
    forall j :: 0 <= j < |w.paths| && j != i && i < |w.paths| && w.paths[i].Some? ==> w.paths[j] != w.paths[i]
  }

  lemma AppendTableDisk(w: World, t: nat, i: nat)
    requires Sole(w, i) && DiskOf(w, i).Some? && i < |w.db.tables| && w.paths[i].value !in w.torn
    ensures DiskOf(AppendTable(w, t), i) ==
      if t == i then Some(DiskOf(w, i).value.(frames := DiskOf(w, i).value.frames + FramesFor(w.db.tables[i], TouchedRows(w.log, i))))
      else DiskOf(w, i)
  {
  }

  lemma {:induction false} AppendTablesDisk(w: World, ts: seq<nat>, i: nat)
    requires Distinct(ts) && Sole(w, i) && DiskOf(w, i).Some? && i < |w.db.tables| && w.paths[i].value !in w.torn
    ensures var w' := AppendTables(w, ts); var d := DiskOf(w, i).value;
      && w' == w.(files := w'.files)
      && DiskOf(w', i) == Some(if i in ts then d.(frames := d.frames + FramesFor(w.db.tables[i], TouchedRows(w.log, i))) else d)
  {
    if ts != [] {
      var rest, last := ts[..|ts| - 1], ts[|ts| - 1];
      AppendTablesDisk(w, rest, i);
      AppendTableDisk(AppendTables(w, rest), last, i);
      assert ts == rest + [last];
    }
  }

  lemma AppendTablesNone(w: World, ts: seq<nat>, i: nat)
    ensures DiskOf(w, i).None? <==> DiskOf(AppendTables(w, ts), i).None?
  {
    AppendTablesOnlyFiles(w, ts);
  }

  /******* The invariant *******/

  /** Memory agrees with disk on every row the open transaction has not touched. */
  ghost predicate SyncedOutside(mem: TableState, disk: Disk, touched: seq<nat>) {
    && |mem.rows| == |mem.dead| && (forall r :: r !in touched ==> RowSynced(mem, disk, r))
    && forall p: nat, q: nat ::
         (p < q && p !in touched && q !in touched && !OnDisk(disk, p) && !OnDisk(disk, q) && ViewOf(mem, q).Present?) ==> ViewOf(mem, p).Present?
  }

  /** The file holds what the failed commit wrote, and knows every row on which undone memory differs from that. */
  ghost predicate HalfWritten(undone: TableState, written: TableState, disk: Disk) {
    && undone.schema == written.schema && Synced(written, disk)
    && forall r: nat :: !OnDisk(disk, r) ==> SameShown(ViewOf(undone, r), ViewOf(written, r))
  }

  /** Loaded from a file of its own whose log has no torn end, and nothing has parted the two. */
  predicate Tracked(w: World, i: nat) {
    Sole(w, i) && DiskOf(w, i).Some? && w.paths[i].value !in w.torn && i !in w.diverged
  }

  ghost predicate TableDurable(w: World, i: nat)
    requires i < |w.db.tables|
  {
    && (DiskOf(w, i).Some? ==> HeaderOk(w.db.tables[i].schema))
    && (Tracked(w, i) ==> InStep(w.db.tables[i], UndoTo(w.db, w.log, 0), i, DiskOf(w, i).value, TouchedRows(w.log, i), w.partial))
  }

  ghost predicate InStep(mem: TableState, undone: Db, i: nat, disk: Disk, touched: seq<nat>, partial: map<nat, TableState>) {
    && SyncedOutside(mem, disk, touched) && DiskFits(mem.schema.types, disk)
    && i < |undone.tables| && |undone.tables[i].rows| == |undone.tables[i].dead|
    && if i in partial then HalfWritten(undone.tables[i], partial[i], disk) else Synced(undone.tables[i], disk)
  }

  ghost predicate Durable(w: World) {
    && w.db.Valid() && LogFits(w.db, w.log) && |w.paths| == |w.db.tables|
    && (!w.active ==> w.log == [] && w.partial == map[]) && (forall i :: i in w.partial ==> i < |w.db.tables|)
    && forall i :: 0 <= i < |w.db.tables| ==> TableDurable(w, i)
  }

  /******* It survives extension by dead rows *******/

  lemma ShownInExt(s: TableState, t: TableState, r: nat)
    requires TableExt(s, t)
    ensures SameShown(ViewOf(s, r), ViewOf(t, r))
  {
    if r < |s.rows| {
      assert t.rows[..|s.rows|][r] == t.rows[r] && t.dead[..|s.dead|][r] == t.dead[r];
    }
  }

  lemma SyncedInExt(s: TableState, t: TableState, disk: Disk)
    requires Synced(s, disk) && TableExt(s, t)
    ensures Synced(t, disk)
  {
    forall r: nat ensures SameShown(ViewOf(s, r), ViewOf(t, r)) {
      ShownInExt(s, t, r);
    }
    SyncedAllShown(s, t, disk);
  }

  lemma HalfWrittenInExt(s: TableState, t: TableState, written: TableState, disk: Disk)
    requires HalfWritten(s, written, disk) && TableExt(s, t)
    ensures HalfWritten(t, written, disk)
  {
    forall r: nat | !OnDisk(disk, r) ensures SameShown(ViewOf(t, r), ViewOf(written, r)) {
      ShownInExt(s, t, r);
      assert SameShown(ViewOf(s, r), ViewOf(written, r));
    }
  }

  lemma TouchedRowsGrow(log: seq<Undo>, log': seq<Undo>, i: nat, r: nat)
    requires |log| <= |log'| && log'[..|log|] == log && r !in TouchedRows(log', i)
    ensures r !in TouchedRows(log, i)
    ensures forall k :: |log| <= k < |log'| ==> !(log'[k].table == i && log'[k].row == r)
  {
    TouchedRowsExactly(log', i, r);
    TouchedRowsExactly(log, i, r);
    assert forall k :: 0 <= k < |log| ==> log'[..|log|][k] == log'[k];
  }

  /** A row the new log does not touch shows what it showed before. */
  lemma UntouchedShown(db: Db, log: seq<Undo>, db': Db, log': seq<Undo>, i: nat, r: nat)
    requires db.Valid() && |log| <= |log'| && log'[..|log|] == log && Undoes(db, |log|, db', log')
    requires |db'.tables| == |db.tables| && i < |db.tables| && r !in TouchedRows(log', i)
    ensures r !in TouchedRows(log, i) && SameShown(ViewOf(db.tables[i], r), ViewOf(db'.tables[i], r))
  {
    hide UndoTo, TouchedRows, TableExt;
    TouchedRowsGrow(log, log', i, r);
    UndoToUntouched(db', log', |log|, i, r);
    ShownInExt(db.tables[i], UndoTo(db', log', |log|).tables[i], r);
  }

  /** A logged change keeps memory in sync outside the rows it logged. */
  lemma ChangeKeepsSyncedOutside(db: Db, log: seq<Undo>, db': Db, log': seq<Undo>, i: nat, disk: Disk)
    requires db.Valid() && |log| <= |log'| && log'[..|log|] == log && Undoes(db, |log|, db', log')
    requires |db'.tables| == |db.tables| && i < |db.tables|
    requires SyncedOutside(db.tables[i], disk, TouchedRows(log, i))
    ensures SyncedOutside(db'.tables[i], disk, TouchedRows(log', i))
  {
    UndoToShape(db', log', |log|);
    var u := UndoTo(db', log', |log|);
    assert TableExt(db.tables[i], u.tables[i]);
    var t, t', touched' := db.tables[i], db'.tables[i], TouchedRows(log', i);
    forall r | r !in touched' ensures RowSynced(t', disk, r) {
      UntouchedShown(db, log, db', log', i, r);
      SyncedShown(t, t', disk, r);
    }
    forall p: nat, q: nat | p < q && p !in touched' && q !in touched' && !OnDisk(disk, p) && !OnDisk(disk, q) && ViewOf(t', q).Present?
      ensures ViewOf(t', p).Present? {
      UntouchedShown(db, log, db', log', i, p);
      UntouchedShown(db, log, db', log', i, q);
    }
  }

  /******* Every step keeps it *******/

  lemma DmlTableDurable(w: World, s: Dml, env: Env, w': World, reply: Reply, i: nat)
    requires Durable(w) && w.active && DmlStep(w, s, env, w', reply) && i < |w.db.tables|
    ensures TableDurable(w', i)
  {
    hide Undoes, TableExt, SyncedOutside, Synced, HalfWritten, DiskFits, Run;
    DmlExtends(w, s, env, w', reply, i);
    assert TableDurable(w, i) && DiskOf(w', i) == DiskOf(w, i) && (Sole(w', i) ==> Sole(w, i));
    if Tracked(w, i) {
      var disk, u, u' := DiskOf(w, i).value, UndoTo(w.db, w.log, 0).tables[i], UndoTo(w'.db, w'.log, 0).tables[i];
      ChangeKeepsSyncedOutside(w.db, w.log, w'.db, w'.log, i, disk);
      if i in w.partial {
        HalfWrittenInExt(u, u', w.partial[i], disk);
      } else {
        SyncedInExt(u, u', disk);
      }
    }
  }

  lemma DmlExtends(w: World, s: Dml, env: Env, w': World, reply: Reply, i: nat)
    requires w.db.Valid() && LogFits(w.db, w.log) && DmlStep(w, s, env, w', reply) && i < |w.db.tables|
    ensures w'.db.Valid() && LogFits(w'.db, w'.log) && w'.db.tables[i].schema == w.db.tables[i].schema
    ensures var u, u' := UndoTo(w.db, w.log, 0), UndoTo(w'.db, w'.log, 0);
      i < |u.tables| == |u'.tables| && TableExt(u.tables[i], u'.tables[i]) && |u'.tables[i].rows| == |u'.tables[i].dead|
  {
    UndoesFromStart(w.db, w.log, w'.db, w'.log);
    UndoToShape(w.db, w.log, 0);
    UndoToShape(w'.db, w'.log, 0);
  }

  lemma DmlKeepsDurable(w: World, s: Dml, env: Env, w': World, reply: Reply)
    requires Durable(w) && w.active && DmlStep(w, s, env, w', reply)
    ensures Durable(w')
  {
    hide TableDurable, Run;
    forall i | 0 <= i < |w'.db.tables| ensures TableDurable(w', i) {
      DmlTableDurable(w, s, env, w', reply, i);
    }
  }

  /** Appending a table's share leaves its untouched rows in sync, and after all of it every row. */
  lemma ShareSyncs(mem: TableState, disk: Disk, rows: seq<nat>)
    requires SyncedOutside(mem, disk, rows)
    ensures Synced(mem, disk.(frames := disk.frames + FramesFor(mem, rows)))
  {
    var disk' := disk.(frames := disk.frames + FramesFor(mem, rows));
    forall r: nat ensures RowSynced(mem, disk', r) && (OnDisk(disk', r) <==> OnDisk(disk, r) || r in rows) {
      CommitSyncs(mem, disk, rows, r);
      AppendedRows(mem, disk, rows, mem.schema, r);
    }
  }

  lemma SyncedIsOutside(mem: TableState, disk: Disk, rows: seq<nat>)
    requires Synced(mem, disk)
    ensures SyncedOutside(mem, disk, rows)
  {
  }

  lemma CommitDoneDurable(w: World, w': World, i: nat)
    requires Durable(w) && i < |w.db.tables|
    requires w' == AppendTables(w, TouchedTables(w.log)).(log := [], active := false, partial := map[])
    ensures w'.db == w.db && w'.paths == w.paths && TableDurable(w', i)
  {
    var ts := TouchedTables(w.log);
    AppendTablesOnlyFiles(w, ts);
    AppendTablesNone(w, ts, i);
    if Tracked(w', i) {
      assert Sole(w, i);
      assert TableDurable(w, i);
      TouchedTablesExactly(w.log, i);
      AppendTablesDisk(w, ts, i);
      ShareSyncs(w.db.tables[i], DiskOf(w, i).value, TouchedRows(w.log, i));
      AppendedFits(w.db.tables[i], DiskOf(w, i).value, TouchedRows(w.log, i));
      if i !in ts {
        var d := DiskOf(w, i).value;
        assert d.(frames := d.frames + FramesFor(w.db.tables[i], [])) == d;
      }
      SyncedIsOutside(w.db.tables[i], DiskOf(w', i).value, []);
    }
  }

  /** The tables a failed commit got to hold what memory held; rows it did not touch look the same undone. */
  lemma ShareIsHalfWritten(db: Db, log: seq<Undo>, i: nat, disk: Disk)
    requires db.Valid() && LogFits(db, log) && i < |db.tables| && SyncedOutside(db.tables[i], disk, TouchedRows(log, i))
    ensures i < |UndoTo(db, log, 0).tables|
    ensures var disk' := disk.(frames := disk.frames + FramesFor(db.tables[i], TouchedRows(log, i)));
      HalfWritten(UndoTo(db, log, 0).tables[i], db.tables[i], disk')
  {
    var rows := TouchedRows(log, i);
    var disk' := disk.(frames := disk.frames + FramesFor(db.tables[i], rows));
    UndoToShape(db, log, 0);
    ShareSyncs(db.tables[i], disk, rows);
    forall r: nat | !OnDisk(disk', r) ensures SameShown(ViewOf(UndoTo(db, log, 0).tables[i], r), ViewOf(db.tables[i], r)) {
      AppendedRows(db.tables[i], disk, rows, db.tables[i].schema, r);
      TouchedRowsExactly(log, i, r);
      UndoToUntouched(db, log, 0, i, r);
    }
  }

  lemma PartlyWrittenDurable(w: World, k: nat, i: nat)
    requires Durable(w) && i < |w.db.tables| && k < |TouchedTables(w.log)|
    ensures var v := PartlyWritten(w, k); v.db == w.db && v.log == w.log && v.paths == w.paths && TableDurable(v, i)
  {
    var all := TouchedTables(w.log);
    var ts, v := all[..k], PartlyWritten(w, k);
    AppendTablesOnlyFiles(w, ts);
    AppendTablesNone(w, ts, i);
    assert TableDurable(w, i);
    if Tracked(v, i) {
      assert Sole(w, i);
      TouchedTablesExactly(w.log, i);
      assert Distinct(ts);
      AppendTablesDisk(w, ts, i);
      if i in ts {
        ShareIsHalfWritten(w.db, w.log, i, DiskOf(w, i).value);
        AppendedFits(w.db.tables[i], DiskOf(w, i).value, TouchedRows(w.log, i));
        SyncedIsOutside(w.db.tables[i], DiskOf(v, i).value, TouchedRows(w.log, i));
      }
    }
  }

  /** An append that could not be cut back parts its own table from the file, and no other. */
  lemma TornAppendDurable(v: World, j: nat, w': World, i: nat)
    requires AppendFailed(v, j, w') && i < |v.db.tables| && |v.paths| == |v.db.tables| && TableDurable(v, i)
    ensures w'.db == v.db && w'.log == v.log && w'.paths == v.paths && TableDurable(w', i)
  {
    hide InStep, FramesFor, TouchedRows, UndoTo;
    if w' != v {
      var m: nat, tear :| m <= |TouchedRows(v.log, j)| && w' == TornAppend(v, j, m, tear);
      if Tracked(w', i) {
        assert i != j && Sole(v, i) && v.paths[j] != v.paths[i];
        assert DiskOf(w', i) == DiskOf(v, i) && Tracked(v, i);
      }
    }
  }

  lemma CommitDoneKeepsDurable(w: World, w': World)
    requires Durable(w) && w' == AppendTables(w, TouchedTables(w.log)).(log := [], active := false, partial := map[])
    ensures Durable(w')
  {
    hide TableDurable, TouchedTables, AppendTables;
    AppendTablesOnlyFiles(w, TouchedTables(w.log));
    forall i | 0 <= i < |w'.db.tables| ensures TableDurable(w', i) {
      CommitDoneDurable(w, w', i);
    }
  }

  lemma CommitFailedKeepsDurable(w: World, w': World, k: nat)
    requires Durable(w) && w.active && CommitFailsAt(w, k, w')
    ensures Durable(w')
  {
    hide TableDurable, TouchedTables, AppendTables, LogFits, AppendFailed;
    FailedCommitShape(w, k, w');
    forall i | 0 <= i < |w'.db.tables| ensures TableDurable(w', i) {
      PartlyWrittenDurable(w, k, i);
      TornAppendDurable(PartlyWritten(w, k), TouchedTables(w.log)[k], w', i);
    }
  }

  lemma CommitKeepsDurable(w: World, w': World, reply: Reply)
    requires Durable(w) && w.active && CommitStep(w, w', reply)
    ensures Durable(w')
  {
    hide Durable, AppendTables;
    if reply.Done? {
      CommitDoneKeepsDurable(w, w');
    } else {
      var k: nat :| CommitFailsAt(w, k, w');
      CommitFailedKeepsDurable(w, w', k);
    }
  }

  /** Undone memory agrees with a half-written file exactly if it shows what the failed commit wrote. */
  lemma HalfWrittenExactly(undone: TableState, written: TableState, disk: Disk)
    requires HalfWritten(undone, written, disk)
    ensures Agrees(undone, disk) <==> Visible(undone) == Visible(written)
  {
    AgreesRowByRow(undone, disk);
    VisibleRowByRow(undone, written);
    if Visible(undone) == Visible(written) {
      forall r ensures RowSynced(undone, disk, r) {
        SyncedShown(written, undone, disk, r);
      }
    }
    if Agrees(undone, disk) {
      forall r: nat ensures SameShown(ViewOf(undone, r), ViewOf(written, r)) {
        assert RowSynced(undone, disk, r) && RowSynced(written, disk, r);
      }
    }
  }

  lemma RollbackKeepsDurable(w: World, w': World)
    requires Durable(w) && RollbackStep(w, w')
    ensures Durable(w')
  {
    UndoToShape(w.db, w.log, 0);
    forall i | 0 <= i < |w.db.tables| ensures TableDurable(w', i) {
      assert TableDurable(w, i);
      if Tracked(w', i) {
        assert Sole(w, i);
        var u, disk := w'.db.tables[i], DiskOf(w, i).value;
        if i in w.partial {
          VisibleRowByRow(u, w.partial[i]);
          SyncedAllShown(w.partial[i], u, disk);
        }
        SyncedIsOutside(u, disk, []);
      }
    }
  }

  /** A table installed at the end of the catalog, or in the place of another, leaves the others alone. */
  lemma InstallKeepsDurable(w: World, name: string, t: TableState, path: Option<Path>, w': World)
    requires Durable(w) && t.Valid() && (w.active ==> name !in w.db.names)
    requires var n := FkGraphs.PutAt(w.db, name);
      && w' == w.(db := FkGraphs.Put(w.db, name, t), paths := if n < |w.paths| then w.paths[n := path] else w.paths + [path],
                  diverged := w'.diverged, latched := w'.latched)
      && w.diverged + Sharers(w, n) - {n} <= w'.diverged
      && (path.Some? && path.value in w.files ==> HeaderOk(t.schema) && (n in w'.diverged || JustLoaded(t, w.files[path.value])))
    ensures Durable(w')
  {
    hide TableDurable, JustLoaded;
    var n := FkGraphs.PutAt(w.db, name);
    if n < |w.db.tables| {
      ReplacedUndone(w, n, t, w');
    } else {
      UndoToAdd(w.db, name, t, w.log, 0);
    }
    UndoToShape(w.db, w.log, 0);
    forall i | 0 <= i < |w'.db.tables| ensures TableDurable(w', i) {
      if i == n {
        NewTableDurable(w', n, t);
      } else {
        OtherTableDurable(w, n, i, w');
      }
    }
  }

  lemma ReplacedUndone(w: World, n: nat, t: TableState, w': World)
    requires Durable(w) && !w.active && n < |w.db.tables| && t.Valid() && w'.db == w.db.With(n, t) && w'.log == w.log
    ensures w.log == [] && w'.db.Valid() && UndoTo(w'.db, w'.log, 0) == w'.db && UndoTo(w.db, w.log, 0) == w.db && w.partial == map[]
    ensures LogFits(w'.db, w'.log)
  {
  }

  /** In sync with the file and of its types. */
  ghost predicate JustLoaded(t: TableState, disk: Disk) {
    Synced(t, disk) && DiskFits(t.schema.types, disk)
  }

  lemma NewTableDurable(w': World, n: nat, t: TableState)
    requires w'.db.Valid() && n < |w'.db.tables| && w'.db.tables[n] == t && n !in w'.partial
    requires n < |UndoTo(w'.db, w'.log, 0).tables| && UndoTo(w'.db, w'.log, 0).tables[n] == t
    requires DiskOf(w', n).Some? ==> HeaderOk(t.schema)
    requires Tracked(w', n) ==> JustLoaded(t, DiskOf(w', n).value)
    ensures TableDurable(w', n)
  {
    if Tracked(w', n) {
      SyncedIsOutside(t, DiskOf(w', n).value, TouchedRows(w'.log, n));
    }
  }

  lemma OtherTableDurable(w: World, n: nat, i: nat, w': World)
    requires |w.paths| == |w.db.tables| && i < |w.db.tables| && i != n && i < |w'.db.tables| && TableDurable(w, i)
    requires w'.db.tables[i] == w.db.tables[i] && w'.log == w.log && w'.files == w.files && w'.partial == w.partial && w'.torn == w.torn
    requires var u, u' := UndoTo(w.db, w.log, 0), UndoTo(w'.db, w'.log, 0); i < |u.tables| ==> i < |u'.tables| && u'.tables[i] == u.tables[i]
    requires |w.paths| <= |w'.paths| && forall j :: 0 <= j < |w.paths| && j != n ==> w'.paths[j] == w.paths[j]
    requires w.diverged + Sharers(w, n) - {n} <= w'.diverged
    ensures TableDurable(w', i)
  {
    if Tracked(w', i) {
      forall j | 0 <= j < |w.paths| && j != i ensures w.paths[j] != w.paths[i] {
        assert n < |w.paths| && w.paths[n] == w.paths[i] ==> i in Sharers(w, n);
        assert j != n ==> w'.paths[j] == w.paths[j];
      }
      assert Tracked(w, i) && DiskOf(w', i) == DiskOf(w, i);
    }
  }

  lemma CheckpointKeepsDurable(w: World, i: nat, w': World, reply: Reply)
    requires Durable(w) && CheckpointStep(w, i, w', reply)
    ensures Durable(w')
  {
    hide Serves, DumpedBase;
    if !reply.Declined() {
      var disk, removed :| w' == Checkpointed(w, i, disk, removed, w'.latched) && CheckpointLeaves(w, i, disk, removed, reply);
      LiveRowsFit(w.db.tables[i].schema.types, w.db.tables[i].rows, w.db.tables[i].dead);
      forall j | 0 <= j < |w'.db.tables| ensures TableDurable(w', j) {
        assert TableDurable(w, j);
        if Tracked(w', j) {
          assert Sole(w, j);
          if j == i {
            CheckpointedDurable(w, i, disk, removed, w');
          } else {
            assert DiskOf(w', j) == DiskOf(w, j);
          }
        }
      }
    }
  }

  lemma CheckpointedDurable(w: World, i: nat, disk: Disk, removed: bool, w': World)
    requires Durable(w) && !w.active && i < |w.db.tables| && DiskOf(w, i).Some? && Sole(w, i)
    requires w' == Checkpointed(w, i, disk, removed, w'.latched) && w'.db.Valid() && i !in w'.diverged
    requires disk == Disk(DumpedBase(w.db.tables[i]), []) || LeftByFailedCheckpoint(w.db.tables[i], DiskOf(w, i).value, disk)
    ensures InStep(w'.db.tables[i], w'.db, i, disk, [], map[])
  {
    hide Serves, Synced;
    var t, was := w.db.tables[i], DiskOf(w, i).value;
    assert TableDurable(w, i);
    CheckpointedSynced(t, was, disk, !Tracked(w, i));
    SyncedIsOutside(Compacted(t), disk, []);
    LiveRowsFit(t.schema.types, t.rows, t.dead);
    DumpFits(t.schema.types, LiveRows(t.rows, t.dead));
  }

  lemma CheckpointedSynced(t: TableState, was: Disk, disk: Disk, diverged: bool)
    requires |t.rows| == |t.dead| && (!diverged ==> Synced(t, was))
    requires LeftByFailedCheckpoint(t, was, disk)
    requires disk == Disk(Compacted(t).rows, []) || (Serves(t, was, disk) && !diverged)
    ensures Synced(Compacted(t), disk)
  {
    if disk == Disk(Compacted(t).rows, []) {
      NewBaseSyncs(t);
    } else {
      FailedCheckpointExactly(t, was, disk);
    }
  }

  /** The row that a latched INSERT leaves is nobody else's. */
  lemma LatchedKeepsDurable(w: World, s: Dml, w': World, reply: Reply)
    requires Durable(w) && HitsLatch(w, s) && LatchedStep(w, s, w', reply)
    ensures Durable(w')
  {
    hide InStep;
    if w' != w {
      var i := w.db.Find(s.table).value;
      assert TableDurable(w, i) && DiskOf(w', i) == DiskOf(w, i);
      var t := w.db.tables[i].AppendNull();
      LogFitsWith(w.db, i, t, w.log);
      UndoToShape(w.db, w.log, 0);
      UndoToShape(w'.db, w.log, 0);
      forall j | 0 <= j < |w'.db.tables| ensures TableDurable(w', j) {
        if j == i {
          DivergedIsDurable(w', i);
        } else {
          UndoToElsewhere(w.db, w'.db, w.log, 0, j);
          UnmovedTableDurable(w, j, w');
        }
      }
    }
  }

  lemma DivergedIsDurable(w: World, i: nat)
    requires i < |w.db.tables| && i in w.diverged && (DiskOf(w, i).Some? ==> HeaderOk(w.db.tables[i].schema))
    ensures TableDurable(w, i)
  {
  }

  lemma UnmovedTableDurable(w: World, j: nat, w': World)
    requires j < |w.db.tables| == |w'.db.tables| && TableDurable(w, j)
    requires w'.db.tables[j] == w.db.tables[j] && w'.log == w.log && w'.files == w.files && w'.partial == w.partial && w'.paths == w.paths && w'.torn == w.torn
    requires w.diverged <= w'.diverged
    requires var u, u' := UndoTo(w.db, w.log, 0), UndoTo(w'.db, w'.log, 0); j < |u.tables| ==> j < |u'.tables| && u'.tables[j] == u.tables[j]
    ensures TableDurable(w', j)
  {
    assert Sole(w', j) ==> Sole(w, j);
    assert DiskOf(w', j) == DiskOf(w, j);
  }

  lemma QueryKeepsDurable(w: World, s: Dml, env: Env, w': World, reply: Reply)
    requires Durable(w) && w.active && QueryStep(w, s, env, w', reply)
    ensures Durable(w') && w'.active
  {
    hide TableDurable;
    if HitsLatch(w, s) {
      LatchedKeepsDurable(w, s, w', reply);
    } else {
      DmlKeepsDurable(w, s, env, w', reply);
    }
  }

  lemma AutoKeepsDurable(w: World, s: Dml, env: Env, mid: World, r: Reply, w': World, reply: Reply)
    requires Durable(w) && !w.active && AutoStep(w, s, env, mid, r, w', reply)
    ensures Durable(w')
  {
    hide TableDurable, QueryStep;
    BeginKeepsDurable(w);
    QueryKeepsDurable(Opened(w), s, env, mid, r);
    if r.Done? {
      CommitKeepsDurable(mid, w', reply);
    } else {
      RollbackKeepsDurable(mid, w');
    }
  }

  lemma CreateKeepsDurable(w: World, name: string, defs: seq<ColumnDef>, w': World)
    requires Durable(w) && CreateTable(w.db, name, defs).Ok?
    requires w' == w.(db := CreateTable(w.db, name, defs).value, paths := w.paths + [None])
    ensures Durable(w')
  {
    hide TableDurable;
    CreatedTable(w.db, name, defs);
    InstallKeepsDurable(w, name, TableState(SchemaOf(defs), [], []), None, w');
  }

  lemma LoadKeepsDurable(w: World, s: Stmt, w': World, reply: Reply)
    requires Durable(w) && s.Load? && Step(w, s, w', reply) && !reply.Declined()
    ensures Durable(w')
  {
    hide TableDurable, Synced, Recover, ReplayedInPart, DiskFits, HeaderOk, Accepts;
    var t := LoadedIsValid(w, s, w', reply);
    LoadSyncs(s.schema, w.files[s.path]);
    LoadableBase(w, s.name, s.schema, s.path);
    InstallKeepsDurable(w, s.name, t, Some(s.path), w');
  }

  lemma StepKeepsDurable(w: World, s: Stmt, w': World, reply: Reply)
    requires Durable(w) && Step(w, s, w', reply)
    ensures Durable(w')
  {
    hide TableDurable, CanLoad, InstalledInPart;
    match s {
      case Begin =>
        if !w.active {
          BeginKeepsDurable(w);
        }
      case Rollback =>
        if w.active {
          RollbackKeepsDurable(w, w');
        }
      case Commit =>
        if w.active {
          CommitKeepsDurable(w, w', reply);
        }
      case Query(dml, env) =>
        if w.active {
          QueryKeepsDurable(w, dml, env, w', reply);
        } else {
          var mid, r :| AutoStep(w, dml, env, mid, r, w', reply);
          AutoKeepsDurable(w, dml, env, mid, r, w', reply);
        }
      case Create(name, defs) =>
        if reply.Done? {
          CreateKeepsDurable(w, name, defs, w');
        }
      case Load(name, schema, path) =>
        if !reply.Declined() {
          LoadKeepsDurable(w, s, w', reply);
        }
      case Checkpoint(i) =>
        CheckpointKeepsDurable(w, i, w', reply);
    }
  }

  lemma BeginKeepsDurable(w: World)
    requires Durable(w) && !w.active
    ensures Durable(Opened(w))
  {
    forall i | 0 <= i < |w.db.tables| ensures TableDurable(Opened(w), i) {
      assert TableDurable(w, i) && (Sole(Opened(w), i) ==> Sole(w, i)) && DiskOf(Opened(w), i) == DiskOf(w, i);
    }
  }

  /** The invariant over every run: loads, statements, transactions, failed commits, checkpoints, and their failures. */
  lemma {:induction false} RunsKeepDurable(start: World, run: seq<Event>)
    requires Durable(start) && IsRun(start, run)
    ensures Durable(StateAfter(start, run))
  {
    if run != [] {
      var rest, e := run[..|run| - 1], run[|run| - 1];
      RunsKeepDurable(start, rest);
      StepKeepsDurable(StateAfter(start, rest), e.stmt, e.after, e.reply);
    }
  }

  lemma FreshIsDurable(files: map<Path, Disk>)
    ensures Durable(Fresh(files))
  {
  }

  /******* The theorems *******/

  /**
   Over every run, at every point: a reload of a tracked table shows what ROLLBACK would leave, plus
   one live all-NULL row per phantom row number, exactly if no commit of the open transaction
   failed after writing rows of the table that ROLLBACK takes back. A rollback marks just those tables.
   */
  lemma ReloadExactly(files: map<Path, Disk>, run: seq<Event>, i: nat)
    requires IsRun(Fresh(files), run)
    requires var w := StateAfter(Fresh(files), run); i < |w.db.tables| && Tracked(w, i)
    ensures var w := StateAfter(Fresh(files), run); var back := RolledBack(w);
      && i < |back.db.tables|
      && (Agrees(back.db.tables[i], DiskOf(w, i).value) <==> (i in w.partial ==> Visible(back.db.tables[i]) == Visible(w.partial[i])))
      && (Agrees(back.db.tables[i], DiskOf(w, i).value) <==> i !in back.diverged)
  {
    FreshIsDurable(files);
    RunsKeepDurable(Fresh(files), run);
    var w := StateAfter(Fresh(files), run);
    assert TableDurable(w, i);
    var u, disk := UndoTo(w.db, w.log, 0).tables[i], DiskOf(w, i).value;
    if i in w.partial {
      HalfWrittenExactly(u, w.partial[i], disk);
    } else {
      SyncedRecovery(u, disk);
    }
  }

  /** Durability: with no transaction open a reload of a tracked table shows the visible memory state and the phantoms. */
  lemma Durability(files: map<Path, Disk>, run: seq<Event>, i: nat)
    requires IsRun(Fresh(files), run)
    requires var w := StateAfter(Fresh(files), run); !w.active && i < |w.db.tables| && Tracked(w, i)
    ensures var w := StateAfter(Fresh(files), run); Agrees(w.db.tables[i], DiskOf(w, i).value)
  {
    FreshIsDurable(files);
    RunsKeepDurable(Fresh(files), run);
    ReloadExactly(files, run, i);
  }

  /**
   The next session, after a crash or an orderly end: with the same files, and whatever it has loaded so far, it can
   load a tracked file exactly if the base has a row, the tables referred to are there, and the base
   rows, not the logged ones, have good keys and find their references. If it does it sees
   what ROLLBACK would have left, on the condition of ReloadExactly.
   */
  lemma RestartShowsRolledBack(files: map<Path, Disk>, run: seq<Event>, i: nat, next: World, name: string)
    requires IsRun(Fresh(files), run)
    requires var w := StateAfter(Fresh(files), run); i < |w.db.tables| && Tracked(w, i) && next.files == w.files && next.db.Valid()
    ensures var w := StateAfter(Fresh(files), run); BaseFits(w.db.tables[i].schema, DiskOf(w, i).value.base)
    ensures var w := StateAfter(Fresh(files), run);
      var schema, base := w.db.tables[i].schema, DiskOf(w, i).value.base;
      (exists after :: Step(next, Load(name, schema, w.paths[i].value), after, Done(0))) <==>
        && !(next.active && name in next.db.names) && base != []
        && FkGraphs.ReferencesAllowed(next.db, name, schema) && GoodBase(next.db, schema, base)
    ensures var w := StateAfter(Fresh(files), run);
      forall after, n :: Step(next, Load(name, w.db.tables[i].schema, w.paths[i].value), after, Done(n)) ==>
        var at := FkGraphs.PutAt(next.db, name);
        i < |RolledBack(w).db.tables| && at < |after.db.tables| && ShownAfterRestart(w, i, after.db.tables[at])
  {
    hide Visible, Phantoms, Recover, UndoTo, IsRun, Sole, BaseAccepted, GoodBase, FkGraphs.ReferencesAllowed;
    var w := StateAfter(Fresh(files), run);
    var schema, path, disk := w.db.tables[i].schema, w.paths[i].value, DiskOf(w, i).value;
    ReloadExactly(files, run, i);
    TrackedFits(files, run, i);
    BaseAcceptedExactly(next.db, schema, disk.base);
    if CanLoad(next, name, schema, path) {
      assert Step(next, Load(name, schema, path), Installed(next, name, Recover(schema, disk), path), Done(0));
    }
    PhantomsAreNew(RolledBack(w).db.tables[i], disk);
  }

  /** The first load of a session, for a table without foreign keys. */
  lemma FirstLoadExactly(files: map<Path, Disk>, run: seq<Event>, i: nat, name: string)
    requires IsRun(Fresh(files), run)
    requires var w := StateAfter(Fresh(files), run); i < |w.db.tables| && Tracked(w, i)
    requires var s := StateAfter(Fresh(files), run).db.tables[i].schema; forall c :: 0 <= c < |s.fks| ==> s.fks[c].None?
    ensures var w := StateAfter(Fresh(files), run); BaseFits(w.db.tables[i].schema, DiskOf(w, i).value.base)
    ensures var w := StateAfter(Fresh(files), run);
      var schema, base := w.db.tables[i].schema, DiskOf(w, i).value.base;
      (exists after :: Step(Fresh(w.files), Load(name, schema, w.paths[i].value), after, Done(0))) <==>
        base != [] && (schema.pk.Some? ==> GoodKeys(base, schema.pk.value))
  {
    hide Step, IsRun, GoodKeys, Sole;
    var w := StateAfter(Fresh(files), run);
    RestartShowsRolledBack(files, run, i, Fresh(w.files), name);
  }

  /** The reloaded table shows the rolled-back one and the phantoms, exactly unless a half-failed commit is taken back. */
  ghost predicate ShownAfterRestart(w: World, i: nat, reloaded: TableState)
    requires i < |RolledBack(w).db.tables| && DiskOf(w, i).Some?
  {
    var u := RolledBack(w).db.tables[i];
    Visible(reloaded) == Visible(u) + Phantoms(u, DiskOf(w, i).value) <==> (i in w.partial ==> Visible(u) == Visible(w.partial[i]))
  }

  lemma PhantomsAreNew(mem: TableState, disk: Disk)
    ensures Visible(mem).Keys !! Phantoms(mem, disk).Keys
  {
  }

  lemma TrackedFits(files: map<Path, Disk>, run: seq<Event>, i: nat)
    requires IsRun(Fresh(files), run)
    requires var w := StateAfter(Fresh(files), run); i < |w.db.tables| && Tracked(w, i)
    ensures var w := StateAfter(Fresh(files), run);
      && w.db.tables[i].schema.Valid() && HeaderOk(w.db.tables[i].schema) && DiskFits(w.db.tables[i].schema.types, DiskOf(w, i).value)
      && i < |RolledBack(w).db.tables| && RolledBack(w).db.tables[i].schema == w.db.tables[i].schema
  {
    FreshIsDurable(files);
    RunsKeepDurable(Fresh(files), run);
    var w := StateAfter(Fresh(files), run);
    assert TableDurable(w, i);
    UndoToShape(w.db, w.log, 0);
  }
}
