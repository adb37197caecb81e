/**
 What a session promises its user: how a statement answers and what it leaves, what BEGIN, COMMIT
 and ROLLBACK bracket, and that a session in which nothing failed has its tables on disk.
 */
module Transactions {
  import opened Values
  import opened TableStates
  import opened Catalogs
  import opened Constraints
  import opened Statements
  import opened Dumps
  import opened Frames
  import opened Loads
  import opened Sessions
  import opened Durability
  import FkGraphs

  /******* One statement *******/

  /** Inside a transaction or not: it is done as Run says and counted, or rejected for the reason Run gives without visible change, or its commit fails. */
  ghost predicate Answered(w: World, s: Dml, env: Env, w': World, reply: Reply)
    requires w.db.Valid()
  {
    match reply
    case Done(changes) => Run(w.db, s, env) == Ok(Effect(w'.db, changes)) && w'.active == w.active
    case Rejected(e) =>
      && (e == OutOfMemory || Run(w.db, s, env) == Err(e))
      && DeadExt(w.db, w'.db) && w'.active == w.active && w'.log == w.log && w'.files == w.files
    case CommitFailed => !w.active && w'.active && exists n :: Run(w.db, s, env) == Ok(Effect(w'.db, n))
    case _ => false
  }

  lemma QueryIsAnswered(w: World, s: Dml, env: Env, w': World, reply: Reply)
    requires WellFormed(w) && !HitsLatch(w, s) && Step(w, Query(s, env), w', reply)
    ensures Answered(w, s, env, w', reply)
  {
    hide Run, CommitFailsAt;
    if w.active {
      DmlWellFormed(w, s, env, w', reply);
    } else {
      var mid, r :| AutoStep(w, s, env, mid, r, w', reply);
      AutoIsAnswered(w, s, env, mid, r, w', reply);
    }
  }

  lemma AutoIsAnswered(w: World, s: Dml, env: Env, mid: World, r: Reply, w': World, reply: Reply)
    requires WellFormed(w) && !w.active && !HitsLatch(w, s) && AutoStep(w, s, env, mid, r, w', reply)
    ensures Answered(w, s, env, w', reply)
  {
    hide Run, TouchedTables, AppendTables;
    assert !HitsLatch(Opened(w), s);
    DmlWellFormed(Opened(w), s, env, mid, r);
    if r.Done? {
      if reply.Done? {
        AppendTablesOnlyFiles(mid, TouchedTables(mid.log));
      } else {
        var k: nat :| CommitFailsAt(mid, k, w');
        FailedCommitShape(mid, k, w');
      }
    } else {
      assert mid.log == [] && UndoTo(mid.db, [], 0) == mid.db;
    }
  }

  /******* BEGIN to ROLLBACK, BEGIN to COMMIT *******/

  lemma {:induction false} RunFrom(start: World, run: seq<Event>, k: nat)
    requires IsRun(start, run) && k <= |run| && StateAfter(start, run[..k]).db.Valid()
    ensures IsRun(StateAfter(start, run[..k]), run[k..])
    ensures StateAfter(StateAfter(start, run[..k]), run[k..]) == StateAfter(start, run)
    decreases |run|
  {
    hide Step;
    if k == |run| {
      assert run[..k] == run && run[k..] == [];
    } else {
      var rest := run[..|run| - 1];
      assert rest[..k] == run[..k];
      RunFrom(start, rest, k);
      assert run[k..][..|run| - k - 1] == rest[k..];
    }
  }

  lemma LastStep(start: World, run: seq<Event>)
    requires IsRun(start, run) && run != []
    ensures var n := |run| - 1;
      && IsRun(start, run[..n]) && StateAfter(start, run[..n]).db.Valid()
      && Step(StateAfter(start, run[..n]), run[n].stmt, run[n].after, run[n].reply)
  {
    hide Step;
  }

  /** The run begins with BEGIN outside a transaction, and nothing ends the transaction before its last event. */
  ghost predicate Bracketed(start: World, run: seq<Event>) {
    && start.db.Valid() && !start.active && |run| >= 2 && IsRun(start, run) && run[0].stmt.Begin?
    && WithinTransaction(run[0].after, run[1..|run| - 1])
  }

  lemma OpenedByBegin(start: World, run: seq<Event>)
    requires Bracketed(start, run)
    ensures run[0].reply.Done? && run[0].after == Opened(start)
    ensures var n := |run| - 1; IsRun(Opened(start), run[1..n]) && StateAfter(start, run[..n]) == StateAfter(Opened(start), run[1..n])
  {
    hide WithinTransaction;
    var n := |run| - 1;
    LastStep(start, run);
    FirstEvent(start, run);
    assert run[..n][..1] == run[..1] && run[..n][1..] == run[1..n];
    RunFrom(start, run[..n], 1);
  }

  /** What undoing would leave just before the last event: the tables of the start, and later ones as they came. */
  lemma {:induction false} BracketOpens(start: World, run: seq<Event>) returns (origins: seq<TableState>)
    requires Bracketed(start, run)
    ensures run[0].reply.Done? && UndoesTo(StateAfter(start, run[..|run| - 1]), origins)
    ensures |start.db.tables| <= |origins| && origins[..|start.db.tables|] == start.db.tables
  {
    hide UndoesTo, IsRun, StateAfter, WithinTransaction;
    OpenedByBegin(start, run);
    TransactionIsUndoable(Opened(start), run[1..|run| - 1]);
    origins := Origins(Opened(start), run[1..|run| - 1]);
  }

  lemma {:induction false} FirstEvent(start: World, run: seq<Event>)
    requires IsRun(start, run) && run != []
    ensures Step(start, run[0].stmt, run[0].after, run[0].reply) && StateAfter(start, run[..1]) == run[0].after
  {
    hide Step;
    if |run| > 1 {
      FirstEvent(start, run[..|run| - 1]);
    } else {
      assert run[..0] == [];
    }
  }

  lemma RollbackShows(before: World, w: World, origins: seq<TableState>)
    requires UndoesTo(before, origins) && RollbackStep(before, w)
    ensures |w.db.tables| == |origins| && !w.active && w.log == []
    ensures forall i :: 0 <= i < |origins| ==> Visible(w.db.tables[i]) == Visible(origins[i])
  {
    hide Visible;
    forall i | 0 <= i < |origins| ensures Visible(w.db.tables[i]) == Visible(origins[i]) {
      TableExtIsInvisible(origins[i], w.db.tables[i]);
    }
  }

  /** BEGIN, statements, ROLLBACK: every table shows what it showed before BEGIN, and the transaction is over. */
  lemma BeginToRollback(start: World, run: seq<Event>)
    requires Bracketed(start, run) && run[|run| - 1].stmt.Rollback?
    ensures var w := StateAfter(start, run);
      && run[0].reply.Done? && run[|run| - 1].reply.Done? && !w.active && w.log == [] && |start.db.tables| <= |w.db.tables|
      && forall i :: 0 <= i < |start.db.tables| ==> Visible(w.db.tables[i]) == Visible(start.db.tables[i])
  {
    hide Visible, UndoesTo, WithinTransaction, RollbackStep;
    var n := |run| - 1;
    var origins := BracketOpens(start, run);
    LastStep(start, run);
    var before := StateAfter(start, run[..n]);
    UndoableShape(before, origins);
    assert forall i :: 0 <= i < |start.db.tables| ==> origins[..|start.db.tables|][i] == origins[i];
    RollbackShows(before, run[n].after, origins);
  }

  /** BEGIN, statements, COMMIT: if it is answered with success memory stays as it was and the transaction is over, otherwise it is still open. */
  lemma BeginToCommit(start: World, run: seq<Event>)
    requires Bracketed(start, run) && run[|run| - 1].stmt.Commit?
    ensures var before, w, reply := StateAfter(start, run[..|run| - 1]), StateAfter(start, run), run[|run| - 1].reply;
      && (reply.Done? || reply.CommitFailed?) && w.db == before.db
      && (reply.Done? ==> !w.active && w.log == []) && (reply.CommitFailed? ==> w.active && w.log == before.log)
  {
    hide UndoesTo, TouchedTables, AppendTables, CommitFailsAt;
    var n := |run| - 1;
    var origins := BracketOpens(start, run);
    LastStep(start, run);
    var before := StateAfter(start, run[..n]);
    UndoableShape(before, origins);
    if run[n].reply.Done? {
      AppendTablesOnlyFiles(before, TouchedTables(before.log));
    } else {
      var k: nat :| CommitFailsAt(before, k, run[n].after);
      FailedCommitShape(before, k, run[n].after);
    }
  }

  /******* One load, one checkpoint *******/

  /** A load that succeeds puts exactly what the file gives under the name, with no failure recorded on it, and touches nothing else. */
  lemma LoadMeans(w: World, name: string, schema: Schema, path: Path, w': World, changes: nat)
    requires WellFormed(w) && Step(w, Load(name, schema, path), w', Done(changes))
    ensures name in w'.db.names
    ensures var n := w'.db.Find(name).value;
      && path in w.files && n < |w'.paths| && w'.paths[n] == Some(path) && w'.db.tables[n] == Recover(schema, w.files[path])
      && n !in w'.latched && n !in w'.diverged && w'.files == w.files && w'.log == w.log && w'.active == w.active
      && (forall j :: 0 <= j < |w.db.tables| && j != n ==> w'.db.tables[j] == w.db.tables[j] && w'.paths[j] == w.paths[j] && w'.db.names[j] == w.db.names[j])
      && (|w'.db.tables| == |w.db.tables| || n == |w.db.tables| == |w'.db.tables| - 1)
  {
    hide Recover, Accepts, DiskFits;
    var n := FkGraphs.PutAt(w.db, name);
    assert w'.db.names[n] == name && name !in w'.db.names[..n];
    assert w'.db.Find(name) == Some(n);
  }

  /** A completed checkpoint leaves the live rows in order without tombstones, in memory and in a base file without a log. */
  lemma CheckpointMeans(w: World, i: nat, w': World, changes: nat)
    requires WellFormed(w) && Step(w, Checkpoint(i), w', Done(changes))
    ensures !w.active && i < |w.db.tables| && DiskOf(w, i).Some? && i < |w'.db.tables|
    ensures var t, t' := w.db.tables[i], w'.db.tables[i];
      && t'.schema == t.schema && t'.rows == LiveRows(t.rows, t.dead) && |t'.dead| == |t'.rows| && (forall r :: 0 <= r < |t'.dead| ==> !t'.dead[r])
      && DiskOf(w', i) == Some(Disk(DumpedRows(LiveRows(t.rows, t.dead)), [])) && w'.paths == w.paths
      && (forall j :: 0 <= j < |w.db.tables| && j != i ==> w'.db.tables[j] == w.db.tables[j])
      && (forall path :: path in w.files && w.paths[i] != Some(path) ==> path in w'.files && w'.files[path] == w.files[path])
  {
    hide LiveRows, DumpedRows, Serves;
  }

  /******* A session in which nothing failed *******/

  /**
   An event after which every loaded table is still the only one of its file and has all of it: no COMMIT, checkpoint
   or load failed in part, no file is loaded twice, and no checkpoint meets a cell that a dump does not keep.
   */
  ghost predicate Ordinary(w: World, e: Event) {
    && !HitsLatchedTable(w, e.stmt) && !(e.reply.CommitFailed? || e.reply.CheckpointFailed? || e.reply.LoadedInPart?)
    && (e.stmt.Load? && !e.reply.Declined() ==> Some(e.stmt.path) !in w.paths)
    && (e.stmt.Checkpoint? && !e.reply.Declined() ==> AllStorable(w, e.stmt.table))
  }

  ghost predicate AllStorable(w: World, i: nat) {
    i < |w.db.tables| && forall r: nat :: ViewOf(w.db.tables[i], r).Present? ==> StorableRow(w.db.tables[i].rows[r])
  }

  ghost predicate OrdinaryRun(start: World, run: seq<Event>) {
    forall k :: 0 <= k < |run| ==> Ordinary(StateAfter(start, run[..k]), run[k])
  }

  ghost predicate Undisturbed(w: World) {
    && w.diverged == {} && w.torn == {} && w.partial == map[]
    && forall j, k :: 0 <= j < k < |w.paths| && w.paths[j].Some? ==> w.paths[j] != w.paths[k]
  }

  lemma NothingTakenBack(w: World)
    requires w.partial == map[]
    ensures TakenBack(w) == {}
  {
  }

  lemma CommitUndisturbed(w: World, w': World, reply: Reply)
    requires Undisturbed(w) && CommitStep(w, w', reply) && !reply.CommitFailed?
    ensures Undisturbed(w')
  {
    AppendTablesOnlyFiles(w, TouchedTables(w.log));
  }

  lemma QueryUndisturbed(w: World, s: Dml, env: Env, w': World, reply: Reply)
    requires Undisturbed(w) && w.db.Valid() && !HitsLatch(w, s) && Step(w, Query(s, env), w', reply) && !reply.CommitFailed?
    ensures Undisturbed(w')
  {
    hide Run, Undoes, TouchedTables, AppendTables;
    if !w.active {
      var mid, r :| AutoStep(w, s, env, mid, r, w', reply);
      assert !HitsLatch(Opened(w), s);
      if r.Done? {
        CommitUndisturbed(mid, w', reply);
      } else {
        NothingTakenBack(mid);
      }
    }
  }

  lemma CheckpointUndisturbed(w: World, i: nat, w': World, reply: Reply)
    requires Undisturbed(w) && w.db.Valid() && CheckpointStep(w, i, w', reply) && !reply.CheckpointFailed?
    requires !reply.Declined() ==> AllStorable(w, i)
    ensures Undisturbed(w')
  {
    hide StorableRow, Serves, Compacted, DumpedBase;
    if !reply.Declined() {
      CheckpointExactly(w.db.tables[i]);
    }
  }

  lemma LoadUndisturbed(w: World, name: string, schema: Schema, path: Path, w': World, reply: Reply)
    requires Undisturbed(w) && w.db.Valid() && |w.paths| == |w.db.tables| && LoadStep(w, name, schema, path, w', reply)
    requires !reply.LoadedInPart? && (!reply.Declined() ==> Some(path) !in w.paths)
    ensures Undisturbed(w')
  {
    hide Recover, Accepts;
  }

  lemma StepUndisturbed(w: World, e: Event)
    requires Undisturbed(w) && w.db.Valid() && |w.paths| == |w.db.tables| && Step(w, e.stmt, e.after, e.reply) && Ordinary(w, e)
    ensures Undisturbed(e.after)
  {
    hide Undisturbed, CommitStep, LoadStep, CheckpointStep, QueryStep, AutoStep, CreateTable, AllStorable;
    match e.stmt {
      case Begin => OpenedUndisturbed(w);
      case Commit =>
        if w.active {
          CommitUndisturbed(w, e.after, e.reply);
        }
      case Rollback =>
        if w.active {
          RollbackUndisturbed(w, e.after);
        }
      case Query(s, env) => QueryUndisturbed(w, s, env, e.after, e.reply);
      case Create(_, _) => CreateUndisturbed(w, e.after);
      case Load(name, schema, path) => LoadUndisturbed(w, name, schema, path, e.after, e.reply);
      case Checkpoint(i) => CheckpointUndisturbed(w, i, e.after, e.reply);
    }
  }

  lemma OpenedUndisturbed(w: World)
    requires Undisturbed(w)
    ensures Undisturbed(Opened(w))
  {
  }

  lemma RollbackUndisturbed(w: World, w': World)
    requires Undisturbed(w) && RollbackStep(w, w')
    ensures Undisturbed(w')
  {
    NothingTakenBack(w);
  }

  lemma CreateUndisturbed(w: World, w': World)
    requires Undisturbed(w) && (w' == w || w' == w.(db := w'.db, paths := w.paths + [None]))
    ensures Undisturbed(w')
  {
  }

  lemma {:induction false} OrdinaryRunIsUndisturbed(files: map<Path, Disk>, run: seq<Event>)
    requires IsRun(Fresh(files), run) && OrdinaryRun(Fresh(files), run)
    ensures Undisturbed(StateAfter(Fresh(files), run))
  {
    hide Step, Ordinary, Durable;
    if run != [] {
      var rest, e := run[..|run| - 1], run[|run| - 1];
      forall k | 0 <= k < |rest| ensures rest[..k] == run[..k] {
      }
      OrdinaryRunIsUndisturbed(files, rest);
      FreshIsDurable(files);
      RunsKeepDurable(Fresh(files), rest);
      DurableShape(StateAfter(Fresh(files), rest));
      assert Ordinary(StateAfter(Fresh(files), rest), e);
      StepUndisturbed(StateAfter(Fresh(files), rest), e);
    }
  }

  lemma DurableShape(w: World)
    requires Durable(w)
    ensures w.db.Valid() && |w.paths| == |w.db.tables|
  {
  }

  /** Then, whenever no transaction is open, every loaded table shows what a reload of its file would, but for the phantoms. */
  lemma OrdinaryRunsAreDurable(files: map<Path, Disk>, run: seq<Event>, i: nat)
    requires IsRun(Fresh(files), run) && OrdinaryRun(Fresh(files), run)
    requires var w := StateAfter(Fresh(files), run); !w.active && i < |w.db.tables| && DiskOf(w, i).Some?
    ensures var w := StateAfter(Fresh(files), run); Agrees(w.db.tables[i], DiskOf(w, i).value)
  {
    hide IsRun, OrdinaryRun, Agrees;
    OrdinaryRunIsUndisturbed(files, run);
    Durability.Durability(files, run, i);
  }

  /** Without a load, and without an INSERT that meets a recorded allocation failure, nothing breaks integrity. */
  lemma IntegrityWithoutLoads(files: map<Path, Disk>, run: seq<Event>)
    requires IsRun(Fresh(files), run)
    requires forall k :: 0 <= k < |run| ==> !run[k].stmt.Load? && !HitsLatchedTable(StateAfter(Fresh(files), run[..k]), run[k].stmt)
    ensures Integrity(StateAfter(Fresh(files), run).db)
  {
    hide IsRun, StateAfter, Integrity, HitsLatchedTable;
    forall k | 0 <= k < |run| ensures PlainEvent(StateAfter(Fresh(files), run[..k]), run[k]) {
    }
    RunsKeepIntegrity(files, run);
  }
}
