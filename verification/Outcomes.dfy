/**
 How the pieces of a statement move the session: one row of an INSERT, an UPDATE or a
 DELETE, and the loops over rows. The lemmas add the pieces up to one step of Sessions.
 */
module Outcomes {
  import opened Values
  import opened TableStates
  import opened Expressions
  import opened Catalogs
  import opened Constraints
  import opened Statements
  import opened Frames
  import opened Loads
  import opened Sessions
  import FkGraphs

  /** Nothing but the catalog, the log and the recorded failures changed. */
  predicate Moved(w: World, w': World) {
    w' == w.(db := w'.db, log := w'.log, latched := w'.latched) && w.latched <= w'.latched
  }

  /** What becomes of a row appended to base: kept and logged, or tombstoned with an error. full is base with the row filled in. */
  ghost predicate RowOutcome(base: Db, i: nat, full: Db, w: World, e: Option<Error>, w': World)
    requires i < |base.tables| && full.Valid() && i < |full.tables| && |base.tables[i].rows| < |full.tables[i].rows|
  {
    var row := |base.tables[i].rows|;
    && Moved(w, w')
    && if e.None? then
         w'.db == full && w'.log == w.log + [UndoInsert(i, row)] && RowViolation(full, i, row, 0).None? && i !in w'.latched
       else
         && w'.log == w.log && LeavesDeadRows(base, i, w'.db)
         && (e.value == OutOfMemory || RowViolation(full, i, row, 0) == e)
  }

  /** One row of an INSERT. */
  ghost predicate InsertOutcome(w: World, i: nat, cols: seq<nat>, values: seq<Expr>, env: Env, e: Option<Error>, w': World)
    requires w.db.Valid() && i < |w.db.tables|
  {
    && Moved(w, w')
    && if e.None? then
         && InsertRow(w.db, i, cols, values, env) == Ok(w'.db)
         && w'.log == w.log + [UndoInsert(i, |w.db.tables[i].rows|)] && i !in w'.latched
       else if i in w.latched then
         w'.latched == w.latched && w'.log == w.log && (w'.db == w.db || w'.db == w.db.With(i, w.db.tables[i].AppendNull()))
       else
         && w'.log == w.log && LeavesDeadRows(w.db, i, w'.db)
         && (e.value == OutOfMemory || InsertRow(w.db, i, cols, values, env) == Err(e.value))
  }

  lemma RowOutcomeFrom(base: Db, i: nat, full: Db, w: World, mid: World, e: Option<Error>, w': World)
    requires i < |base.tables| && full.Valid() && i < |full.tables| && |base.tables[i].rows| < |full.tables[i].rows|
    requires Moved(w, mid) && mid.log == w.log && RowOutcome(base, i, full, mid, e, w')
    ensures RowOutcome(base, i, full, w, e, w')
  {
    hide LeavesDeadRows, RowViolation;
  }

  /** A row whose values passed their checks: appending gives mid, settling it gives w'. */
  lemma SettledRowIsInsert(w: World, i: nat, cols: seq<nat>, values: seq<Expr>, env: Env, mid: World, e: Option<Error>, w': World)
    requires w.db.Valid() && i < |w.db.tables| && |values| == |cols| && i !in w.latched
    requires FirstBadValue(values, cols, w.db.tables[i].schema.types, env, 0).None?
    requires Moved(w, mid) && mid.log == w.log
    requires RowOutcome(w.db, i, WithNewRow(w.db, i, cols, ValuesOf(values, NoContext(env))), mid, e, w')
    ensures InsertOutcome(w, i, cols, values, env, e, w')
  {
    hide LeavesDeadRows, RowViolation;
  }

  lemma NothingInserted(w: World, i: nat, cols: seq<nat>, values: seq<Expr>, env: Env, e: Error, w': World)
    requires w.db.Valid() && i < |w.db.tables| && Moved(w, w') && w'.log == w.log
    requires e == OutOfMemory || InsertRow(w.db, i, cols, values, env) == Err(e)
    requires w'.db == w.db || (i in w.latched && w'.db == w.db.With(i, w.db.tables[i].AppendNull()))
    requires i in w.latched ==> w'.latched == w.latched
    ensures InsertOutcome(w, i, cols, values, env, Some(e), w')
  {
    assert w.db.With(i, w.db.tables[i]) == w.db;
  }

  /******* Statements in progress *******/

  /** A statement that began in w has come to v: the log grew, and undoing what it grew by gives back the catalog, up to dead rows. */
  ghost predicate Progress(w: World, v: World) {
    && Moved(w, v) && |v.db.tables| == |w.db.tables|
    && |w.log| <= |v.log| && v.log[..|w.log|] == w.log
    && Undoes(w.db, |w.log|, v.db, v.log)
  }

  lemma ProgressStarts(w: World)
    requires w.db.Valid() && LogFits(w.db, w.log)
    ensures Progress(w, w)
  {
    DeadExtReflexive(w.db);
    assert w.log[..|w.log|] == w.log;
  }

  /** Rolling back to the savepoint ends the statement with the log it began with. */
  lemma ProgressUnwound(w: World, v: World, w': World)
    requires w.db.Valid() && LogFits(w.db, w.log) && Progress(w, v) && v.latched <= w'.latched
    requires w' == v.(db := UndoTo(v.db, v.log, |w.log|), log := v.log[..|w.log|], latched := w'.latched)
    ensures Progress(w, w') && w'.log == w.log
  {
    UndoToShape(v.db, v.log, |w.log|);
    LogFitsExt(w.db, w'.db, w.log);
  }

  /** A logged change of table i whose undoing gives back the catalog, up to dead rows. */
  lemma ProgressByEntry(w: World, v: World, i: nat, t': TableState, e: Undo, v': World)
    requires Progress(w, v) && Moved(v, v') && i < |v.db.tables|
    requires t'.Valid() && t'.schema == v.db.tables[i].schema && |t'.rows| >= |v.db.tables[i].rows|
    requires v'.db == v.db.With(i, t') && v'.log == v.log + [e]
    requires EntryFits(v'.db, e) && DeadExt(v.db, UndoOne(v'.db, e))
    ensures Progress(w, v')
  {
    LogFitsWith(v.db, i, t', v.log);
    UndoesStep(w.db, |w.log|, v.db, v.log, v'.db, e);
  }

  lemma InsertProgress(w: World, v: World, i: nat, cols: seq<nat>, values: seq<Expr>, env: Env, e: Option<Error>, v': World)
    requires Progress(w, v) && v'.db.Valid() && i < |v.db.tables| && i !in v.latched
    requires InsertOutcome(v, i, cols, values, env, e, v')
    ensures Progress(w, v')
  {
    hide DeadExt;
    if e.None? {
      var t' := v'.db.tables[i];
      AppendShape(v.db.tables[i], cols, ValuesOf(values, NoContext(env)));
      InsertIsUndone(v.db, i, t');
      ProgressByEntry(w, v, i, t', UndoInsert(i, |v.db.tables[i].rows|), v');
    } else {
      UndoesDeadRow(w.db, |w.log|, v.db, v.log, i, v'.db.tables[i]);
    }
  }

  /** What an INSERT into table i did: everything, or nothing but dead rows, or the row a recorded failure leaves. */
  ghost predicate InsertDone(w: World, i: nat, cols: seq<nat>, rows: seq<seq<Expr>>, env: Env, e: Option<Error>, w': World)
    requires w.db.Valid() && i < |w.db.tables|
  {
    if i in w.latched && rows != [] then
      e.Some? && (w' == w || w' == w.(db := w.db.With(i, w.db.tables[i].AppendNull())))
    else
      && Progress(w, w')
      && if e.None? then InsertRows(w.db, i, cols, rows, env) == Ok(w'.db)
         else w'.log == w.log && (e.value == OutOfMemory || InsertRows(w.db, i, cols, rows, env) == Err(e.value))
  }

  /** Row r failed: every row before it did not, and the whole statement has the same error. */
  lemma InsertFails(w: World, v: World, i: nat, cols: seq<nat>, rows: seq<seq<Expr>>, env: Env, r: nat, e: Error)
    requires w.db.Valid() && i < |w.db.tables| && r < |rows|
    requires v.db.Valid() && i < |v.db.tables| && InsertRows(w.db, i, cols, rows[..r], env) == Ok(v.db)
    requires InsertRow(v.db, i, cols, rows[r], env) == Err(e)
    ensures InsertRows(w.db, i, cols, rows, env) == Err(e)
  {
    assert rows[..r + 1][..r] == rows[..r];
    InsertErrorSticks(w.db, i, cols, rows, env, r + 1);
  }

  /** After the first r rows of an INSERT, none of which failed. */
  ghost predicate Inserting(w: World, i: nat, cols: seq<nat>, rows: seq<seq<Expr>>, env: Env, r: nat, v: World) {
    && w.db.Valid() && LogFits(w.db, w.log) && i < |w.db.tables| && r <= |rows|
    && v.db.Valid() && Progress(w, v) && InsertRows(w.db, i, cols, rows[..r], env) == Ok(v.db)
    && if r == 0 then v == w else i !in v.latched
  }

  lemma InsertStarts(w: World, i: nat, cols: seq<nat>, rows: seq<seq<Expr>>, env: Env)
    requires w.db.Valid() && LogFits(w.db, w.log) && i < |w.db.tables|
    ensures Inserting(w, i, cols, rows, env, 0, w)
  {
    ProgressStarts(w);
  }

  lemma InsertAdvances(w: World, i: nat, cols: seq<nat>, rows: seq<seq<Expr>>, env: Env, r: nat, v: World, v': World)
    requires Inserting(w, i, cols, rows, env, r, v) && r < |rows|
    requires v'.db.Valid() && InsertOutcome(v, i, cols, rows[r], env, None, v')
    ensures Inserting(w, i, cols, rows, env, r + 1, v')
  {
    hide Undoes, InsertRow;
    assert rows[..r + 1][..r] == rows[..r];
    InsertProgress(w, v, i, cols, rows[r], env, None, v');
  }

  lemma InsertSucceeds(w: World, i: nat, cols: seq<nat>, rows: seq<seq<Expr>>, env: Env, w': World)
    requires Inserting(w, i, cols, rows, env, |rows|, w')
    ensures InsertDone(w, i, cols, rows, env, None, w')
  {
    hide InsertRows, Undoes;
    assert rows[..|rows|] == rows;
  }

  lemma InsertKeepsMark(w: World, i: nat, cols: seq<nat>, rows: seq<seq<Expr>>, env: Env, r: nat, v: World, e: Option<Error>, v': World)
    requires Inserting(w, i, cols, rows, env, r, v) && r < |rows| && InsertOutcome(v, i, cols, rows[r], env, e, v')
    ensures |w.log| <= |v'.log|
  {
    hide InsertRow, Undoes;
  }

  /** The failed INSERT after its rollback. */
  lemma InsertUnwound(w: World, i: nat, cols: seq<nat>, rows: seq<seq<Expr>>, env: Env, r: nat, v: World, e: Error, v': World, w': World)
    requires Inserting(w, i, cols, rows, env, r, v) && r < |rows|
    requires v'.db.Valid() && InsertOutcome(v, i, cols, rows[r], env, Some(e), v') && v'.latched <= w'.latched
    requires w' == v'.(db := UndoTo(v'.db, v'.log, |w.log|), log := v'.log[..|w.log|], latched := w'.latched)
    requires |v'.log| == |w.log| ==> w'.latched == v'.latched
    ensures InsertDone(w, i, cols, rows, env, Some(e), w')
  {
    hide Undoes, InsertRow;
    if i in v.latched {
      assert v'.log[..|w.log|] == w.log;
      UndoToNothing(v'.db, v'.log, |w.log|);
    } else {
      InsertProgress(w, v, i, cols, rows[r], env, Some(e), v');
      ProgressUnwound(w, v', w');
      if e != OutOfMemory {
        InsertFails(w, v, i, cols, rows, env, r, e);
      }
      assert i in w.latched ==> r > 0 && w.latched <= v.latched;
    }
  }

  /******* UPDATE and DELETE *******/

  lemma ProgressTransitive(w: World, v: World, v': World)
    requires Progress(w, v) && Progress(v, v')
    ensures Progress(w, v')
  {
    UndoToSplit(v'.db, v'.log, |w.log|, |v.log|);
    UndoToKeepsExt(v.db, UndoTo(v'.db, v'.log, |v.log|), v.log, |w.log|);
    DeadExtTransitive(w.db, UndoTo(v.db, v.log, |w.log|), UndoTo(v'.db, v'.log, |w.log|));
    assert v'.log[..|v.log|][..|w.log|] == v'.log[..|w.log|];
  }

  /** A statement, or one row of it, that spec says changes n rows or fails with an error. */
  ghost predicate Performed(w: World, spec: Result<Effect, Error>, e: Option<Error>, n: nat, v: World) {
    && Progress(w, v)
    && if e.None? then spec == Ok(Effect(v.db, n)) else e.value == OutOfMemory || spec == Err(e.value)
  }

  lemma PerformedNothing(w: World, spec: Result<Effect, Error>, e: Option<Error>)
    requires w.db.Valid() && LogFits(w.db, w.log)
    requires if e.None? then spec == Ok(Effect(w.db, 0)) else spec == Err(e.value)
    ensures Performed(w, spec, e, 0, w)
  {
    ProgressStarts(w);
  }

  /** The old value of a cell is logged, then the cell written, unless its text found no room. */
  ghost predicate CellChanged(v: World, i: nat, row: nat, c: nat, value: Value, v': World)
    requires i < |v.db.tables| && v.db.tables[i].HasCell(row, c)
  {
    && Moved(v, v') && v'.log == v.log + [UndoUpdate(i, row, c, v.db.tables[i].Cell(row, c))]
    && (v'.db == v.db.With(i, AssignOne(v.db.tables[i], row, c, value)) || (i in v'.latched && v'.db == v.db))
  }

  lemma CellChangeIsUndone(w: World, v: World, i: nat, row: nat, c: nat, value: Value, v': World)
    requires Progress(w, v) && i < |v.db.tables| && row < |v.db.tables[i].rows| && c < |v.db.tables[i].schema.types|
    requires CellChanged(v, i, row, c, value, v')
    ensures Progress(w, v')
  {
    var t := v.db.tables[i];
    var u := if v'.db == v.db then t else AssignOne(t, row, c, value);
    var cell := u.Cell(row, c);
    assert u == t.PutCell(row, c, cell) by {
      assert t.rows[row][c := t.rows[row][c]] == t.rows[row];
      assert t.PutCell(row, c, t.Cell(row, c)).rows == t.rows;
    }
    assert v'.db == v.db.With(i, u);
    UpdateIsUndone(v.db, i, row, c, cell);
    DeadExtReflexive(v.db);
    ProgressByEntry(w, v, i, t.PutCell(row, c, cell), UndoUpdate(i, row, c, t.Cell(row, c)), v');
  }

  /** The first k assignments to one row are logged and made; only that row of that table changed. */
  ghost predicate Assigning(w: World, i: nat, row: nat, cols: seq<nat>, vs: seq<Value>, k: nat, v: World) {
    && w.db.Valid() && i < |w.db.tables| && row < |w.db.tables[i].rows| && k <= |cols| == |vs|
    && Progress(w, v) && i < |v.db.tables|
    && v.db == w.db.With(i, v.db.tables[i]) && OnlyCells(w.db.tables[i], v.db.tables[i], row)
    && (i in v.latched || v.db.tables[i] == AssignAll(w.db.tables[i], row, cols[..k], vs[..k]))
  }

  lemma AssigningStarts(w: World, i: nat, row: nat, cols: seq<nat>, vs: seq<Value>)
    requires w.db.Valid() && LogFits(w.db, w.log) && i < |w.db.tables| && row < |w.db.tables[i].rows| && |cols| == |vs|
    ensures Assigning(w, i, row, cols, vs, 0, w)
  {
    ProgressStarts(w);
    assert w.db.With(i, w.db.tables[i]) == w.db;
  }

  lemma AssigningAdvances(w: World, i: nat, row: nat, cols: seq<nat>, vs: seq<Value>, k: nat, v: World, v': World)
    requires Assigning(w, i, row, cols, vs, k, v) && k < |cols| && cols[k] < |w.db.tables[i].schema.types|
    requires CellChanged(v, i, row, cols[k], vs[k], v')
    ensures Assigning(w, i, row, cols, vs, k + 1, v')
  {
    var t := w.db.tables[i];
    CellChangeIsUndone(w, v, i, row, cols[k], vs[k], v');
    AssignOneOnlyCells(t, v.db.tables[i], row, cols[k], vs[k]);
    AssignAllStep(t, row, cols, vs, k);
    hide Progress, OnlyCells, AssignOne, AssignAll;
  }

  lemma AssigningProgress(w: World, i: nat, row: nat, cols: seq<nat>, vs: seq<Value>, k: nat, v: World)
    requires Assigning(w, i, row, cols, vs, k, v)
    ensures Progress(w, v)
  {
  }

  /** What the checks before the row loop of an UPDATE establish, for any row of the table. */
  ghost predicate UpdateChecked(db: Db, i: nat, cols: seq<nat>, es: seq<Expr>, where: Option<Expr>, env: Env, r: nat) {
    && db.Valid() && i < |db.tables| && |cols| == |es|
    && (forall k :: 0 <= k < |cols| ==>
          cols[k] < |db.tables[i].schema.types| && ExprFits(es[k], RowContext(db, i, r, env), db.tables[i].schema.types[cols[k]]))
    && WhereOk(where, RowContext(db, i, r, env))
  }

  lemma WhereOkOnEveryRow(db: Db, db': Db, i: nat, where: Option<Expr>, env: Env, r: nat, r': nat)
    requires db.Valid() && db'.Valid() && SameShape(db, db') && i < |db.tables| && WhereOk(where, RowContext(db, i, r, env))
    ensures WhereOk(where, RowContext(db', i, r', env))
  {
    if where.Some? {
      InferBySchema(where.value, RowContext(db, i, r, env), RowContext(db', i, r', env));
    }
  }

  lemma UpdateCheckedOnEveryRow(db: Db, db': Db, i: nat, cols: seq<nat>, es: seq<Expr>, where: Option<Expr>, env: Env, r: nat, r': nat)
    requires UpdateChecked(db, i, cols, es, where, env, r) && db'.Valid() && SameShape(db, db')
    ensures UpdateChecked(db', i, cols, es, where, env, r')
  {
    WhereOkOnEveryRow(db, db', i, where, env, r, r');
    forall k | 0 <= k < |cols| ensures ExprFits(es[k], RowContext(db', i, r', env), db'.tables[i].schema.types[cols[k]]) {
      InferBySchema(es[k], RowContext(db, i, r, env), RowContext(db', i, r', env));
    }
  }

  lemma UpdateRowShape(db: Db, i: nat, cols: seq<nat>, es: seq<Expr>, where: Option<Expr>, env: Env, r: nat)
    requires db.Valid() && i < |db.tables| && |cols| == |es| && r < |db.tables[i].rows|
    ensures var u := UpdateRow(db, i, cols, es, where, env, r); u.Ok? ==> u.value.db.Valid() && SameShape(db, u.value.db)
  {
    AssignAllShape(db.tables[i], r, cols, ValuesOf(es, RowContext(db, i, r, env)));
  }

  lemma {:induction false} UpdateErrorSticks(db: Db, i: nat, cols: seq<nat>, es: seq<Expr>, where: Option<Expr>, env: Env, n: nat, m: nat)
    requires db.Valid() && i < |db.tables| && |cols| == |es| && n <= m <= |db.tables[i].rows|
    requires UpdateRows(db, i, cols, es, where, env, n).Err?
    ensures UpdateRows(db, i, cols, es, where, env, m) == UpdateRows(db, i, cols, es, where, env, n)
  {
    hide UpdateRow;
    if n < m {
      UpdateErrorSticks(db, i, cols, es, where, env, n, m - 1);
    }
  }

  /** After the first r rows of an UPDATE, none of which failed; n of them changed. */
  ghost predicate Updating(w: World, i: nat, cols: seq<nat>, es: seq<Expr>, where: Option<Expr>, env: Env, r: nat, n: nat, v: World) {
    && w.db.Valid() && LogFits(w.db, w.log) && i < |w.db.tables| && |cols| == |es| && r <= |w.db.tables[i].rows|
    && v.db.Valid() && SameShape(w.db, v.db)
    && Performed(w, UpdateRows(w.db, i, cols, es, where, env, r), None, n, v)
    && UpdateChecked(w.db, i, cols, es, where, env, 0)
  }

  lemma UpdateStarts(w: World, i: nat, cols: seq<nat>, es: seq<Expr>, where: Option<Expr>, env: Env)
    requires UpdateChecked(w.db, i, cols, es, where, env, 0) && LogFits(w.db, w.log)
    ensures Updating(w, i, cols, es, where, env, 0, 0, w)
  {
    PerformedNothing(w, UpdateRows(w.db, i, cols, es, where, env, 0), None);
  }

  lemma UpdateAdvances(w: World, i: nat, cols: seq<nat>, es: seq<Expr>, where: Option<Expr>, env: Env, r: nat, n: nat, v: World, m: nat, v': World)
    requires Updating(w, i, cols, es, where, env, r, n, v) && r < |w.db.tables[i].rows|
    requires Performed(v, UpdateRow(v.db, i, cols, es, where, env, r), None, m, v')
    ensures Updating(w, i, cols, es, where, env, r + 1, n + m, v')
  {
    hide UpdateRow, Progress, UpdateChecked;
    UpdateRowShape(v.db, i, cols, es, where, env, r);
    ProgressTransitive(w, v, v');
  }

  lemma UpdateFails(w: World, i: nat, cols: seq<nat>, es: seq<Expr>, where: Option<Expr>, env: Env, r: nat, n: nat, v: World, e: Error, v': World)
    requires Updating(w, i, cols, es, where, env, r, n, v) && r < |w.db.tables[i].rows|
    requires Performed(v, UpdateRow(v.db, i, cols, es, where, env, r), Some(e), 0, v')
    ensures Performed(w, UpdateRows(w.db, i, cols, es, where, env, |w.db.tables[i].rows|), Some(e), 0, v')
  {
    hide UpdateRow, Progress, UpdateChecked;
    ProgressTransitive(w, v, v');
    if e != OutOfMemory {
      UpdateErrorSticks(w.db, i, cols, es, where, env, r + 1, |w.db.tables[i].rows|);
    }
  }

  lemma UpdatingChecked(w: World, i: nat, cols: seq<nat>, es: seq<Expr>, where: Option<Expr>, env: Env, r: nat, n: nat, v: World)
    requires Updating(w, i, cols, es, where, env, r, n, v)
    ensures UpdateChecked(v.db, i, cols, es, where, env, r)
  {
    UpdateCheckedOnEveryRow(w.db, v.db, i, cols, es, where, env, 0, r);
  }

  lemma UpdateEnds(w: World, i: nat, cols: seq<nat>, es: seq<Expr>, where: Option<Expr>, env: Env, n: nat, v: World)
    requires i < |w.db.tables| && Updating(w, i, cols, es, where, env, |w.db.tables[i].rows|, n, v)
    ensures Performed(w, UpdateRows(w.db, i, cols, es, where, env, |w.db.tables[i].rows|), None, n, v)
  {
  }

  /** A failed statement after its rollback. */
  lemma FailureUnwound(w: World, spec: Result<Effect, Error>, e: Error, v: World, w': World)
    requires w.db.Valid() && LogFits(w.db, w.log) && Performed(w, spec, Some(e), 0, v) && v.latched <= w'.latched
    requires w' == v.(db := UndoTo(v.db, v.log, |w.log|), log := v.log[..|w.log|], latched := w'.latched)
    ensures Performed(w, spec, Some(e), 0, w') && w'.log == w.log
  {
    ProgressUnwound(w, v, w');
  }

  /** One row of an UPDATE once its cells are changed: the checks on the result decide. */
  lemma RowUpdated(w: World, i: nat, cols: seq<nat>, es: seq<Expr>, where: Option<Expr>, env: Env, r: nat, v: World, e: Option<Error>)
    requires w.db.Valid() && i < |w.db.tables| && |cols| == |es| && r < |w.db.tables[i].rows|
    requires w.db.tables[i].Live(r) && Matches(where, RowContext(w.db, i, r, env))
    requires !(AssignsKey(w.db.tables[i].schema, cols) && Referenced(w.db, i, r))
    requires Assigning(w, i, r, cols, ValuesOf(es, RowContext(w.db, i, r, env)), |cols|, v) && v.db.Valid()
    requires e == Some(OutOfMemory) || (i !in v.latched && e == RowViolation(v.db, i, r, 0))
    ensures Performed(w, UpdateRow(w.db, i, cols, es, where, env, r), e, if e.None? then 1 else 0, v)
  {
    var vs := ValuesOf(es, RowContext(w.db, i, r, env));
    assert cols[..|cols|] == cols && vs[..|cols|] == vs;
    hide Progress, Matches, Referenced, AssignAll, RowViolation, ValuesOf, AssignsKey, OnlyCells;
  }

  lemma PerformedOutOfMemory(w: World, spec: Result<Effect, Error>, v: World)
    requires Progress(w, v)
    ensures Performed(w, spec, Some(OutOfMemory), 0, v)
  {
  }

  /** A row of an UPDATE that does not match, or that is still referenced, is left alone. */
  lemma RowNotUpdated(w: World, i: nat, cols: seq<nat>, es: seq<Expr>, where: Option<Expr>, env: Env, r: nat)
    requires w.db.Valid() && LogFits(w.db, w.log) && i < |w.db.tables| && |cols| == |es| && r < |w.db.tables[i].rows|
    ensures var spec, t := UpdateRow(w.db, i, cols, es, where, env, r), w.db.tables[i];
      var hit := t.Live(r) && Matches(where, RowContext(w.db, i, r, env));
      && (!hit ==> Performed(w, spec, None, 0, w))
      && (hit && AssignsKey(t.schema, cols) && Referenced(w.db, i, r) ==> Performed(w, spec, Some(StillReferenced), 0, w))
  {
    hide Matches, Referenced, AssignsKey, Progress;
    ProgressStarts(w);
  }

  lemma UpdateCheckedHere(db: Db, i: nat, cols: seq<nat>, es: seq<Expr>, where: Option<Expr>, env: Env, r: nat)
    requires UpdateChecked(db, i, cols, es, where, env, r) && r < |db.tables[i].rows|
    ensures WhereOk(where, RowContext(db, i, r, env)) && |cols| == |es|
    ensures forall k :: 0 <= k < |es| ==> Evaluable(es[k], RowContext(db, i, r, env))
    ensures forall k :: 0 <= k < |cols| ==>
      && cols[k] < |db.tables[i].schema.types|
      && Assignable(ValueOf(es[k], RowContext(db, i, r, env)), db.tables[i].schema.types[cols[k]])
  {
    var ctx := RowContext(db, i, r, env);
    forall k | 0 <= k < |cols| ensures Assignable(ValueOf(es[k], ctx), db.tables[i].schema.types[cols[k]]) {
      FittingValueIsAssignable(es[k], ctx, db.tables[i].schema.types[cols[k]]);
    }
  }

  /******* DELETE *******/

  lemma RowDeleted(w: World, i: nat, where: Option<Expr>, env: Env, r: nat, w': World)
    requires w.db.Valid() && LogFits(w.db, w.log) && i < |w.db.tables| && r < |w.db.tables[i].rows|
    requires w.db.tables[i].Live(r) && Matches(where, RowContext(w.db, i, r, env)) && !Referenced(w.db, i, r)
    requires Moved(w, w') && w'.db == w.db.With(i, w.db.tables[i].SetDead(r, true)) && w'.log == w.log + [UndoDelete(i, r)]
    ensures Performed(w, DeleteRow(w.db, i, where, env, r), None, 1, w')
  {
    hide Matches, Referenced;
    ProgressStarts(w);
    DeleteIsUndone(w.db, i, r);
    DeadExtReflexive(w.db);
    ProgressByEntry(w, w, i, w.db.tables[i].SetDead(r, true), UndoDelete(i, r), w');
  }

  /** A row of a DELETE that does not match, that is still referenced or that cannot be logged is left alone. */
  lemma RowNotDeleted(w: World, i: nat, where: Option<Expr>, env: Env, r: nat)
    requires w.db.Valid() && LogFits(w.db, w.log) && i < |w.db.tables| && r < |w.db.tables[i].rows|
    ensures var spec := DeleteRow(w.db, i, where, env, r);
      var hit := w.db.tables[i].Live(r) && Matches(where, RowContext(w.db, i, r, env));
      && (!hit ==> Performed(w, spec, None, 0, w))
      && (hit && Referenced(w.db, i, r) ==> Performed(w, spec, Some(StillReferenced), 0, w))
      && Performed(w, spec, Some(OutOfMemory), 0, w)
  {
    hide Matches, Referenced, Progress;
    ProgressStarts(w);
  }

  lemma {:induction false} DeleteErrorSticks(db: Db, i: nat, where: Option<Expr>, env: Env, n: nat, m: nat)
    requires db.Valid() && i < |db.tables| && n <= m <= |db.tables[i].rows| && DeleteRows(db, i, where, env, n).Err?
    ensures DeleteRows(db, i, where, env, m) == DeleteRows(db, i, where, env, n)
  {
    if n < m {
      DeleteErrorSticks(db, i, where, env, n, m - 1);
    }
  }

  lemma DeleteRowShape(db: Db, i: nat, where: Option<Expr>, env: Env, r: nat)
    requires db.Valid() && i < |db.tables| && r < |db.tables[i].rows|
    ensures var d := DeleteRow(db, i, where, env, r); d.Ok? ==> d.value.db.Valid() && SameShape(db, d.value.db)
  {
  }

  /** After the first r rows of a DELETE, none of which failed; n of them are gone. */
  ghost predicate Deleting(w: World, i: nat, where: Option<Expr>, env: Env, r: nat, n: nat, v: World) {
    && w.db.Valid() && LogFits(w.db, w.log) && i < |w.db.tables| && r <= |w.db.tables[i].rows|
    && v.db.Valid() && SameShape(w.db, v.db)
    && Performed(w, DeleteRows(w.db, i, where, env, r), None, n, v)
    && WhereOk(where, RowContext(w.db, i, 0, env))
  }

  lemma DeleteStarts(w: World, i: nat, where: Option<Expr>, env: Env)
    requires w.db.Valid() && LogFits(w.db, w.log) && i < |w.db.tables| && WhereOk(where, RowContext(w.db, i, 0, env))
    ensures Deleting(w, i, where, env, 0, 0, w)
  {
    PerformedNothing(w, DeleteRows(w.db, i, where, env, 0), None);
  }

  lemma DeleteAdvances(w: World, i: nat, where: Option<Expr>, env: Env, r: nat, n: nat, v: World, m: nat, v': World)
    requires Deleting(w, i, where, env, r, n, v) && r < |w.db.tables[i].rows|
    requires Performed(v, DeleteRow(v.db, i, where, env, r), None, m, v')
    ensures Deleting(w, i, where, env, r + 1, n + m, v')
  {
    hide DeleteRow, Progress, WhereOk;
    DeleteRowShape(v.db, i, where, env, r);
    ProgressTransitive(w, v, v');
  }

  lemma DeleteFails(w: World, i: nat, where: Option<Expr>, env: Env, r: nat, n: nat, v: World, e: Error, v': World)
    requires Deleting(w, i, where, env, r, n, v) && r < |w.db.tables[i].rows|
    requires Performed(v, DeleteRow(v.db, i, where, env, r), Some(e), 0, v')
    ensures Performed(w, DeleteRows(w.db, i, where, env, |w.db.tables[i].rows|), Some(e), 0, v')
  {
    hide DeleteRow, Progress, WhereOk;
    ProgressTransitive(w, v, v');
    if e != OutOfMemory {
      DeleteErrorSticks(w.db, i, where, env, r + 1, |w.db.tables[i].rows|);
    }
  }

  lemma DeletingChecked(w: World, i: nat, where: Option<Expr>, env: Env, r: nat, n: nat, v: World)
    requires Deleting(w, i, where, env, r, n, v)
    ensures WhereOk(where, RowContext(v.db, i, r, env))
  {
    WhereOkOnEveryRow(w.db, v.db, i, where, env, 0, r);
  }

  lemma DeleteEnds(w: World, i: nat, where: Option<Expr>, env: Env, n: nat, v: World)
    requires i < |w.db.tables| && Deleting(w, i, where, env, |w.db.tables[i].rows|, n, v)
    ensures Performed(w, DeleteRows(w.db, i, where, env, |w.db.tables[i].rows|), None, n, v)
  {
  }

  lemma PerformedKeepsMark(w: World, spec: Result<Effect, Error>, e: Option<Error>, n: nat, v: World)
    requires Performed(w, spec, e, n, v)
    ensures |w.log| <= |v.log|
  {
  }

  /******* Whole statements *******/

  lemma {:induction false} ResolveErrorSticks(schema: Schema, ctx: RowCtx, assignments: seq<Assignment>, k: nat)
    requires schema.Valid() && k <= |assignments| && ResolveAssignments(schema, ctx, assignments[..k]).Err?
    ensures ResolveAssignments(schema, ctx, assignments) == ResolveAssignments(schema, ctx, assignments[..k])
    decreases |assignments| - k
  {
    if k < |assignments| {
      assert assignments[..k + 1][..k] == assignments[..k];
      ResolveErrorSticks(schema, ctx, assignments, k + 1);
    } else {
      assert assignments[..k] == assignments;
    }
  }

  function ReplyOf(e: Option<Error>, n: nat): Reply {
    if e.None? then Done(n) else Rejected(e.value)
  }

  /** A performed statement is a step of an open transaction. */
  lemma PerformedIsStep(w: World, s: Dml, env: Env, e: Option<Error>, n: nat, w': World)
    requires w.db.Valid() && Performed(w, Run(w.db, s, env), e, n, w') && (e.Some? ==> w'.log == w.log)
    requires HitsLatch(w, s) ==> e.Some? && w' == w
    ensures QueryStep(w, s, env, w', ReplyOf(e, n))
  {
    hide Run, Undoes;
  }

  /** An INSERT that met a recorded failure left a row behind. */
  ghost predicate LeavesRow(w: World, s: Dml, i: nat, w': World) {
    s.Insert? && s.rows != [] && i in w.latched && w' != w
  }

  lemma InsertIsStep(w: World, s: Dml, env: Env, i: nat, cols: seq<nat>, e: Option<Error>, w': World)
    requires w.db.Valid() && s.Insert? && w.db.Find(s.table) == Some(i)
    requires InsertColumns(w.db.tables[i].schema, s.columns) == Ok(cols)
    requires InsertDone(w, i, cols, s.rows, env, e, w')
    ensures QueryStep(w, s, env, w'.(diverged := w'.diverged - {} + if LeavesRow(w, s, i, w') then {i} else {}), ReplyOf(e, |s.rows|))
  {
    hide InsertRows, InsertColumns, Undoes;
    assert w'.diverged - {} + {} == w'.diverged && w'.diverged - {} + {i} == w'.diverged + {i};
    if !HitsLatch(w, s) {
      assert Run(w.db, s, env) == match InsertRows(w.db, i, cols, s.rows, env) {
        case Ok(db) => Ok(Effect(db, |s.rows|))
        case Err(error) => Err(error)
      };
    }
  }

  /** CREATE TABLE: the world with one more empty table, or the world as it was. */
  lemma NewTableIsStep(w: World, name: string, defs: seq<ColumnDef>, w': World)
    requires w.db.Valid() && CreateTable(w.db, name, defs).Ok?
    requires w' == w.(db := w.db.Add(name, TableState(SchemaOf(defs), [], [])), paths := w.paths + [None])
    ensures Step(w, Create(name, defs), w', Done(0))
  {
  }

  lemma NoTableIsStep(w: World, name: string, defs: seq<ColumnDef>, e: Error)
    requires w.db.Valid() && (e == OutOfMemory || CreateTable(w.db, name, defs) == Err(e))
    ensures Step(w, Create(name, defs), w, Rejected(e))
  {
  }

  /** The world with a loaded table, which the load may have left incomplete or latched. */
  ghost function LoadedWorld(w: World, name: string, t: TableState, path: Path, latched: bool): World
    requires path in w.files
  {
    var n, v := FkGraphs.PutAt(w.db, name), Installed(w, name, t, path);
    v.(diverged := if Synced(t, w.files[path]) then v.diverged else v.diverged + {n}, latched := if latched then v.latched + {n} else v.latched)
  }

  lemma IsLoadedWorld(w: World, name: string, t: TableState, path: Path, latched: bool, w': World)
    requires path in w.files && |w.paths| == |w.db.tables| == |w.db.names| && forall i :: i in w.latched ==> i < |w.db.tables|
    requires var n := FkGraphs.PutAt(w.db, name);
      w' == w.(db := FkGraphs.Put(w.db, name, t), paths := if n < |w.paths| then w.paths[n := Some(path)] else w.paths + [Some(path)],
               diverged := w.diverged - {n} + (Sharers(w, n) + if Synced(t, w.files[path]) then {} else {n}),
               latched := if latched then w.latched + {n} else w.latched - {n})
    ensures w' == LoadedWorld(w, name, t, path, latched)
  {
    hide Synced;
    var v := LoadedWorld(w, name, t, path, latched);
    assert w'.diverged == v.diverged && w'.latched == v.latched;
  }

  lemma LoadIsStep(w: World, name: string, schema: Schema, path: Path, t: TableState, whole: bool, latched: bool)
    requires w.db.Valid() && CanLoad(w, name, schema, path) && (whole ==> !latched)
    requires if whole then t == Recover(schema, w.files[path]) else ReplayedInPart(schema, w.files[path], t)
    ensures Step(w, Load(name, schema, path), LoadedWorld(w, name, t, path, latched), if whole then Done(0) else LoadedInPart)
  {
    hide Recover, ReplayedInPart, DiskFits, Synced, Installed, Accepts;
    LoadSyncs(schema, w.files[path]);
    if !whole {
      assert InstalledInPart(w, name, t, path, LoadedWorld(w, name, t, path, latched)) by {
        InstalledKeepsLatches(w, name, t, path, latched);
      }
    }
  }

  lemma InstalledKeepsLatches(w: World, name: string, t: TableState, path: Path, latched: bool)
    requires path in w.files
    ensures InstalledInPart(w, name, t, path, LoadedWorld(w, name, t, path, latched))
  {
    hide Synced;
  }

  lemma NoLoadIsStep(w: World, name: string, schema: Schema, path: Path, reply: Reply)
    requires w.db.Valid() && reply.Declined() && (reply.Refused? ==> !CanLoad(w, name, schema, path))
    ensures Step(w, Load(name, schema, path), w, reply)
  {
    hide Recover, CanLoad;
  }

  /** A statement refused before it touched anything. */
  lemma RefusalIsStep(w: World, s: Dml, env: Env, e: Error)
    requires w.db.Valid() && LogFits(w.db, w.log) && Run(w.db, s, env) == Err(e)
    ensures QueryStep(w, s, env, w, Rejected(e))
  {
    hide Run, Undoes;
    ProgressStarts(w);
  }

  lemma UpdateIsStep(w: World, s: Dml, env: Env, i: nat, cols: seq<nat>, e: Option<Error>, n: nat, w': World)
    requires w.db.Valid() && s.Update? && w.db.Find(s.table) == Some(i)
    requires ResolveAssignments(w.db.tables[i].schema, RowContext(w.db, i, 0, env), s.assignments) == Ok(cols)
    requires WhereOk(s.where, RowContext(w.db, i, 0, env))
    requires Performed(w, UpdateRows(w.db, i, cols, Exprs(s.assignments), s.where, env, |w.db.tables[i].rows|), e, n, w')
    requires e.Some? ==> w'.log == w.log
    ensures QueryStep(w, s, env, w', ReplyOf(e, n))
  {
    hide UpdateRows, Performed, ResolveAssignments, WhereOk, QueryStep;
    PerformedIsStep(w, s, env, e, n, w');
  }

  lemma DeleteIsStep(w: World, s: Dml, env: Env, i: nat, e: Option<Error>, n: nat, w': World)
    requires w.db.Valid() && s.Delete? && w.db.Find(s.table) == Some(i)
    requires WhereOk(s.where, RowContext(w.db, i, 0, env))
    requires Performed(w, DeleteRows(w.db, i, s.where, env, |w.db.tables[i].rows|), e, n, w')
    requires e.Some? ==> w'.log == w.log
    ensures QueryStep(w, s, env, w', ReplyOf(e, n))
  {
    hide DeleteRows, Performed, WhereOk, QueryStep;
    PerformedIsStep(w, s, env, e, n, w');
  }

  lemma UpdateIsChecked(db: Db, i: nat, assignments: seq<Assignment>, cols: seq<nat>, where: Option<Expr>, env: Env)
    requires db.Valid() && i < |db.tables| && WhereOk(where, RowContext(db, i, 0, env))
    requires ResolveAssignments(db.tables[i].schema, RowContext(db, i, 0, env), assignments) == Ok(cols)
    ensures UpdateChecked(db, i, cols, Exprs(assignments), where, env, 0)
  {
  }

  /******* COMMIT *******/

  lemma {:induction false} TouchedTablesPrefix(log: seq<Undo>, k: nat)
    requires k <= |log|
    ensures TouchedTables(log[..k]) <= TouchedTables(log)
    decreases |log| - k
  {
    if k < |log| {
      assert log[..k + 1][..k] == log[..k];
      TouchedTablesPrefix(log, k + 1);
    } else {
      assert log[..k] == log;
    }
  }

  /** The tables the first k entries touch have been appended to. */
  ghost predicate Committing(w: World, k: nat, v: World) {
    k <= |w.log| && v == AppendTables(w, TouchedTables(w.log[..k]))
  }

  lemma CommitStarts(w: World)
    ensures Committing(w, 0, w)
  {
  }

  lemma CommitSkips(w: World, k: nat, v: World)
    requires Committing(w, k, v) && k < |w.log| && w.log[k].table in TouchedTables(w.log[..k])
    ensures Committing(w, k + 1, v)
  {
    assert w.log[..k + 1][..k] == w.log[..k];
  }

  lemma CommitAdvances(w: World, k: nat, v: World, v': World)
    requires Committing(w, k, v) && k < |w.log| && w.log[k].table !in TouchedTables(w.log[..k])
    requires v' == AppendTable(v, w.log[k].table)
    ensures Committing(w, k + 1, v')
  {
    assert w.log[..k + 1][..k] == w.log[..k];
    var ts, next := TouchedTables(w.log[..k]), TouchedTables(w.log[..k + 1]);
    assert next[..|next| - 1] == ts;
  }

  lemma CommitEnds(w: World, v: World)
    requires Committing(w, |w.log|, v)
    ensures CommitStep(w, v.(log := [], active := false, partial := map[]), Done(0))
  {
    assert w.log[..|w.log|] == w.log;
  }

  /** A failed append: the tables before it are written, the transaction stays open. */
  lemma CommitBreaks(w: World, k: nat, v: World, v': World)
    requires Committing(w, k, v) && k < |w.log| && w.log[k].table !in TouchedTables(w.log[..k]) && AppendFailed(v, w.log[k].table, v')
    ensures CommitStep(w, v'.(partial := w.partial + Written(w, TouchedTables(w.log[..k]))), CommitFailed)
  {
    assert w.log[..k + 1][..k] == w.log[..k];
    var ts, done := TouchedTables(w.log), TouchedTables(w.log[..k]);
    TouchedTablesPrefix(w.log, k + 1);
    TouchedTablesPrefix(w.log, k);
    assert ts[..|done|] == done && |done| < |ts|;
    assert ts[|done|] == w.log[k].table;
    AppendTablesOnlyFiles(w, done);
    var partial := w.partial + Written(w, done);
    PartialApart(v, w.log[k].table, v', partial);
    assert CommitFailsAt(w, |done|, v'.(partial := partial));
  }

  lemma TornHere(w: World, i: nat, m: nat, tear: bool, w': World)
    requires DiskOf(w, i).Some? && i < |w.db.tables| && m <= |TouchedRows(w.log, i)|
    requires var path, d := w.paths[i].value, DiskOf(w, i).value;
      w' == w.(files := if path in w.torn then w.files else w.files[path := Disk(d.base, d.frames + FramesFor(w.db.tables[i], TouchedRows(w.log, i)[..m]))],
               torn := if tear then w.torn + {path} else w.torn, diverged := w.diverged - {} + {i})
    ensures AppendFailed(w, i, w')
  {
    hide FramesFor;
    assert w.diverged - {} + {i} == w.diverged + {i};
    assert w' == TornAppend(w, i, m, tear);
  }

  lemma PartialApart(v: World, i: nat, v': World, partial: map<nat, TableState>)
    requires AppendFailed(v, i, v')
    ensures AppendFailed(v.(partial := partial), i, v'.(partial := partial))
  {
    if v' != v {
      var m: nat, tear :| m <= |TouchedRows(v.log, i)| && v' == TornAppend(v, i, m, tear);
      assert v'.(partial := partial) == TornAppend(v.(partial := partial), i, m, tear);
    }
  }

  lemma CommitAnyCount(w: World, w': World, n: nat)
    requires CommitStep(w, w', Done(0))
    ensures CommitStep(w, w', Done(n))
  {
  }

  /******* Checkpoint *******/

  lemma CheckpointIsStep(w: World, i: nat, w': World, disk: Disk, removed: bool, done: bool)
    requires w.db.Valid() && !w.active && DiskOf(w, i).Some? && i < |w.db.tables|
    requires w.latched <= w'.latched && w' == Checkpointed(w, i, disk, removed, w'.latched)
    requires CheckpointLeaves(w, i, disk, removed, if done then Done(0) else CheckpointFailed)
    ensures Step(w, Checkpoint(i), w', if done then Done(0) else CheckpointFailed)
  {
    hide Compacted, Checkpointed, CheckpointLeaves;
  }

  /** Outside a transaction the log is empty. */
  predicate Idle(w: World) {
    w.active || w.log == []
  }

  lemma StepKeepsIdle(w: World, s: Stmt, w': World, reply: Reply)
    requires w.db.Valid() && Idle(w) && Step(w, s, w', reply)
    ensures Idle(w')
  {
    match s {
      case Commit =>
        if w.active {
          CommitKeepsIdle(w, w', reply);
        }
      case Query(dml, env) =>
        if !w.active {
          var mid, r :| AutoStep(w, dml, env, mid, r, w', reply);
          if r.Done? {
            CommitKeepsIdle(mid, w', reply);
          }
        }
      case _ =>
    }
  }

  lemma CommitKeepsIdle(w: World, w': World, reply: Reply)
    requires w.active && CommitStep(w, w', reply)
    ensures Idle(w')
  {
    if !reply.Done? {
      var k: nat :| CommitFailsAt(w, k, w');
      FailedCommitShape(w, k, w');
    }
  }

  lemma NoCheckpointIsStep(w: World, i: nat, reply: Reply)
    requires w.db.Valid() && reply.Declined() && (reply.Refused? ==> !CanCheckpoint(w, i))
    ensures Step(w, Checkpoint(i), w, reply)
  {
  }

  lemma CompactedIsLive(t: TableState)
    requires t.Valid()
    ensures var c := Compacted(t); c.rows == LiveRows(c.rows, c.dead) && DumpedBase(c) == DumpedBase(t)
    ensures forall was, disk :: LeftByFailedCheckpoint(Compacted(t), was, disk) <==> LeftByFailedCheckpoint(t, was, disk)
  {
    LiveRowsWithoutGaps(Compacted(t).rows, Compacted(t).dead);
  }
}
