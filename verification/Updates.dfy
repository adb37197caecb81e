/**
 What UPDATE and DELETE do to each cell and when they succeed, stated with the names of the
 columns, the values of the expressions and the integrity of what is left.
 */
module Updates {
  import opened Values
  import opened TableStates
  import opened Expressions
  import opened Catalogs
  import opened Constraints
  import opened Statements
  import opened Outcomes
  import opened SetSemantics
  import opened Inserts

  /******* UPDATE *******/

  /** The value of an expression on row r of table i, the only source in scope. */
  ghost predicate HasValue(db: Db, i: nat, r: nat, env: Env, e: Expr, v: Value)
    requires db.Valid() && i < |db.tables|
  {
    var ctx := RowCtx([RowSource(db.names[i], db.tables[i], r)], env.params, env.fpu);
    Evaluable(e, ctx) && EvalValue(e, ctx) == v
  }

  /** The row is live and its WHERE clause, if there is one, is true of it. */
  ghost predicate Selected(db: Db, i: nat, where: Option<Expr>, env: Env, r: nat)
    requires db.Valid() && i < |db.tables|
  {
    r < |db.tables[i].rows| && db.tables[i].Live(r) && (where.Some? ==> HasValue(db, i, r, env, where.value, Bool(true)))
  }

  lemma HitIsSelected(db: Db, i: nat, where: Option<Expr>, env: Env, r: nat)
    requires db.Valid() && i < |db.tables| && WhereOk(where, RowContext(db, i, r, env))
    ensures Hit(db, i, where, env, r) <==> Selected(db, i, where, env, r)
  {
    if where.Some? && db.tables[i].Live(r) {
      EvaluatorsAgree(where.value, RowContext(db, i, r, env));
    }
  }

  ghost function SelectedBelow(db: Db, i: nat, where: Option<Expr>, env: Env, n: nat): set<nat>
    requires db.Valid() && i < |db.tables|
  {
    set r: nat | r < n && Selected(db, i, where, env, r)
  }

  lemma {:induction false} HitsCountSelected(db: Db, i: nat, where: Option<Expr>, env: Env, n: nat)
    requires db.Valid() && i < |db.tables| && forall r: nat :: WhereOk(where, RowContext(db, i, r, env))
    ensures Hits(db, i, where, env, n) == |SelectedBelow(db, i, where, env, n)|
  {
    hide Selected, Hit, WhereOk, RowContext;
    if n > 0 {
      HitsCountSelected(db, i, where, env, n - 1);
      HitIsSelected(db, i, where, env, n - 1);
      var before := SelectedBelow(db, i, where, env, n - 1);
      if Selected(db, i, where, env, n - 1) {
        assert SelectedBelow(db, i, where, env, n) == before + {n - 1};
      } else {
        assert SelectedBelow(db, i, where, env, n) == before;
      }
    } else {
      assert SelectedBelow(db, i, where, env, n) == {};
    }
  }

  /** The k-th assignment is the last to column c. */
  predicate LastTo(schema: Schema, assignments: seq<Assignment>, k: nat, c: nat) {
    && k < |assignments| && schema.FindColumn(assignments[k].column) == Some(c)
    && forall j :: k < j < |assignments| ==> schema.FindColumn(assignments[j].column) != Some(c)
  }

  predicate Unassigned(schema: Schema, assignments: seq<Assignment>, c: nat) {
    forall k :: 0 <= k < |assignments| ==> schema.FindColumn(assignments[k].column) != Some(c)
  }

  /** The last value assigned to each column, computed from the row as it was in db; the other cells as they were. */
  ghost predicate Reassigned(db: Db, i: nat, r: nat, assignments: seq<Assignment>, env: Env, row: Row)
    requires db.Valid() && i < |db.tables| && r < |db.tables[i].rows|
  {
    var t := db.tables[i];
    && RowFits(t.schema.types, row)
    && (forall c :: 0 <= c < |row| && Unassigned(t.schema, assignments, c) ==> row[c] == t.rows[r][c])
    && (forall k, c :: 0 <= k < |assignments| && 0 <= c < |row| && LastTo(t.schema, assignments, k, c) ==>
          exists v: Value :: HasValue(db, i, r, env, assignments[k].value, v) && Assignable(v, t.schema.types[c]) && row[c] == Assigned(v, t.schema.types[c]))
  }

  /** Columns and values of the SET list, as the checks before the row loop found them. */
  ghost predicate Resolved(db: Db, i: nat, assignments: seq<Assignment>, cols: seq<nat>, where: Option<Expr>, env: Env, r: nat) {
    && UpdateChecked(db, i, cols, Exprs(assignments), where, env, r)
    && forall k :: 0 <= k < |cols| ==> db.tables[i].schema.FindColumn(assignments[k].column) == Some(cols[k])
  }

  lemma AssignedRow(db: Db, i: nat, assignments: seq<Assignment>, cols: seq<nat>, where: Option<Expr>, env: Env, r: nat)
    requires Resolved(db, i, assignments, cols, where, env, r) && r < |db.tables[i].rows|
    ensures var vs := ValuesOf(Exprs(assignments), RowContext(db, i, r, env));
      var t' := AssignAll(db.tables[i], r, cols, vs);
      t'.Valid() && r < |t'.rows| && Reassigned(db, i, r, assignments, env, t'.rows[r])
  {
    var t, vs := db.tables[i], ValuesOf(Exprs(assignments), RowContext(db, i, r, env));
    AssignAllShape(t, r, cols, vs);
    var row := AssignAll(t, r, cols, vs).rows[r];
    forall k, c | 0 <= k < |assignments| && 0 <= c < |row| && LastTo(t.schema, assignments, k, c)
      ensures HasValue(db, i, r, env, assignments[k].value, vs[k]) && Assignable(vs[k], t.schema.types[c])
      ensures row[c] == Assigned(vs[k], t.schema.types[c]) {
      AssignedCell(db, i, assignments, cols, where, env, r, k, c);
    }
    forall c | 0 <= c < |row| && Unassigned(t.schema, assignments, c) ensures row[c] == t.rows[r][c] {
      assert c !in cols;
    }
  }

  lemma AssignedCell(db: Db, i: nat, assignments: seq<Assignment>, cols: seq<nat>, where: Option<Expr>, env: Env, r: nat, k: nat, c: nat)
    requires Resolved(db, i, assignments, cols, where, env, r) && r < |db.tables[i].rows|
    requires LastTo(db.tables[i].schema, assignments, k, c)
    ensures var t, vs := db.tables[i], ValuesOf(Exprs(assignments), RowContext(db, i, r, env));
      var t' := AssignAll(t, r, cols, vs);
      && c < |t.schema.types| && HasValue(db, i, r, env, assignments[k].value, vs[k]) && Assignable(vs[k], t.schema.types[c])
      && r < |t'.rows| && c < |t'.rows[r]| && t'.rows[r][c] == Assigned(vs[k], t.schema.types[c])
  {
    hide EvalValue, Infer, AssignAll;
    var t, ctx := db.tables[i], RowContext(db, i, r, env);
    FittingValueIsAssignable(assignments[k].value, ctx, t.schema.types[c]);
    LastAssignmentWins(t, r, cols, ValuesOf(Exprs(assignments), ctx), k);
  }

  /** What has become of table i when its first n rows have been gone through. */
  ghost predicate RowsReassigned(db: Db, i: nat, assignments: seq<Assignment>, where: Option<Expr>, env: Env, n: nat, db': Db)
    requires db.Valid() && i < |db.tables|
  {
    && db'.Valid() && SameShape(db, db') && db' == db.With(i, db'.tables[i]) && db'.tables[i].dead == db.tables[i].dead
    && forall r :: 0 <= r < |db.tables[i].rows| ==>
         if r < n && Selected(db, i, where, env, r) then Reassigned(db, i, r, assignments, env, db'.tables[i].rows[r])
         else db'.tables[i].rows[r] == db.tables[i].rows[r]
  }

  lemma ResolvedOnEveryRow(db: Db, now: Db, i: nat, assignments: seq<Assignment>, cols: seq<nat>, where: Option<Expr>, env: Env, r: nat)
    requires Resolved(db, i, assignments, cols, where, env, 0) && now.Valid() && SameShape(db, now)
    ensures Resolved(now, i, assignments, cols, where, env, r)
  {
    UpdateCheckedOnEveryRow(db, now, i, cols, Exprs(assignments), where, env, 0, r);
  }

  lemma UpdatedIsReassigned(db: Db, i: nat, assignments: seq<Assignment>, cols: seq<nat>, where: Option<Expr>, env: Env, n: nat, e: Effect)
    requires Resolved(db, i, assignments, cols, where, env, 0) && n <= |db.tables[i].rows|
    requires UpdatedFrom(db, i, cols, Exprs(assignments), where, env, n, e)
    ensures RowsReassigned(db, i, assignments, where, env, n, e.db)
  {
    hide Reassigned, Selected, Hit, WhereOk, ExprFits;
    assert e.db.tables == db.tables[i := e.db.tables[i]];
    forall r | 0 <= r < |db.tables[i].rows|
      ensures if r < n && Selected(db, i, where, env, r) then Reassigned(db, i, r, assignments, env, e.db.tables[i].rows[r])
              else e.db.tables[i].rows[r] == db.tables[i].rows[r] {
      ResolvedOnEveryRow(db, db, i, assignments, cols, where, env, r);
      CheckedWhere(db, i, cols, Exprs(assignments), where, env, r);
      HitIsSelected(db, i, where, env, r);
      AssignedRow(db, i, assignments, cols, where, env, r);
    }
  }

  lemma CheckedWhere(db: Db, i: nat, cols: seq<nat>, es: seq<Expr>, where: Option<Expr>, env: Env, r: nat)
    requires UpdateChecked(db, i, cols, es, where, env, r)
    ensures WhereOk(where, RowContext(db, i, r, env))
  {
  }

  lemma AssignmentsResolve(db: Db, i: nat, assignments: seq<Assignment>, cols: seq<nat>, where: Option<Expr>, env: Env)
    requires db.Valid() && i < |db.tables| && WhereOk(where, RowContext(db, i, 0, env))
    requires ResolveAssignments(db.tables[i].schema, RowContext(db, i, 0, env), assignments) == Ok(cols)
    ensures Resolved(db, i, assignments, cols, where, env, 0)
  {
    UpdateIsChecked(db, i, assignments, cols, where, env);
  }

  lemma WhereEverywhere(db: Db, i: nat, where: Option<Expr>, env: Env)
    requires db.Valid() && i < |db.tables| && WhereOk(where, RowContext(db, i, 0, env))
    ensures forall r: nat :: WhereOk(where, RowContext(db, i, r, env))
  {
    forall r: nat ensures WhereOk(where, RowContext(db, i, r, env)) {
      WhereOkOnEveryRow(db, db, i, where, env, 0, r);
    }
  }

  /**
   An UPDATE gives every selected row the last value assigned to each column, computed from the table it
   began with, leaves all other cells, rows and tables as they were, and counts the selected rows.
   */
  lemma UpdateMeans(db: Db, s: Dml, env: Env)
    requires db.Valid() && s.Update? && Run(db, s, env).Ok?
    ensures s.table in db.names
    ensures var i, e := db.Find(s.table).value, Run(db, s, env).value;
      && RowsReassigned(db, i, s.assignments, s.where, env, |db.tables[i].rows|, e.db)
      && e.changes == |SelectedBelow(db, i, s.where, env, |db.tables[i].rows|)|
  {
    hide RowsReassigned, UpdatedFrom, Resolved, WhereOk, UpdateRows;
    var i, e := db.Find(s.table).value, Run(db, s, env).value;
    var n, es, cols := |db.tables[i].rows|, Exprs(s.assignments), ResolveAssignments(db.tables[i].schema, RowContext(db, i, 0, env), s.assignments).value;
    UpdateIsChecked(db, i, s.assignments, cols, s.where, env);
    AssignmentsResolve(db, i, s.assignments, cols, s.where, env);
    UpdateIsSetwise(db, i, cols, es, s.where, env, n);
    UpdatedIsReassigned(db, i, s.assignments, cols, s.where, env, n, e);
    WhereEverywhere(db, i, s.where, env);
    HitsCountSelected(db, i, s.where, env, n);
    UpdatedCounts(db, i, cols, es, s.where, env, n, e);
  }

  lemma UpdatedCounts(db: Db, i: nat, cols: seq<nat>, es: seq<Expr>, where: Option<Expr>, env: Env, n: nat, e: Effect)
    requires db.Valid() && i < |db.tables| && |cols| == |es| && n <= |db.tables[i].rows| && UpdatedFrom(db, i, cols, es, where, env, n, e)
    ensures e.changes == Hits(db, i, where, env, n)
  {
  }

  /******* Which UPDATE succeeds *******/

  /** The column exists and the expression fits it. */
  ghost predicate AssignmentFits(schema: Schema, ctx: RowCtx, a: Assignment) {
    schema.Valid() && schema.FindColumn(a.column).Some? && ExprFits(a.value, ctx, schema.types[schema.FindColumn(a.column).value])
  }

  ghost predicate FirstUnfit(schema: Schema, ctx: RowCtx, assignments: seq<Assignment>, k: int) {
    && 0 <= k < |assignments| && !AssignmentFits(schema, ctx, assignments[k])
    && forall j :: 0 <= j < k ==> AssignmentFits(schema, ctx, assignments[j])
  }

  /** The SET list is good exactly if each assignment is; otherwise the first that is not decides the error. */
  lemma {:induction false} AssignmentsExactly(schema: Schema, ctx: RowCtx, assignments: seq<Assignment>)
    requires schema.Valid()
    ensures var r := ResolveAssignments(schema, ctx, assignments);
      && (r.Ok? <==> forall k :: 0 <= k < |assignments| ==> AssignmentFits(schema, ctx, assignments[k]))
      && (r.Err? ==> exists k :: (FirstUnfit(schema, ctx, assignments, k)
            && r.error == if assignments[k].column !in schema.names then NoSuchColumn else TypeMismatch))
  {
    hide ExprFits;
    if assignments != [] {
      var n := |assignments| - 1;
      AssignmentsExactly(schema, ctx, assignments[..n]);
      assert forall k :: 0 <= k < n ==> assignments[..n][k] == assignments[k];
      if k :| FirstUnfit(schema, ctx, assignments[..n], k) {
        assert FirstUnfit(schema, ctx, assignments, k);
      } else if ResolveAssignments(schema, ctx, assignments).Err? {
        assert FirstUnfit(schema, ctx, assignments, n);
      }
    }
  }

  predicate SetsKey(schema: Schema, assignments: seq<Assignment>) {
    exists k :: 0 <= k < |assignments| && schema.pk.Some? && schema.FindColumn(assignments[k].column) == schema.pk
  }

  /** Integrity would survive the loss of the row: no live row refers to it. */
  ghost predicate Expendable(db: Db, i: nat, r: nat)
    requires i < |db.tables|
  {
    Integrity(db.With(i, db.tables[i].SetDead(r, true)))
  }

  /** The catalog has integrity when the first n rows have been gone through. */
  ghost predicate SoundAfter(db: Db, i: nat, assignments: seq<Assignment>, where: Option<Expr>, env: Env, n: nat)
    requires db.Valid() && i < |db.tables|
  {
    exists db' :: RowsReassigned(db, i, assignments, where, env, n, db') && Integrity(db')
  }

  lemma {:induction false} LastAssignmentTo(schema: Schema, assignments: seq<Assignment>, c: nat, j: nat) returns (k: nat)
    requires j < |assignments| && schema.FindColumn(assignments[j].column) == Some(c)
    ensures LastTo(schema, assignments, k, c)
    decreases |assignments| - j
  {
    k := j;
    if m :| j < m < |assignments| && schema.FindColumn(assignments[m].column) == Some(c) {
      k := LastAssignmentTo(schema, assignments, c, m);
    }
  }

  lemma ReassignedOnce(db: Db, i: nat, r: nat, assignments: seq<Assignment>, env: Env, row: Row, other: Row)
    requires db.Valid() && i < |db.tables| && r < |db.tables[i].rows|
    requires Reassigned(db, i, r, assignments, env, row) && Reassigned(db, i, r, assignments, env, other)
    ensures row == other
  {
    var schema := db.tables[i].schema;
    forall c | 0 <= c < |row| ensures row[c] == other[c] {
      if !Unassigned(schema, assignments, c) {
        var j :| 0 <= j < |assignments| && schema.FindColumn(assignments[j].column) == Some(c);
        var k := LastAssignmentTo(schema, assignments, c, j);
        assert LastTo(schema, assignments, k, c);
      }
    }
  }

  lemma RowsReassignedOnce(db: Db, i: nat, assignments: seq<Assignment>, where: Option<Expr>, env: Env, n: nat, a: Db, b: Db)
    requires db.Valid() && i < |db.tables|
    requires RowsReassigned(db, i, assignments, where, env, n, a) && RowsReassigned(db, i, assignments, where, env, n, b)
    ensures a == b
  {
    hide Reassigned, Selected;
    forall r | 0 <= r < |db.tables[i].rows| ensures a.tables[i].rows[r] == b.tables[i].rows[r] {
      if r < n && Selected(db, i, where, env, r) {
        ReassignedOnce(db, i, r, assignments, env, a.tables[i].rows[r], b.tables[i].rows[r]);
      }
    }
    assert a.tables[i].rows == b.tables[i].rows;
  }

  /** No row of the table itself refers to it, so what happens to its other rows does not matter. */
  lemma SameReferences(db: Db, now: Db, i: nat, r: nat)
    requires SchemaOk(db) && SameRow(db, now, i, r) && now == db.With(i, now.tables[i])
    ensures Referenced(now, i, r) <==> Referenced(db, i, r)
  {
    forall m: nat, c: nat ensures PointsAt(now, m, c, i) <==> PointsAt(db, m, c, i) ensures PointsAt(db, m, c, i) ==> m != i {
      if PointsAt(db, m, c, i) {
        assert FkResolves(db, m, c);
      }
    }
  }

  lemma KeyIsSet(schema: Schema, assignments: seq<Assignment>, cols: seq<nat>)
    requires |cols| == |assignments| && forall k :: 0 <= k < |cols| ==> schema.FindColumn(assignments[k].column) == Some(cols[k])
    ensures AssignsKey(schema, cols) <==> SetsKey(schema, assignments)
  {
    if AssignsKey(schema, cols) {
      var k :| 0 <= k < |cols| && cols[k] == schema.pk.value;
      assert schema.FindColumn(assignments[k].column) == schema.pk;
    }
  }

  lemma AssignsAlike(db: Db, now: Db, i: nat, cols: seq<nat>, es: seq<Expr>, where: Option<Expr>, env: Env, n: nat)
    requires UpdateChecked(db, i, cols, es, where, env, n) && SameRow(db, now, i, n)
    ensures var vs := ValuesOf(es, RowContext(db, i, n, env));
      var t', u' := AssignAll(db.tables[i], n, cols, vs), AssignAll(now.tables[i], n, cols, ValuesOf(es, RowContext(now, i, n, env)));
      n < |t'.rows| && OnlyCells(now.tables[i], u', n) && u'.rows[n] == t'.rows[n]
  {
    hide UpdateChecked, RowContext, ValueOf, AssignAll;
    UpdateCheckedHere(db, i, cols, es, where, env, n);
    SameRowSameValues(db, now, i, es, env, n);
    var vs := ValuesOf(es, RowContext(db, i, n, env));
    AssignAllShape(now.tables[i], n, cols, vs);
    AssignAllIsLocal(db.tables[i], now.tables[i], n, cols, vs);
  }

  /** The next row, selected: cells are assigned and the result is checked. */
  lemma NextRowIsReassigned(db: Db, i: nat, assignments: seq<Assignment>, cols: seq<nat>, where: Option<Expr>, env: Env, n: nat, now: Db)
    requires Resolved(db, i, assignments, cols, where, env, 0) && n < |db.tables[i].rows| && Selected(db, i, where, env, n)
    requires RowsReassigned(db, i, assignments, where, env, n, now)
    ensures var t' := AssignAll(now.tables[i], n, cols, ValuesOf(Exprs(assignments), RowContext(now, i, n, env)));
      OnlyCells(now.tables[i], t', n) && RowsReassigned(db, i, assignments, where, env, n + 1, now.With(i, t'))
  {
    hide Reassigned, Selected, WhereOk, ExprFits, AssignAll;
    ResolvedOnEveryRow(db, db, i, assignments, cols, where, env, n);
    AssignsAlike(db, now, i, cols, Exprs(assignments), where, env, n);
    AssignedRow(db, i, assignments, cols, where, env, n);
    var t' := AssignAll(now.tables[i], n, cols, ValuesOf(Exprs(assignments), RowContext(now, i, n, env)));
    assert db.tables[i := now.tables[i]][i := t'] == db.tables[i := t'];
  }

  lemma RowSkipped(db: Db, i: nat, assignments: seq<Assignment>, where: Option<Expr>, env: Env, n: nat, now: Db)
    requires db.Valid() && i < |db.tables| && n < |db.tables[i].rows| && !Selected(db, i, where, env, n)
    ensures RowsReassigned(db, i, assignments, where, env, n, now) <==> RowsReassigned(db, i, assignments, where, env, n + 1, now)
  {
    hide Reassigned, Selected;
  }

  /** One selected row of a sound catalog. */
  lemma RowVerdict(db: Db, i: nat, cols: seq<nat>, es: seq<Expr>, where: Option<Expr>, env: Env, r: nat)
    requires SchemaOk(db) && Integrity(db) && i < |db.tables| && |cols| == |es| && r < |db.tables[i].rows| && Hit(db, i, where, env, r)
    ensures UpdateRow(db, i, cols, es, where, env, r).Ok? <==>
      && !(AssignsKey(db.tables[i].schema, cols) && Referenced(db, i, r))
      && Integrity(db.With(i, AssignAll(db.tables[i], r, cols, ValuesOf(es, RowContext(db, i, r, env)))))
  {
    hide Integrity, RowViolation, Matches, RowContext, Referenced, AssignAll, ValueOf;
    var t := db.tables[i];
    var vs := ValuesOf(es, RowContext(db, i, r, env));
    var t' := AssignAll(t, r, cols, vs);
    AssignAllShape(t, r, cols, vs);
    if !(AssignsKey(t.schema, cols) && Referenced(db, i, r)) {
      assert KeyKept(t, t', r) || !Referenced(db, i, r);
      RowCheckExactly(db, i, t', r);
    }
  }

  /** A selected row passes exactly if its key is not set while others refer to it, and the catalog is sound after it. */
  lemma SelectedRowExactly(db: Db, i: nat, assignments: seq<Assignment>, cols: seq<nat>, where: Option<Expr>, env: Env, n: nat, now: Db)
    requires SchemaOk(db) && Integrity(db) && Resolved(db, i, assignments, cols, where, env, 0)
    requires n < |db.tables[i].rows| && Selected(db, i, where, env, n)
    requires RowsReassigned(db, i, assignments, where, env, n, now) && Integrity(now)
    ensures UpdateRow(now, i, cols, Exprs(assignments), where, env, n).Ok? <==>
      (SetsKey(db.tables[i].schema, assignments) ==> Expendable(db, i, n)) && SoundAfter(db, i, assignments, where, env, n + 1)
  {
    hide Reassigned, Selected, Hit, Integrity, ValueOf, AssignAll, UpdateRow, FirstUnfit, SetsKey, AssignsKey, Referenced, WhereOk, ExprFits, RowContext;
    var es, t := Exprs(assignments), db.tables[i];
    ResolvedOnEveryRow(db, db, i, assignments, cols, where, env, n);
    CheckedWhere(db, i, cols, es, where, env, n);
    HitIsSelected(db, i, where, env, n);
    SameRowSameHit(db, now, i, where, env, n);
    SchemaOkBySchemas(db, now);
    RowVerdict(now, i, cols, es, where, env, n);
    SameReferences(db, now, i, n);
    assert t.Live(n) by { SelectedIsLive(db, i, where, env, n); }
    DeleteCheckExactly(db, i, n);
    KeyIsSet(t.schema, assignments, cols);
    NextRowIsReassigned(db, i, assignments, cols, where, env, n, now);
    var after := now.With(i, AssignAll(now.tables[i], n, cols, ValuesOf(es, RowContext(now, i, n, env))));
    if db' :| RowsReassigned(db, i, assignments, where, env, n + 1, db') && Integrity(db') {
      RowsReassignedOnce(db, i, assignments, where, env, n + 1, after, db');
    }
  }

  lemma SelectedIsLive(db: Db, i: nat, where: Option<Expr>, env: Env, r: nat)
    requires db.Valid() && i < |db.tables| && Selected(db, i, where, env, r)
    ensures db.tables[i].Live(r)
  {
  }

  ghost predicate KeysFree(db: Db, i: nat, assignments: seq<Assignment>, where: Option<Expr>, env: Env, n: nat)
    requires db.Valid() && i < |db.tables|
  {
    SetsKey(db.tables[i].schema, assignments) ==> forall r: nat :: r < n && Selected(db, i, where, env, r) ==> Expendable(db, i, r)
  }

  lemma {:induction false} UpdateRowsExactly(db: Db, i: nat, assignments: seq<Assignment>, cols: seq<nat>, where: Option<Expr>, env: Env, n: nat)
    requires SchemaOk(db) && Integrity(db) && Resolved(db, i, assignments, cols, where, env, 0) && n <= |db.tables[i].rows|
    ensures UpdateRows(db, i, cols, Exprs(assignments), where, env, n).Ok? <==>
      KeysFree(db, i, assignments, where, env, n) && forall m: nat :: m <= n ==> SoundAfter(db, i, assignments, where, env, m)
  {
    hide Reassigned, Selected, Integrity, UpdateRow, SetsKey, Expendable, UpdatedFrom, WhereOk, ExprFits, RowContext;
    var es, t := Exprs(assignments), db.tables[i];
    if n == 0 {
      assert db.tables == db.tables[i := t];
      assert RowsReassigned(db, i, assignments, where, env, 0, db);
    } else {
      UpdateRowsExactly(db, i, assignments, cols, where, env, n - 1);
      var first := UpdateRows(db, i, cols, es, where, env, n - 1);
      if first.Ok? {
        UpdateIsSetwise(db, i, cols, es, where, env, n - 1);
        UpdatedIsReassigned(db, i, assignments, cols, where, env, n - 1, first.value);
        UpdateRowsKeeps(db, i, cols, es, where, env, n - 1);
        OneMoreRowExactly(db, i, assignments, cols, where, env, n - 1, first.value.db);
      }
    }
  }

  lemma OneMoreRowExactly(db: Db, i: nat, assignments: seq<Assignment>, cols: seq<nat>, where: Option<Expr>, env: Env, n: nat, now: Db)
    requires SchemaOk(db) && Integrity(db) && Resolved(db, i, assignments, cols, where, env, 0) && n < |db.tables[i].rows|
    requires RowsReassigned(db, i, assignments, where, env, n, now) && Integrity(now)
    ensures UpdateRow(now, i, cols, Exprs(assignments), where, env, n).Ok? <==>
      (SetsKey(db.tables[i].schema, assignments) && Selected(db, i, where, env, n) ==> Expendable(db, i, n))
      && SoundAfter(db, i, assignments, where, env, n + 1)
  {
    hide Reassigned, Selected, Integrity, SetsKey, Expendable, WhereOk, ExprFits, RowContext, Referenced, RowViolation, AssignsKey;
    if Selected(db, i, where, env, n) {
      SelectedRowExactly(db, i, assignments, cols, where, env, n, now);
    } else {
      var es := Exprs(assignments);
      RowSkipped(db, i, assignments, where, env, n, now);
      ResolvedOnEveryRow(db, db, i, assignments, cols, where, env, n);
      CheckedWhere(db, i, cols, es, where, env, n);
      HitIsSelected(db, i, where, env, n);
      SameRowSameHit(db, now, i, where, env, n);
    }
  }

  /**
   An UPDATE succeeds exactly if its columns, expressions and WHERE clause check, it sets no key of a selected row
   that other rows refer to, and the catalog is sound after each row, not only after the last.
   */
  lemma UpdateExactly(db: Db, s: Dml, env: Env)
    requires SchemaOk(db) && Integrity(db) && s.Update?
    ensures Run(db, s, env).Ok? <==>
      db.Find(s.table).Some? &&
      var i := db.Find(s.table).value;
      var ctx := RowCtx([RowSource(db.names[i], db.tables[i], 0)], env.params, env.fpu);
      && (forall k :: 0 <= k < |s.assignments| ==> AssignmentFits(db.tables[i].schema, ctx, s.assignments[k]))
      && (s.where.Some? ==> IsPredicate(s.where.value, ctx))
      && KeysFree(db, i, s.assignments, s.where, env, |db.tables[i].rows|)
      && forall n: nat :: n <= |db.tables[i].rows| ==> SoundAfter(db, i, s.assignments, s.where, env, n)
  {
    hide Integrity, AssignmentFits, KeysFree, SoundAfter, Infer, Resolved;
    if db.Find(s.table).Some? {
      var i := db.Find(s.table).value;
      var ctx := RowContext(db, i, 0, env);
      AssignmentsExactly(db.tables[i].schema, ctx, s.assignments);
      var cols := ResolveAssignments(db.tables[i].schema, ctx, s.assignments);
      if cols.Ok? && WhereOk(s.where, ctx) {
        AssignmentsResolve(db, i, s.assignments, cols.value, s.where, env);
        UpdateRowsExactly(db, i, s.assignments, cols.value, s.where, env, |db.tables[i].rows|);
      }
    }
  }

  /******* Why an UPDATE fails *******/

  /** The catalog without the row: what the new cells of that row are checked against. */
  function WithoutRow(db: Db, i: nat, r: nat): Db
    requires i < |db.tables|
  {
    db.With(i, db.tables[i].SetDead(r, true))
  }

  lemma ChangedRowDuplicate(t: TableState, t': TableState, r: nat, c: nat)
    requires OnlyCells(t, t', r) && t.Live(r) && c < |t.schema.types|
    ensures t'.HasDuplicate(c, r) <==> Taken(t.SetDead(r, true), c, t'.Cell(r, c))
  {
    var gone, v := t.SetDead(r, true), t'.Cell(r, c);
    TakenIsMatch(gone, c, v);
    forall q: int | q != r ensures t'.Holds(q, c, v) <==> gone.Holds(q, c, v) {
    }
  }

  lemma ChangedRowParent(db: Db, i: nat, t': TableState, r: nat, c: nat)
    requires SchemaOk(db) && i < |db.tables| && OnlyCells(db.tables[i], t', r) && r < |t'.rows|
    requires c < |t'.schema.types| && t'.schema.fks[c].Some?
    ensures var db', s, v := db.With(i, t'), t'.schema, t'.Cell(r, c);
      && FkTarget(db', s, c).Some?
      && var target := FkTarget(db', s, c).value;
         (HasParent(WithoutRow(db, i, r), s.fks[c].value, v) <==> db'.tables[target.table].HasMatch(target.col, v))
  {
    var db', gone, s := db.With(i, t'), WithoutRow(db, i, r), t'.schema;
    assert db.names == db'.names[..|db.names|] && db.names == gone.names[..|db.names|];
    TargetsBySchema(db, db', s, c);
    TargetsBySchema(db, gone, s, c);
    assert FkResolves(db, i, c);
    SchemaOkBySchemas(db, gone);
    HasParentExactly(gone, s, c, t'.Cell(r, c));
  }

  lemma ChangedRefusalExactly(db: Db, i: nat, t': TableState, r: nat, c: nat, e: Error)
    requires SchemaOk(db) && i < |db.tables| && OnlyCells(db.tables[i], t', r) && db.tables[i].Live(r) && c < |t'.schema.types|
    ensures CellViolation(db.With(i, t'), i, r, c) == Some(e) <==> Refused(WithoutRow(db, i, r), i, t'.rows[r], c, e)
  {
    hide Taken, HasParent, FkTarget;
    ChangedRowDuplicate(db.tables[i], t', r, c);
    if t'.schema.fks[c].Some? {
      ChangedRowParent(db, i, t', r, c);
    } else {
      NoReference(db.With(i, t'), t'.schema, c);
    }
  }

  lemma NoReference(db: Db, s: Schema, c: nat)
    requires |db.names| == |db.tables| && c < |s.fks| && s.fks[c].None?
    ensures FkTarget(db, s, c).None?
  {
  }

  lemma {:induction false} FirstChangedRefusal(db: Db, i: nat, t': TableState, r: nat, d: nat, c: nat, e: Error)
    requires SchemaOk(db) && i < |db.tables| && OnlyCells(db.tables[i], t', r) && db.tables[i].Live(r) && d <= c < |t'.schema.types|
    requires Refused(WithoutRow(db, i, r), i, t'.rows[r], c, e)
    requires forall b: nat, f: Error :: b < c ==> !Refused(WithoutRow(db, i, r), i, t'.rows[r], b, f)
    ensures RowViolation(db.With(i, t'), i, r, d) == Some(e)
    decreases c - d
  {
    hide Refused, CellViolation;
    var v := CellViolation(db.With(i, t'), i, r, d);
    if v.Some? {
      ChangedRefusalExactly(db, i, t', r, d, v.value);
    }
    ChangedRefusalExactly(db, i, t', r, c, e);
    if d < c {
      FirstChangedRefusal(db, i, t', r, d + 1, c, e);
    }
  }

  /** The statement checks, and its first n rows have been gone through without a failure. */
  ghost predicate Reached(db: Db, s: Dml, env: Env, n: nat, now: Db) {
    && SchemaOk(db) && Integrity(db) && s.Update? && db.Find(s.table).Some?
    && var i := db.Find(s.table).value;
       var ctx := RowCtx([RowSource(db.names[i], db.tables[i], 0)], env.params, env.fpu);
       && (forall k :: 0 <= k < |s.assignments| ==> AssignmentFits(db.tables[i].schema, ctx, s.assignments[k]))
       && (s.where.Some? ==> IsPredicate(s.where.value, ctx))
       && n < |db.tables[i].rows| && KeysFree(db, i, s.assignments, s.where, env, n)
       && (forall m: nat :: m <= n ==> SoundAfter(db, i, s.assignments, s.where, env, m))
       && RowsReassigned(db, i, s.assignments, s.where, env, n, now)
  }

  /** Then the statement does what it does on row n, if that fails. */
  lemma RowDecides(db: Db, s: Dml, env: Env, n: nat, now: Db) returns (cols: seq<nat>)
    requires Reached(db, s, env, n, now)
    ensures var i := db.Find(s.table).value;
      && Resolved(db, i, s.assignments, cols, s.where, env, 0) && Integrity(now) && SchemaOk(now)
      && var r := UpdateRow(now, i, cols, Exprs(s.assignments), s.where, env, n);
         r.Err? ==> Run(db, s, env) == Err(r.error)
  {
    hide Integrity, AssignmentFits, UpdateRow, Infer, RowsReassigned, Resolved, KeysFree;
    var i := db.Find(s.table).value;
    var ctx, es := RowContext(db, i, 0, env), Exprs(s.assignments);
    AssignmentsExactly(db.tables[i].schema, ctx, s.assignments);
    cols := ResolveAssignments(db.tables[i].schema, ctx, s.assignments).value;
    AssignmentsResolve(db, i, s.assignments, cols, s.where, env);
    UpdateRowsExactly(db, i, s.assignments, cols, s.where, env, n);
    UpdateIsChecked(db, i, s.assignments, cols, s.where, env);
    UpdateIsSetwise(db, i, cols, es, s.where, env, n);
    var first := UpdateRows(db, i, cols, es, s.where, env, n);
    UpdatedIsReassigned(db, i, s.assignments, cols, s.where, env, n, first.value);
    UpdateRowsKeeps(db, i, cols, es, s.where, env, n);
    RowsReassignedOnce(db, i, s.assignments, s.where, env, n, first.value.db, now);
    if UpdateRow(now, i, cols, es, s.where, env, n).Err? {
      UpdateErrorSticks(db, i, cols, es, s.where, env, n + 1, |db.tables[i].rows|);
    }
  }

  lemma SelectedIsHit(db: Db, now: Db, i: nat, assignments: seq<Assignment>, cols: seq<nat>, where: Option<Expr>, env: Env, n: nat)
    requires Resolved(db, i, assignments, cols, where, env, 0) && n < |db.tables[i].rows| && Selected(db, i, where, env, n)
    requires RowsReassigned(db, i, assignments, where, env, n, now)
    ensures Hit(now, i, where, env, n)
  {
    hide Reassigned, Selected, Hit, WhereOk, ExprFits, RowContext;
    ResolvedOnEveryRow(db, db, i, assignments, cols, where, env, n);
    CheckedWhere(db, i, cols, Exprs(assignments), where, env, n);
    HitIsSelected(db, i, where, env, n);
    SameRowSameHit(db, now, i, where, env, n);
  }

  /** A key set in a selected row that others refer to fails the statement before anything else in that row. */
  lemma ReferencedKeyIsKept(db: Db, s: Dml, env: Env, n: nat, now: Db)
    requires Reached(db, s, env, n, now) && Selected(db, db.Find(s.table).value, s.where, env, n)
    requires SetsKey(db.tables[db.Find(s.table).value].schema, s.assignments) && !Expendable(db, db.Find(s.table).value, n)
    ensures Run(db, s, env) == Err(StillReferenced)
  {
    hide Integrity, AssignmentFits, Infer, KeysFree, Referenced, SetsKey, AssignsKey, Reassigned, Matches, SoundAfter;
    var i := db.Find(s.table).value;
    var cols := RowDecides(db, s, env, n, now);
    SelectedIsHit(db, now, i, s.assignments, cols, s.where, env, n);
    KeyIsSet(db.tables[i].schema, s.assignments, cols);
    SameReferences(db, now, i, n);
    DeleteCheckExactly(db, i, n);
  }

  /** Otherwise the first of its new cells that is refused decides, checked against the rows as they are by then. */
  lemma UpdateRefusal(db: Db, s: Dml, env: Env, n: nat, now: Db, row: Row, c: nat, e: Error)
    requires Reached(db, s, env, n, now) && Selected(db, db.Find(s.table).value, s.where, env, n)
    requires SetsKey(db.tables[db.Find(s.table).value].schema, s.assignments) ==> Expendable(db, db.Find(s.table).value, n)
    requires Reassigned(db, db.Find(s.table).value, n, s.assignments, env, row) && c < |row|
    requires var i := db.Find(s.table).value;
      Refused(WithoutRow(now, i, n), i, row, c, e) && forall d: nat, f: Error :: d < c ==> !Refused(WithoutRow(now, i, n), i, row, d, f)
    ensures Run(db, s, env) == Err(e)
  {
    hide Integrity, AssignmentFits, Infer, KeysFree, Referenced, SetsKey, AssignsKey, Reassigned, Refused, Matches, SoundAfter, RowViolation, AssignAll, ValueOf;
    var i := db.Find(s.table).value;
    var cols := RowDecides(db, s, env, n, now);
    SelectedIsHit(db, now, i, s.assignments, cols, s.where, env, n);
    KeyIsSet(db.tables[i].schema, s.assignments, cols);
    SameReferences(db, now, i, n);
    DeleteCheckExactly(db, i, n);
    NextRowIsReassigned(db, i, s.assignments, cols, s.where, env, n, now);
    var t' := AssignAll(now.tables[i], n, cols, ValuesOf(Exprs(s.assignments), RowContext(now, i, n, env)));
    ReassignedOnce(db, i, n, s.assignments, env, row, t'.rows[n]);
    FirstChangedRefusal(now, i, t', n, 0, c, e);
  }

  /** Before any row is looked at: the table, then the SET list from left to right, then the WHERE clause. */
  lemma UpdateErrors(db: Db, s: Dml, env: Env)
    requires db.Valid() && s.Update?
    ensures s.table !in db.names ==> Run(db, s, env) == Err(NoSuchTable)
    ensures db.Find(s.table).Some? ==>
      var i := db.Find(s.table).value;
      var schema, ctx := db.tables[i].schema, RowCtx([RowSource(db.names[i], db.tables[i], 0)], env.params, env.fpu);
      && (forall k :: FirstUnfit(schema, ctx, s.assignments, k) ==>
            Run(db, s, env) == Err(if s.assignments[k].column !in schema.names then NoSuchColumn else TypeMismatch))
      && ((forall k :: 0 <= k < |s.assignments| ==> AssignmentFits(schema, ctx, s.assignments[k])) && s.where.Some? && !IsPredicate(s.where.value, ctx) ==>
            Run(db, s, env) == Err(NotAPredicate))
  {
    hide AssignmentFits, Infer;
    if db.Find(s.table).Some? {
      var i := db.Find(s.table).value;
      AssignmentsExactly(db.tables[i].schema, RowContext(db, i, 0, env), s.assignments);
    }
  }

  /** Two rows with the keys 1 and 2. */
  function TwoKeys(): Db {
    Db(["t"], [TableState(Schema(["id"], [FtInt], Some(0), [None]), [[Int(1)], [Int(2)]], [false, false])])
  }

  function Shift(): Dml {
    Update("t", [Assignment("id", Binary(Add, Column(None, "id"), LitInt(1)))], None)
  }

  function Shifted(): Db {
    Db(["t"], [TableState(TwoKeys().tables[0].schema, [[Int(2)], [Int(3)]], [false, false])])
  }

  lemma ShiftEvaluates(db: Db, r: nat, k: int64, env: Env)
    requires db.Valid() && db.names == ["t"] && db.tables[0].schema == TwoKeys().tables[0].schema
    requires r < |db.tables[0].rows| && db.tables[0].rows[r] == [Int(k)] && k < 10 && k >= 0
    ensures var e, ctx := Shift().assignments[0].value, RowContext(db, 0, r, env);
      ExprFits(e, ctx, FtInt) && Evaluable(e, ctx) && EvalValue(e, ctx) == Int(k + 1)
  {
    var ctx := RowContext(db, 0, r, env);
    var schema := db.tables[0].schema;
    assert schema.names[0] == "id";
    assert schema.FindColumn("id") == Some(0);
    assert ResolveUnique(ctx, "id", 1, Some(ColumnRef(0, 0))) == Some(ColumnRef(0, 0));
    assert ResolveColumn(ctx, None, "id") == Some(ColumnRef(0, 0));
    assert Infer(Column(None, "id"), ctx) == Some(TInt);
    assert EvalValue(Column(None, "id"), ctx) == Int(k);
  }

  lemma ShiftChecks(env: Env)
    ensures Resolved(TwoKeys(), 0, Shift().assignments, [0], None, env, 0) && TwoKeys().Find("t") == Some(0)
    ensures ResolveAssignments(TwoKeys().tables[0].schema, RowContext(TwoKeys(), 0, 0, env), Shift().assignments) == Ok([0])
  {
    hide EvalValue;
    var db := TwoKeys();
    assert db.Valid() && db.names[0] == "t" && db.tables[0].schema.names[0] == "id";
    ShiftEvaluates(db, 0, 1, env);
    AssignmentsExactly(db.tables[0].schema, RowContext(db, 0, 0, env), Shift().assignments);
    assert db.tables[0].schema.FindColumn(Shift().assignments[0].column) == Some(0);
    assert ResolveAssignments(db.tables[0].schema, RowContext(db, 0, 0, env), Shift().assignments).value == [0];
  }

  /** The first row takes the key that the second still has. */
  lemma FirstShiftCollides(env: Env)
    ensures TwoKeys().Valid() && UpdateRow(TwoKeys(), 0, [0], Exprs(Shift().assignments), None, env, 0) == Err(DuplicateKey)
  {
    hide EvalValue, Infer;
    var db, ctx, es := TwoKeys(), RowContext(TwoKeys(), 0, 0, env), Exprs(Shift().assignments);
    ShiftEvaluates(db, 0, 1, env);
    assert ValuesOf(es, ctx) == [Int(2)];
    var t, t' := db.tables[0], AssignAll(db.tables[0], 0, [0], [Int(2)]);
    assert t' == AssignOne(t, 0, 0, Int(2)) by {
      assert [0][..0] == [] && [Int(2)][..0] == [] && AssignAll(t, 0, [], []) == t;
    }
    assert t.rows[0][0 := Int(2)] == [Int(2)];
    assert t'.rows == [[Int(2)], [Int(2)]];
    assert t'.Holds(1, 0, t'.Cell(0, 0)) && t'.HasDuplicate(0, 0);
    assert !Referenced(db, 0, 0);
  }

  /** UPDATE t SET id = id + 1 on the keys 1 and 2 is refused, although all rows together would have been sound. */
  lemma ShiftIsRefused(env: Env)
    ensures SchemaOk(TwoKeys()) && Integrity(TwoKeys()) && Run(TwoKeys(), Shift(), env) == Err(DuplicateKey)
    ensures RowsReassigned(TwoKeys(), 0, Shift().assignments, None, env, 2, Shifted()) && Integrity(Shifted())
  {
    var db, es := TwoKeys(), Exprs(Shift().assignments);
    ShiftChecks(env);
    FirstShiftCollides(env);
    assert UpdateRows(db, 0, [0], es, None, env, 0) == Ok(Effect(db, 0));
    UpdateErrorSticks(db, 0, [0], es, None, env, 1, 2);
    ShiftedIsReassigned(env);
  }

  lemma ShiftedIsReassigned(env: Env)
    ensures RowsReassigned(TwoKeys(), 0, Shift().assignments, None, env, 2, Shifted()) && Integrity(Shifted())
    ensures SchemaOk(TwoKeys()) && Integrity(TwoKeys())
  {
    hide EvalValue, Infer, Integrity, SchemaOk;
    var db := TwoKeys();
    TwoKeysAreSound(db, 1);
    TwoKeysAreSound(Shifted(), 2);
    assert db.With(0, Shifted().tables[0]) == Shifted();
    forall r | 0 <= r < 2 ensures Reassigned(db, 0, r, Shift().assignments, env, Shifted().tables[0].rows[r]) {
      ShiftEvaluates(db, r, r + 1, env);
      assert HasValue(db, 0, r, env, Shift().assignments[0].value, Int(r + 2));
      assert db.tables[0].schema.FindColumn("id") == Some(0) by { assert db.tables[0].schema.names[0] == "id"; }
    }
  }

  lemma TwoKeysAreSound(db: Db, k: int64)
    requires 0 <= k < 10
    requires db == Db(["t"], [TableState(Schema(["id"], [FtInt], Some(0), [None]), [[Int(k)], [Int(k + 1)]], [false, false])])
    ensures SchemaOk(db) && Integrity(db)
  {
    var t := db.tables[0];
    assert !t.Holds(0, 0, t.Cell(1, 0)) && !t.Holds(1, 0, t.Cell(0, 0));
    forall r | t.Live(r) ensures KeyOk(t, r) && RefOk(db, 0, r, 0) {
    }
  }

  /******* DELETE *******/

  /** The table with the selected rows among the first n dead. */
  ghost function WithoutSelected(db: Db, i: nat, where: Option<Expr>, env: Env, n: nat): Db
    requires db.Valid() && i < |db.tables|
  {
    var t := db.tables[i];
    db.With(i, t.(dead := seq(|t.dead|, r requires 0 <= r < |t.dead| => t.dead[r] || (r < n && Selected(db, i, where, env, r)))))
  }

  lemma DeletedIsWithout(db: Db, i: nat, where: Option<Expr>, env: Env, n: nat, e: Effect)
    requires db.Valid() && i < |db.tables| && n <= |db.tables[i].rows| && WhereOk(where, RowContext(db, i, 0, env))
    requires DeletedFrom(db, i, where, env, n, e)
    ensures e.db == WithoutSelected(db, i, where, env, n)
  {
    hide WhereOk, RowContext;
    WhereEverywhere(db, i, where, env);
    forall r: nat ensures Hit(db, i, where, env, r) <==> Selected(db, i, where, env, r) {
      HitIsSelected(db, i, where, env, r);
    }
    var t, u := db.tables[i], WithoutSelected(db, i, where, env, n).tables[i];
    assert e.db.tables[i].dead == u.dead;
    assert e.db.tables == db.tables[i := u];
  }

  /** DELETE tombstones exactly the selected rows and counts them. */
  lemma DeleteMeans(db: Db, s: Dml, env: Env)
    requires db.Valid() && s.Delete? && Run(db, s, env).Ok?
    ensures s.table in db.names
    ensures var i, e := db.Find(s.table).value, Run(db, s, env).value;
      && e.db == WithoutSelected(db, i, s.where, env, |db.tables[i].rows|)
      && e.changes == |SelectedBelow(db, i, s.where, env, |db.tables[i].rows|)|
  {
    hide WhereOk, DeleteRows, Selected, Hit;
    var i, e := db.Find(s.table).value, Run(db, s, env).value;
    var n := |db.tables[i].rows|;
    DeleteIsSetwise(db, i, s.where, env, n);
    DeletedIsWithout(db, i, s.where, env, n, e);
    WhereEverywhere(db, i, s.where, env);
    HitsCountSelected(db, i, s.where, env, n);
  }

  /** The same table with other rows dead. */
  ghost predicate MoreDead(t: TableState, u: TableState) {
    t.Valid() && u.Valid() && u == t.(dead := u.dead) && forall r :: 0 <= r < |t.dead| && t.dead[r] ==> u.dead[r]
  }

  /** If a deletion leaves a sound catalog, so does a smaller one. */
  lemma FewerDeletesKeepIntegrity(db: Db, i: nat, few: TableState, many: TableState)
    requires SchemaOk(db) && Integrity(db) && i < |db.tables| && MoreDead(db.tables[i], few) && MoreDead(few, many)
    requires Integrity(db.With(i, many))
    ensures Integrity(db.With(i, few))
  {
    var t, a, b := db.tables[i], db.With(i, few), db.With(i, many);
    forall j, r | 0 <= j < |a.tables| && a.tables[j].Live(r) ensures KeyOk(a.tables[j], r) {
      assert KeyOk(db.tables[j], r);
      if j == i && t.schema.pk.Some? {
        var k := t.schema.pk.value;
        assert t.HasCell(r, k);
        forall q | q != r ensures !few.Holds(q, k, few.Cell(r, k)) {
          assert !t.Holds(q, k, t.Cell(r, k));
        }
      }
    }
    assert db.names == a.names[..|db.names|] && db.names == b.names[..|db.names|];
    forall j, r, c | 0 <= j < |a.tables| && a.tables[j].Live(r) && 0 <= c < |a.tables[j].schema.types| ensures RefOk(a, j, r, c) {
      var s := db.tables[j].schema;
      TargetsBySchema(db, a, s, c);
      TargetsBySchema(db, b, s, c);
      assert FkResolves(db, j, c) && RefOk(db, j, r, c);
      if FkTarget(db, s, c).Some? && !db.tables[j].Cell(r, c).Null? {
        var target, v := FkTarget(db, s, c).value, db.tables[j].Cell(r, c);
        if target.table == i {
          assert RefOk(b, j, r, c);
          var q :| many.Holds(q, target.col, v);
          assert few.Holds(q, target.col, v);
        }
      }
    }
  }

  lemma SmallerDeleteIsSound(db: Db, i: nat, where: Option<Expr>, env: Env, n: nat)
    requires SchemaOk(db) && Integrity(db) && i < |db.tables| && Integrity(WithoutSelected(db, i, where, env, n + 1))
    ensures Integrity(WithoutSelected(db, i, where, env, n))
  {
    hide Integrity, Selected;
    var few, many := WithoutSelected(db, i, where, env, n), WithoutSelected(db, i, where, env, n + 1);
    FewerDeletesKeepIntegrity(db, i, few.tables[i], many.tables[i]);
  }

  lemma NothingSelected(db: Db, i: nat, where: Option<Expr>, env: Env)
    requires db.Valid() && i < |db.tables|
    ensures WithoutSelected(db, i, where, env, 0) == db
  {
    assert WithoutSelected(db, i, where, env, 0).tables[i].dead == db.tables[i].dead;
  }

  lemma {:induction false} DeleteRowsExactly(db: Db, i: nat, where: Option<Expr>, env: Env, n: nat)
    requires SchemaOk(db) && Integrity(db) && i < |db.tables| && n <= |db.tables[i].rows| && WhereOk(where, RowContext(db, i, 0, env))
    ensures var r := DeleteRows(db, i, where, env, n);
      && (r.Ok? <==> Integrity(WithoutSelected(db, i, where, env, n)))
      && (r.Err? ==> r.error == StillReferenced)
  {
    hide Integrity, WhereOk, WithoutSelected, RowContext, DeleteRow, DeletedFrom;
    if n == 0 {
      NothingSelected(db, i, where, env);
    } else {
      DeleteRowsExactly(db, i, where, env, n - 1);
      var first := DeleteRows(db, i, where, env, n - 1);
      if first.Ok? {
        DeleteIsSetwise(db, i, where, env, n - 1);
        DeletedIsWithout(db, i, where, env, n - 1, first.value);
        DeleteRowsKeeps(db, i, where, env, n - 1);
        OneMoreDeleteExactly(db, i, where, env, n - 1);
      } else if Integrity(WithoutSelected(db, i, where, env, n)) {
        SmallerDeleteIsSound(db, i, where, env, n - 1);
      }
    }
  }

  lemma OneMoreDeleteExactly(db: Db, i: nat, where: Option<Expr>, env: Env, n: nat)
    requires SchemaOk(db) && Integrity(db) && i < |db.tables| && n < |db.tables[i].rows| && WhereOk(where, RowContext(db, i, 0, env))
    requires Integrity(WithoutSelected(db, i, where, env, n))
    ensures WithoutSelected(db, i, where, env, n).Valid()
    ensures var r := DeleteRow(WithoutSelected(db, i, where, env, n), i, where, env, n);
      && (r.Ok? <==> Integrity(WithoutSelected(db, i, where, env, n + 1)))
      && (r.Err? ==> r.error == StillReferenced)
  {
    hide Integrity, WhereOk, Selected, RowContext, Matches, Referenced;
    var now := WithoutSelected(db, i, where, env, n);
    WhereEverywhere(db, i, where, env);
    HitIsSelected(db, i, where, env, n);
    SameRowSameHit(db, now, i, where, env, n);
    var after := WithoutSelected(db, i, where, env, n + 1);
    if Hit(db, i, where, env, n) {
      assert after.tables[i].dead == now.tables[i].dead[n := true];
      assert after == now.With(i, now.tables[i].SetDead(n, true));
      SchemaOkBySchemas(db, now);
      DeleteCheckExactly(now, i, n);
    } else {
      assert after.tables[i].dead == now.tables[i].dead;
      assert after == now;
    }
  }

  lemma DeleteErrors(db: Db, s: Dml, env: Env)
    requires db.Valid() && s.Delete?
    ensures s.table !in db.names ==> Run(db, s, env) == Err(NoSuchTable)
    ensures db.Find(s.table).Some? ==>
      var i := db.Find(s.table).value;
      s.where.Some? && !IsPredicate(s.where.value, RowCtx([RowSource(db.names[i], db.tables[i], 0)], env.params, env.fpu)) ==>
        Run(db, s, env) == Err(NotAPredicate)
  {
    hide Infer;
  }

  /** A DELETE is refused exactly if the catalog without all the selected rows would have a reference without its parent. */
  lemma DeleteExactly(db: Db, s: Dml, env: Env)
    requires SchemaOk(db) && Integrity(db) && s.Delete? && db.Find(s.table).Some?
    requires var i := db.Find(s.table).value;
      s.where.Some? ==> IsPredicate(s.where.value, RowCtx([RowSource(db.names[i], db.tables[i], 0)], env.params, env.fpu))
    ensures var i, r := db.Find(s.table).value, Run(db, s, env);
      && (r.Ok? <==> Integrity(WithoutSelected(db, i, s.where, env, |db.tables[i].rows|)))
      && (r.Err? ==> r.error == StillReferenced)
  {
    hide Integrity, Infer;
    var i := db.Find(s.table).value;
    DeleteRowsExactly(db, i, s.where, env, |db.tables[i].rows|);
  }
}
