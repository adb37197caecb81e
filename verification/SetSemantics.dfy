/**
 What UPDATE and DELETE mean: although they go row by row and change the table as they go,
 every row is judged and changed as it was when the statement began.
 */
module SetSemantics {
  import opened Values
  import opened TableStates
  import opened Expressions
  import opened Catalogs
  import opened Constraints
  import opened Statements
  import opened Outcomes

  /** The cell of a column is what the last assignment to it stored. */
  lemma {:induction false} LastAssignmentWins(t: TableState, row: nat, cols: seq<nat>, vs: seq<Value>, k: nat)
    requires t.Valid() && row < |t.rows| && k < |cols| == |vs|
    requires cols[k] < |t.schema.types| && Assignable(vs[k], t.schema.types[cols[k]])
    requires forall j :: k < j < |cols| ==> cols[j] != cols[k]
    ensures var t' := AssignAll(t, row, cols, vs);
      row < |t'.rows| && cols[k] < |t'.rows[row]| && t'.rows[row][cols[k]] == Assigned(vs[k], t.schema.types[cols[k]])
  {
    var n := |cols| - 1;
    AssignAllShape(t, row, cols[..n], vs[..n]);
    AssignAllShape(t, row, cols, vs);
    if k < n {
      LastAssignmentWins(t, row, cols[..n], vs[..n], k);
    }
  }

  /** A row of VALUES: each named column holds its value, every other column is NULL. */
  lemma InsertedRowHolds(db: Db, i: nat, cols: seq<nat>, values: seq<Expr>, env: Env, db': Db, c: nat)
    requires db.Valid() && i < |db.tables| && InsertRow(db, i, cols, values, env) == Ok(db')
    requires c < |db.tables[i].schema.types|
    ensures var n := |db.tables[i].rows|;
      && |db'.tables| == |db.tables| && db'.tables[i].Live(n) && db'.tables[i].HasCell(n, c)
      && (c !in cols ==> db'.tables[i].Cell(n, c) == Null(db.tables[i].schema.types[c]))
      && (forall k :: 0 <= k < |cols| == |values| && cols[k] == c && (forall j :: k < j < |cols| ==> cols[j] != c) ==>
            Evaluable(values[k], NoContext(env)) && Assignable(EvalValue(values[k], NoContext(env)), db.tables[i].schema.types[c])
            && db'.tables[i].Cell(n, c) == Assigned(EvalValue(values[k], NoContext(env)), db.tables[i].schema.types[c]))
  {
    var t, ctx := db.tables[i], NoContext(env);
    var vs := ValuesOf(values, ctx);
    AppendShape(t, cols, vs);
    AssignAllShape(t.AppendNull(), |t.rows|, cols, vs);
    forall k | 0 <= k < |cols| == |values| && cols[k] == c && (forall j :: k < j < |cols| ==> cols[j] != c)
      ensures Evaluable(values[k], ctx) && Assignable(EvalValue(values[k], ctx), t.schema.types[c])
      ensures db'.tables[i].Cell(|t.rows|, c) == Assigned(EvalValue(values[k], ctx), t.schema.types[c]) {
      GoodValues(values, cols, t.schema.types, env, 0, k);
      FittingValueIsAssignable(values[k], ctx, t.schema.types[c]);
      LastAssignmentWins(t.AppendNull(), |t.rows|, cols, vs, k);
    }
  }

  /** The statement selects the row, judged on the catalog it began with. */
  ghost predicate Hit(db: Db, i: nat, where: Option<Expr>, env: Env, r: nat)
    requires db.Valid() && i < |db.tables|
  {
    db.tables[i].Live(r) && Matches(where, RowContext(db, i, r, env))
  }

  ghost function Hits(db: Db, i: nat, where: Option<Expr>, env: Env, n: nat): nat
    requires db.Valid() && i < |db.tables|
  {
    if n == 0 then 0 else Hits(db, i, where, env, n - 1) + if Hit(db, i, where, env, n - 1) then 1 else 0
  }

  /** The same row in two states of the catalog. */
  ghost predicate SameRow(db: Db, now: Db, i: nat, r: nat) {
    && db.Valid() && now.Valid() && SameShape(db, now) && i < |db.tables| && r < |db.tables[i].rows|
    && now.tables[i].rows[r] == db.tables[i].rows[r] && now.tables[i].dead[r] == db.tables[i].dead[r]
  }

  lemma {:induction false} SameRowSameView(e: Expr, db: Db, now: Db, i: nat, r: nat, env: Env)
    requires SameRow(db, now, i, r) && Infer(e, RowContext(db, i, r, env)).Some?
    ensures SameView(e, RowContext(db, i, r, env), RowContext(now, i, r, env))
  {
    var a, b := RowContext(db, i, r, env), RowContext(now, i, r, env);
    match e {
      case Column(table, name) => InferBySchema(e, a, b);
        if table.Some? {
          ResolveQualifiedBySchema(a, b, table.value, name, 0);
        } else {
          ResolveUniqueBySchema(a, b, name, 0, None);
        }
      case Not(x) => SameRowSameView(x, db, now, i, r, env);
      case Neg(x) => SameRowSameView(x, db, now, i, r, env);
      case Binary(_, l, q) => SameRowSameView(l, db, now, i, r, env); SameRowSameView(q, db, now, i, r, env);
      case _ =>
    }
  }

  lemma SameRowSameHit(db: Db, now: Db, i: nat, where: Option<Expr>, env: Env, r: nat)
    requires SameRow(db, now, i, r) && WhereOk(where, RowContext(db, i, r, env))
    ensures Hit(now, i, where, env, r) <==> Hit(db, i, where, env, r)
  {
    if where.Some? {
      SameRowSameView(where.value, db, now, i, r, env);
      SameViewSameResult(where.value, RowContext(db, i, r, env), RowContext(now, i, r, env));
    }
  }

  lemma SameRowSameValues(db: Db, now: Db, i: nat, es: seq<Expr>, env: Env, r: nat)
    requires SameRow(db, now, i, r) && forall k :: 0 <= k < |es| ==> Evaluable(es[k], RowContext(db, i, r, env))
    ensures ValuesOf(es, RowContext(now, i, r, env)) == ValuesOf(es, RowContext(db, i, r, env))
  {
    var a, b := RowContext(db, i, r, env), RowContext(now, i, r, env);
    forall k | 0 <= k < |es| ensures ValueOf(es[k], a) == ValueOf(es[k], b) {
      SameRowSameView(es[k], db, now, i, r, env);
      SameViewSameResult(es[k], a, b);
    }
  }

  lemma {:induction false} AssignAllIsLocal(t: TableState, u: TableState, row: nat, cols: seq<nat>, vs: seq<Value>)
    requires t.Valid() && u.Valid() && t.schema == u.schema && row < |t.rows| && row < |u.rows| && t.rows[row] == u.rows[row] && |cols| == |vs|
    ensures row < |AssignAll(t, row, cols, vs).rows| && row < |AssignAll(u, row, cols, vs).rows|
    ensures AssignAll(t, row, cols, vs).rows[row] == AssignAll(u, row, cols, vs).rows[row]
  {
    AssignAllShape(t, row, cols, vs);
    AssignAllShape(u, row, cols, vs);
    if cols != [] {
      var n := |cols| - 1;
      AssignAllShape(t, row, cols[..n], vs[..n]);
      AssignAllShape(u, row, cols[..n], vs[..n]);
      AssignAllIsLocal(t, u, row, cols[..n], vs[..n]);
    }
  }

  /** The row an UPDATE makes of row r, all right-hand sides evaluated on the row as it was. */
  ghost function NewRow(db: Db, i: nat, cols: seq<nat>, es: seq<Expr>, where: Option<Expr>, env: Env, r: nat): Row
    requires db.Valid() && i < |db.tables| && |cols| == |es| && r < |db.tables[i].rows|
  {
    var t, vs := db.tables[i], ValuesOf(es, RowContext(db, i, r, env));
    AssignAllShape(t, r, cols, vs);
    if Hit(db, i, where, env, r) then AssignAll(t, r, cols, vs).rows[r] else t.rows[r]
  }

  /** The first n rows are updated from the starting catalog, the others as they were. */
  ghost predicate UpdatedFrom(db: Db, i: nat, cols: seq<nat>, es: seq<Expr>, where: Option<Expr>, env: Env, n: nat, e: Effect)
    requires db.Valid() && i < |db.tables| && |cols| == |es| && n <= |db.tables[i].rows|
  {
    && e.db.Valid() && SameShape(db, e.db) && e.db.tables[i].dead == db.tables[i].dead
    && (forall j :: 0 <= j < |db.tables| && j != i ==> e.db.tables[j] == db.tables[j])
    && (forall r :: 0 <= r < |db.tables[i].rows| ==>
          e.db.tables[i].rows[r] == if r < n then NewRow(db, i, cols, es, where, env, r) else db.tables[i].rows[r])
    && e.changes == Hits(db, i, where, env, n)
  }

  lemma UpdateOneMore(db: Db, i: nat, cols: seq<nat>, es: seq<Expr>, where: Option<Expr>, env: Env, n: nat, before: Effect, last: Effect)
    requires UpdateChecked(db, i, cols, es, where, env, n) && n < |db.tables[i].rows|
    requires UpdatedFrom(db, i, cols, es, where, env, n, before)
    requires UpdateRow(before.db, i, cols, es, where, env, n) == Ok(last)
    ensures UpdatedFrom(db, i, cols, es, where, env, n + 1, Effect(last.db, before.changes + last.changes))
  {
    hide RowViolation, Referenced, Matches, AssignsKey, ValueOf, RowContext, EvalValue, Infer;
    var now := before.db;
    SameRowSameHit(db, now, i, where, env, n);
    UpdateCheckedHere(db, i, cols, es, where, env, n);
    SameRowSameValues(db, now, i, es, env, n);
    var vs := ValuesOf(es, RowContext(db, i, n, env));
    AssignAllShape(now.tables[i], n, cols, vs);
    AssignAllIsLocal(db.tables[i], now.tables[i], n, cols, vs);
  }

  /** UPDATE row by row is UPDATE all at once: no row sees what the statement did to another, or to itself. */
  lemma {:induction false} UpdateIsSetwise(db: Db, i: nat, cols: seq<nat>, es: seq<Expr>, where: Option<Expr>, env: Env, n: nat)
    requires UpdateChecked(db, i, cols, es, where, env, 0) && n <= |db.tables[i].rows|
    requires UpdateRows(db, i, cols, es, where, env, n).Ok?
    ensures UpdatedFrom(db, i, cols, es, where, env, n, UpdateRows(db, i, cols, es, where, env, n).value)
  {
    hide UpdateRow, NewRow, Hit, RowContext, ExprFits, WhereOk;
    if n > 0 {
      UpdateIsSetwise(db, i, cols, es, where, env, n - 1);
      UpdateCheckedOnEveryRow(db, db, i, cols, es, where, env, 0, n - 1);
      var before := UpdateRows(db, i, cols, es, where, env, n - 1).value;
      UpdateOneMore(db, i, cols, es, where, env, n - 1, before, UpdateRow(before.db, i, cols, es, where, env, n - 1).value);
    }
  }

  /** The hit rows among the first n are dead, everything else is as it was. */
  ghost predicate DeletedFrom(db: Db, i: nat, where: Option<Expr>, env: Env, n: nat, e: Effect)
    requires db.Valid() && i < |db.tables| && n <= |db.tables[i].rows|
  {
    && e.db.Valid() && SameShape(db, e.db) && e.db.tables[i].rows == db.tables[i].rows
    && (forall j :: 0 <= j < |db.tables| && j != i ==> e.db.tables[j] == db.tables[j])
    && (forall r :: 0 <= r < |db.tables[i].dead| ==>
          e.db.tables[i].dead[r] == (db.tables[i].dead[r] || (r < n && Hit(db, i, where, env, r))))
    && e.changes == Hits(db, i, where, env, n)
  }

  lemma DeleteOneMore(db: Db, i: nat, where: Option<Expr>, env: Env, n: nat, before: Effect, last: Effect)
    requires db.Valid() && i < |db.tables| && n < |db.tables[i].rows| && WhereOk(where, RowContext(db, i, n, env))
    requires DeletedFrom(db, i, where, env, n, before) && DeleteRow(before.db, i, where, env, n) == Ok(last)
    ensures DeletedFrom(db, i, where, env, n + 1, Effect(last.db, before.changes + last.changes))
  {
    hide Matches, RowContext, WhereOk, Referenced;
    SameRowSameHit(db, before.db, i, where, env, n);
  }

  /** DELETE removes exactly the rows its WHERE clause selects in the table it began with. */
  lemma {:induction false} DeleteIsSetwise(db: Db, i: nat, where: Option<Expr>, env: Env, n: nat)
    requires db.Valid() && i < |db.tables| && n <= |db.tables[i].rows| && WhereOk(where, RowContext(db, i, 0, env))
    requires DeleteRows(db, i, where, env, n).Ok?
    ensures DeletedFrom(db, i, where, env, n, DeleteRows(db, i, where, env, n).value)
  {
    hide DeleteRow, Hit, RowContext, WhereOk;
    if n > 0 {
      DeleteIsSetwise(db, i, where, env, n - 1);
      WhereOkOnEveryRow(db, db, i, where, env, 0, n - 1);
      var before := DeleteRows(db, i, where, env, n - 1).value;
      DeleteOneMore(db, i, where, env, n - 1, before, DeleteRow(before.db, i, where, env, n - 1).value);
    }
  }
}
