/**
 INSERT, UPDATE, DELETE and CREATE TABLE as functions on the catalog. A statement either
 gives the new catalog and the number of rows it changed, or the first error it meets.
 */
module Statements {
  import opened Values
  import opened TableStates
  import opened Expressions
  import opened Catalogs
  import opened Constraints

  datatype Env = Env(params: seq<Value>, fpu: FloatUnit)

  datatype Assignment = Assignment(column: string, value: Expr)

  datatype ColumnDef = ColumnDef(name: string, kind: FieldType, primary: bool, fk: Option<FkRef>)

  /** An INSERT without a column list has an empty one. */
  datatype Dml =
    | Insert(table: string, columns: seq<string>, rows: seq<seq<Expr>>)
    | Update(table: string, assignments: seq<Assignment>, where: Option<Expr>)
    | Delete(table: string, where: Option<Expr>)

  datatype Effect = Effect(db: Db, changes: nat)

  /******* Shared pieces *******/

  /** The evaluation context of one row of one table; VALUES lists are evaluated without any source. */
  function RowContext(db: Db, i: nat, r: nat, env: Env): RowCtx
    requires i < |db.tables| == |db.names|
  {
    RowCtx([RowSource(db.names[i], db.tables[i], r)], env.params, env.fpu)
  }

  function NoContext(env: Env): RowCtx {
    RowCtx([], env.params, env.fpu)
  }

  ghost predicate WhereOk(where: Option<Expr>, ctx: RowCtx) {
    where.None? || IsPredicate(where.value, ctx)
  }

  /** The row passes the WHERE clause: only TRUE does, UNKNOWN does not. */
  ghost predicate Matches(where: Option<Expr>, ctx: RowCtx) {
    where.None? || (IsPredicate(where.value, ctx) && ctx.OnRows() && EvalTri(where.value, ctx).True?)
  }

  ghost function ValueOf(e: Expr, ctx: RowCtx): Value {
    if Evaluable(e, ctx) then EvalValue(e, ctx) else Null(FtText)
  }

  ghost function ValuesOf(es: seq<Expr>, ctx: RowCtx): (vs: seq<Value>)
    ensures |vs| == |es|
  {
    seq(|es|, k requires 0 <= k < |es| => ValueOf(es[k], ctx))
  }

  predicate Assignable(v: Value, kind: FieldType) {
    v.Null? || Fits(TypeOfField(v.Kind()), kind)
  }

  function AssignOne(t: TableState, row: nat, c: nat, v: Value): TableState {
    if c < |t.schema.types| && Assignable(v, t.schema.types[c]) then t.PutCell(row, c, Assigned(v, t.schema.types[c])) else t
  }

  /** Assignments in order: a column assigned twice ends with the later value. */
  function AssignAll(t: TableState, row: nat, cols: seq<nat>, vs: seq<Value>): TableState
    requires |cols| == |vs|
  {
    if cols == [] then t
    else AssignOne(AssignAll(t, row, cols[..|cols| - 1], vs[..|vs| - 1]), row, cols[|cols| - 1], vs[|vs| - 1])
  }

  lemma {:induction false} AssignAllShape(t: TableState, row: nat, cols: seq<nat>, vs: seq<Value>)
    requires t.Valid() && row < |t.rows| && |cols| == |vs|
    ensures var t' := AssignAll(t, row, cols, vs);
      && t'.Valid() && t'.schema == t.schema && t'.dead == t.dead && |t'.rows| == |t.rows|
      && (forall r :: 0 <= r < |t.rows| && r != row ==> t'.rows[r] == t.rows[r])
      && (forall c :: 0 <= c < |t.schema.types| && c !in cols ==> t'.rows[row][c] == t.rows[row][c])
  {
    if cols != [] {
      AssignAllShape(t, row, cols[..|cols| - 1], vs[..|vs| - 1]);
      assert cols == cols[..|cols| - 1] + [cols[|cols| - 1]];
    }
  }

  lemma AssignAllStep(t: TableState, row: nat, cols: seq<nat>, vs: seq<Value>, k: nat)
    requires k < |cols| == |vs|
    ensures AssignAll(t, row, cols[..k + 1], vs[..k + 1]) == AssignOne(AssignAll(t, row, cols[..k], vs[..k]), row, cols[k], vs[k])
  {
    assert cols[..k + 1][..k] == cols[..k] && vs[..k + 1][..k] == vs[..k];
  }

  /** t' differs from t in cells of one row only. */
  ghost predicate OnlyCells(t: TableState, t': TableState, row: nat) {
    && t.Valid() && t'.Valid() && t'.schema == t.schema && t'.dead == t.dead && |t'.rows| == |t.rows|
    && forall r :: 0 <= r < |t.rows| && r != row ==> t'.rows[r] == t.rows[r]
  }

  lemma OnlyCellsNone(t: TableState, row: nat)
    requires t.Valid()
    ensures OnlyCells(t, t, row)
  {
  }

  lemma AssignOneOnlyCells(t: TableState, t': TableState, row: nat, c: nat, v: Value)
    requires OnlyCells(t, t', row)
    ensures OnlyCells(t, AssignOne(t', row, c, v), row)
  {
  }

  /** A row appended, filled in part and then tombstoned is a dead extension. */
  lemma KilledRowIsExt(t: TableState, t': TableState)
    requires t.Valid() && OnlyCells(t.AppendNull(), t', |t.rows|)
    ensures TableExt(t, t'.SetDead(|t.rows|, true)) && t'.SetDead(|t.rows|, true).Valid()
    ensures GrewByRow(t, t')
  {
    var a := t.AppendNull();
    forall r | 0 <= r < |t.rows| ensures t'.rows[r] == t.rows[r] {
      assert a.rows[r] == t.rows[r];
    }
  }

  /******* INSERT *******/

  function ResolveColumns(schema: Schema, columns: seq<string>): (r: Result<seq<nat>, Error>)
    ensures r.Ok? ==> |r.value| == |columns|
    ensures r.Ok? ==> forall k :: 0 <= k < |columns| ==> schema.FindColumn(columns[k]) == Some(r.value[k])
    ensures r.Err? ==> r.error == NoSuchColumn && exists k :: 0 <= k < |columns| && columns[k] !in schema.names
  {
    if columns == [] then Ok([])
    else
      var first := ResolveColumns(schema, columns[..|columns| - 1]);
      var last := schema.FindColumn(columns[|columns| - 1]);
      if first.Err? then first
      else if last.None? then Err(NoSuchColumn)
      else Ok(first.value + [last.value])
  }

  predicate Repeats(cols: seq<nat>) {
    exists a, b :: 0 <= a < b < |cols| && cols[a] == cols[b]
  }

  /** The columns VALUES lists map onto, in order. */
  function InsertColumns(schema: Schema, columns: seq<string>): (r: Result<seq<nat>, Error>)
    ensures schema.Valid() && r.Ok? ==> forall k :: 0 <= k < |r.value| ==> r.value[k] < |schema.types|
    ensures r.Ok? && columns == [] ==> |r.value| == |schema.types| && forall c :: 0 <= c < |r.value| ==> r.value[c] == c
    ensures r.Ok? && columns != [] ==>
      |r.value| == |columns| && !Repeats(r.value) && forall k :: 0 <= k < |columns| ==> schema.FindColumn(columns[k]) == Some(r.value[k])
  {
    if columns == [] then Ok(seq(|schema.types|, c => c))
    else
      var r := ResolveColumns(schema, columns);
      if r.Ok? && Repeats(r.value) then Err(DuplicateColumn) else r
  }

  /** The first value that has a column reference or does not fit its column. */
  ghost function FirstBadValue(values: seq<Expr>, cols: seq<nat>, types: seq<FieldType>, env: Env, k: nat): Option<Error>
    requires |values| == |cols| && k <= |values|
    decreases |values| - k
  {
    if k == |values| then None
    else if HasColumnRef(values[k]) then Some(ColumnInValues)
    else if !(cols[k] < |types| && ExprFits(values[k], NoContext(env), types[cols[k]])) then Some(TypeMismatch)
    else FirstBadValue(values, cols, types, env, k + 1)
  }

  lemma {:induction false} GoodValues(values: seq<Expr>, cols: seq<nat>, types: seq<FieldType>, env: Env, k: nat, j: nat)
    requires |values| == |cols| && k <= j < |values| && FirstBadValue(values, cols, types, env, k).None?
    ensures !HasColumnRef(values[j]) && cols[j] < |types| && ExprFits(values[j], NoContext(env), types[cols[j]])
    decreases j - k
  {
    if k < j {
      GoodValues(values, cols, types, env, k + 1, j);
    }
  }

  ghost function InsertRow(db: Db, i: nat, cols: seq<nat>, values: seq<Expr>, env: Env): Result<Db, Error>
    requires db.Valid() && i < |db.tables|
  {
    var t := db.tables[i];
    if |values| != |cols| then Err(WrongValueCount)
    else
      var bad := FirstBadValue(values, cols, t.schema.types, env, 0);
      if bad.Some? then Err(bad.value)
      else
        var db' := WithNewRow(db, i, cols, ValuesOf(values, NoContext(env)));
        var v := RowViolation(db', i, |t.rows|, 0);
        if v.Some? then Err(v.value) else Ok(db')
  }

  /** The catalog with one more row in table i, holding vs in cols and null elsewhere. */
  ghost function WithNewRow(db: Db, i: nat, cols: seq<nat>, vs: seq<Value>): (db': Db)
    requires db.Valid() && i < |db.tables| && |cols| == |vs|
    ensures db'.Valid() && |db'.tables| == |db.tables| && |db'.tables[i].rows| == |db.tables[i].rows| + 1
  {
    var t := db.tables[i];
    AppendShape(t, cols, vs);
    db.With(i, AssignAll(t.AppendNull(), |t.rows|, cols, vs))
  }

  /** A failed INSERT leaves dead rows at the end of one table at most. */
  ghost predicate LeavesDeadRows(db: Db, i: nat, db': Db) {
    && i < |db.tables| == |db'.tables|
    && db' == db.With(i, db'.tables[i]) && TableExt(db.tables[i], db'.tables[i])
  }

  lemma AppendShape(t: TableState, cols: seq<nat>, vs: seq<Value>)
    requires t.Valid() && |cols| == |vs|
    ensures var t' := AssignAll(t.AppendNull(), |t.rows|, cols, vs);
      GrewByRow(t, t') && t'.Live(|t.rows|) && OnlyRow(t, t', |t.rows|)
  {
    var a := t.AppendNull();
    AssignAllShape(a, |t.rows|, cols, vs);
    var t' := AssignAll(a, |t.rows|, cols, vs);
    forall r | 0 <= r < |t.rows| ensures t'.rows[r] == t.rows[r] {
      assert a.rows[r] == t.rows[r];
    }
  }

  ghost function InsertRows(db: Db, i: nat, cols: seq<nat>, rows: seq<seq<Expr>>, env: Env): Result<Db, Error>
    requires db.Valid() && i < |db.tables|
    decreases |rows|
  {
    if rows == [] then Ok(db)
    else
      var first := InsertRows(db, i, cols, rows[..|rows| - 1], env);
      if first.Err? then first
      else if !(first.value.Valid() && i < |first.value.tables|) then first
      else InsertRow(first.value, i, cols, rows[|rows| - 1], env)
  }

  lemma {:induction false} InsertErrorSticks(db: Db, i: nat, cols: seq<nat>, rows: seq<seq<Expr>>, env: Env, k: nat)
    requires db.Valid() && i < |db.tables| && k <= |rows| && InsertRows(db, i, cols, rows[..k], env).Err?
    ensures InsertRows(db, i, cols, rows, env) == InsertRows(db, i, cols, rows[..k], env)
    decreases |rows| - k
  {
    if k < |rows| {
      assert rows[..k + 1][..k] == rows[..k];
      InsertErrorSticks(db, i, cols, rows, env, k + 1);
    } else {
      assert rows[..k] == rows;
    }
  }

  /******* UPDATE *******/

  /** Columns of the SET list, each checked against its expression before the next is looked at. */
  ghost function ResolveAssignments(schema: Schema, ctx: RowCtx, assignments: seq<Assignment>): (r: Result<seq<nat>, Error>)
    requires schema.Valid()
    ensures r.Ok? ==> |r.value| == |assignments|
    ensures r.Ok? ==> forall k :: 0 <= k < |r.value| ==>
      schema.FindColumn(assignments[k].column) == Some(r.value[k])
      && r.value[k] < |schema.types| && ExprFits(assignments[k].value, ctx, schema.types[r.value[k]])
  {
    if assignments == [] then Ok([])
    else
      var n := |assignments| - 1;
      var first := ResolveAssignments(schema, ctx, assignments[..n]);
      var last := schema.FindColumn(assignments[n].column);
      if first.Err? then first
      else if last.None? then Err(NoSuchColumn)
      else if !ExprFits(assignments[n].value, ctx, schema.types[last.value]) then Err(TypeMismatch)
      else Ok(first.value + [last.value])
  }

  function Exprs(assignments: seq<Assignment>): (es: seq<Expr>)
    ensures |es| == |assignments|
  {
    seq(|assignments|, k requires 0 <= k < |assignments| => assignments[k].value)
  }

  predicate AssignsKey(schema: Schema, cols: seq<nat>) {
    schema.pk.Some? && schema.pk.value in cols
  }

  /** One row of an UPDATE: skipped, changed, or refused. All right-hand sides see the row as it was. */
  ghost function UpdateRow(db: Db, i: nat, cols: seq<nat>, es: seq<Expr>, where: Option<Expr>, env: Env, r: nat): Result<Effect, Error>
    requires db.Valid() && i < |db.tables| && |cols| == |es| && r < |db.tables[i].rows|
  {
    var t := db.tables[i];
    var ctx := RowContext(db, i, r, env);
    if !t.Live(r) || !Matches(where, ctx) then Ok(Effect(db, 0))
    else if AssignsKey(t.schema, cols) && Referenced(db, i, r) then Err(StillReferenced)
    else
      var db' := db.With(i, AssignAll(t, r, cols, ValuesOf(es, ctx)));
      AssignAllShape(t, r, cols, ValuesOf(es, ctx));
      var v := RowViolation(db', i, r, 0);
      if v.Some? then Err(v.value) else Ok(Effect(db', 1))
  }

  /** The rows before n, in storage order. */
  ghost function UpdateRows(db: Db, i: nat, cols: seq<nat>, es: seq<Expr>, where: Option<Expr>, env: Env, n: nat): Result<Effect, Error>
    requires db.Valid() && i < |db.tables| && |cols| == |es| && n <= |db.tables[i].rows|
  {
    if n == 0 then Ok(Effect(db, 0))
    else
      var first := UpdateRows(db, i, cols, es, where, env, n - 1);
      if first.Err? || !(first.value.db.Valid() && SameShape(db, first.value.db)) then first
      else
        var last := UpdateRow(first.value.db, i, cols, es, where, env, n - 1);
        if last.Err? then last else Ok(Effect(last.value.db, first.value.changes + last.value.changes))
  }

  /******* DELETE *******/

  ghost function DeleteRow(db: Db, i: nat, where: Option<Expr>, env: Env, r: nat): Result<Effect, Error>
    requires db.Valid() && i < |db.tables| && r < |db.tables[i].rows|
  {
    if !db.tables[i].Live(r) || !Matches(where, RowContext(db, i, r, env)) then Ok(Effect(db, 0))
    else if Referenced(db, i, r) then Err(StillReferenced)
    else Ok(Effect(db.With(i, db.tables[i].SetDead(r, true)), 1))
  }

  ghost function DeleteRows(db: Db, i: nat, where: Option<Expr>, env: Env, n: nat): Result<Effect, Error>
    requires db.Valid() && i < |db.tables| && n <= |db.tables[i].rows|
  {
    if n == 0 then Ok(Effect(db, 0))
    else
      var first := DeleteRows(db, i, where, env, n - 1);
      if first.Err? || !(first.value.db.Valid() && SameShape(db, first.value.db)) then first
      else
        var last := DeleteRow(first.value.db, i, where, env, n - 1);
        if last.Err? then last else Ok(Effect(last.value.db, first.value.changes + last.value.changes))
  }

  /******* The three statements *******/

  ghost function Run(db: Db, s: Dml, env: Env): Result<Effect, Error>
    requires db.Valid()
  {
    var i := db.Find(s.table);
    if i.None? then Err(NoSuchTable) else RunOn(db, i.value, s, env)
  }

  ghost function RunOn(db: Db, i: nat, s: Dml, env: Env): Result<Effect, Error>
    requires db.Valid() && i < |db.tables|
  {
    var t := db.tables[i];
    var ctx := RowContext(db, i, 0, env);
    match s
    case Insert(_, columns, rows) =>
      var cols := InsertColumns(t.schema, columns);
      if cols.Err? then Err(cols.error)
      else
        var r := InsertRows(db, i, cols.value, rows, env);
        if r.Err? then Err(r.error) else Ok(Effect(r.value, |rows|))
    case Update(_, assignments, where) =>
      var cols := ResolveAssignments(t.schema, ctx, assignments);
      if cols.Err? then Err(cols.error)
      else if !WhereOk(where, ctx) then Err(NotAPredicate)
      else UpdateRows(db, i, cols.value, Exprs(assignments), where, env, |t.rows|)
    case Delete(_, where) =>
      if !WhereOk(where, ctx) then Err(NotAPredicate)
      else DeleteRows(db, i, where, env, |t.rows|)
  }

  /******* CREATE TABLE *******/

  function SchemaOf(defs: seq<ColumnDef>): (s: Schema)
    ensures s.Valid()
  {
    Schema(
      seq(|defs|, c requires 0 <= c < |defs| => defs[c].name),
      seq(|defs|, c requires 0 <= c < |defs| => defs[c].kind),
      KeyColumn(defs, 0),
      seq(|defs|, c requires 0 <= c < |defs| => defs[c].fk))
  }

  /** The column marked primary, if any. */
  function KeyColumn(defs: seq<ColumnDef>, c: nat): (r: Option<nat>)
    requires c <= |defs|
    ensures r.Some? ==> c <= r.value < |defs| && defs[r.value].primary
    ensures r.None? ==> forall d :: c <= d < |defs| ==> !defs[d].primary
    decreases |defs| - c
  {
    if c == |defs| then None else if defs[c].primary then Some(c) else KeyColumn(defs, c + 1)
  }

  /** A reference must name the primary key, of the same type, of another table that exists. */
  predicate GoodReference(db: Db, name: string, d: ColumnDef)
    requires |db.names| == |db.tables|
  {
    d.fk.Some? ==>
      var j := db.Find(d.fk.value.table);
      && d.fk.value.table != name && j.Some?
      && var s := db.tables[j.value].schema;
         var k := s.FindColumn(d.fk.value.column);
         k.Some? && s.IsPk(k.value) && k.value < |s.types| && s.types[k.value] == d.kind
  }

  function CreateTable(db: Db, name: string, defs: seq<ColumnDef>): Result<Db, Error>
    requires |db.names| == |db.tables|
  {
    if db.Find(name).Some? then Err(TableExists)
    else if |defs| == 0 then Err(NoColumns)
    else if exists a, b :: 0 <= a < b < |defs| && defs[a].name == defs[b].name then Err(DuplicateColumn)
    else if exists a, b :: 0 <= a < b < |defs| && defs[a].primary && defs[b].primary then Err(TwoKeys)
    else if exists c :: 0 <= c < |defs| && !GoodReference(db, name, defs[c]) then Err(BadReference)
    else Ok(db.Add(name, TableState(SchemaOf(defs), [], [])))
  }

  /******* Statements keep integrity *******/

  lemma InsertRowKeeps(db: Db, i: nat, cols: seq<nat>, values: seq<Expr>, env: Env)
    requires SchemaOk(db) && i < |db.tables|
    ensures var r := InsertRow(db, i, cols, values, env);
      r.Ok? ==> SchemaOk(r.value) && |r.value.tables| == |db.tables| && (Integrity(db) ==> Integrity(r.value))
  {
    var r := InsertRow(db, i, cols, values, env);
    if r.Ok? {
      var t := db.tables[i];
      AppendShape(t, cols, ValuesOf(values, NoContext(env)));
      SchemaOkBySchemas(db, r.value);
      if Integrity(db) {
        RowChangeKeepsIntegrity(db, i, r.value.tables[i], |t.rows|);
      }
    }
  }

  lemma {:induction false} InsertRowsKeeps(db: Db, i: nat, cols: seq<nat>, rows: seq<seq<Expr>>, env: Env)
    requires SchemaOk(db) && i < |db.tables|
    ensures var r := InsertRows(db, i, cols, rows, env);
      r.Ok? ==> SchemaOk(r.value) && |r.value.tables| == |db.tables| && (Integrity(db) ==> Integrity(r.value))
    decreases |rows|
  {
    if rows != [] {
      InsertRowsKeeps(db, i, cols, rows[..|rows| - 1], env);
      var first := InsertRows(db, i, cols, rows[..|rows| - 1], env);
      if first.Ok? {
        InsertRowKeeps(first.value, i, cols, rows[|rows| - 1], env);
      }
    }
  }

  lemma UpdateRowKeeps(db: Db, i: nat, cols: seq<nat>, es: seq<Expr>, where: Option<Expr>, env: Env, r: nat)
    requires SchemaOk(db) && i < |db.tables| && |cols| == |es| && r < |db.tables[i].rows|
    ensures var e := UpdateRow(db, i, cols, es, where, env, r);
      e.Ok? ==> SchemaOk(e.value.db) && SameShape(db, e.value.db) && (Integrity(db) ==> Integrity(e.value.db))
  {
    var t := db.tables[i];
    var ctx := RowContext(db, i, r, env);
    var e := UpdateRow(db, i, cols, es, where, env, r);
    if e.Ok? && t.Live(r) && Matches(where, ctx) {
      AssignAllShape(t, r, cols, ValuesOf(es, ctx));
      SchemaOkBySchemas(db, e.value.db);
      if Integrity(db) {
        assert KeyKept(t, e.value.db.tables[i], r) || !Referenced(db, i, r);
        RowChangeKeepsIntegrity(db, i, e.value.db.tables[i], r);
      }
    }
  }

  lemma {:induction false} UpdateRowsKeeps(db: Db, i: nat, cols: seq<nat>, es: seq<Expr>, where: Option<Expr>, env: Env, n: nat)
    requires SchemaOk(db) && i < |db.tables| && |cols| == |es| && n <= |db.tables[i].rows|
    ensures var e := UpdateRows(db, i, cols, es, where, env, n);
      e.Ok? ==> SchemaOk(e.value.db) && SameShape(db, e.value.db) && (Integrity(db) ==> Integrity(e.value.db))
  {
    hide Integrity, UpdateRow;
    if n > 0 {
      UpdateRowsKeeps(db, i, cols, es, where, env, n - 1);
      var first := UpdateRows(db, i, cols, es, where, env, n - 1);
      if first.Ok? {
        UpdateRowKeeps(first.value.db, i, cols, es, where, env, n - 1);
      }
    }
  }

  lemma DeleteRowKeeps(db: Db, i: nat, where: Option<Expr>, env: Env, r: nat)
    requires SchemaOk(db) && i < |db.tables| && r < |db.tables[i].rows|
    ensures var e := DeleteRow(db, i, where, env, r);
      e.Ok? ==> SchemaOk(e.value.db) && SameShape(db, e.value.db) && (Integrity(db) ==> Integrity(e.value.db))
  {
    var e := DeleteRow(db, i, where, env, r);
    if e.Ok? && e.value.changes == 1 {
      DeleteIsUndone(db, i, r);
      SchemaOkBySchemas(db, e.value.db);
      if Integrity(db) {
        DeleteKeepsIntegrity(db, i, r);
      }
    }
  }

  lemma {:induction false} DeleteRowsKeeps(db: Db, i: nat, where: Option<Expr>, env: Env, n: nat)
    requires SchemaOk(db) && i < |db.tables| && n <= |db.tables[i].rows|
    ensures var e := DeleteRows(db, i, where, env, n);
      e.Ok? ==> SchemaOk(e.value.db) && SameShape(db, e.value.db) && (Integrity(db) ==> Integrity(e.value.db))
  {
    hide Integrity, DeleteRow;
    if n > 0 {
      DeleteRowsKeeps(db, i, where, env, n - 1);
      var first := DeleteRows(db, i, where, env, n - 1);
      if first.Ok? {
        DeleteRowKeeps(first.value.db, i, where, env, n - 1);
      }
    }
  }

  /** Every statement that succeeds leaves keys unique and references matched. */
  lemma RunKeepsIntegrity(db: Db, s: Dml, env: Env)
    requires SchemaOk(db) && Integrity(db)
    ensures var r := Run(db, s, env); r.Ok? ==> SchemaOk(r.value.db) && Integrity(r.value.db)
  {
    var i := db.Find(s.table);
    if i.Some? {
      var t := db.tables[i.value];
      match s {
        case Insert(_, columns, rows) =>
          var cols := InsertColumns(t.schema, columns);
          if cols.Ok? {
            InsertRowsKeeps(db, i.value, cols.value, rows, env);
          }
        case Update(_, assignments, where) =>
          var cols := ResolveAssignments(t.schema, RowContext(db, i.value, 0, env), assignments);
          if cols.Ok? {
            UpdateRowsKeeps(db, i.value, cols.value, Exprs(assignments), where, env, |t.rows|);
          }
        case Delete(_, where) =>
          DeleteRowsKeeps(db, i.value, where, env, |t.rows|);
      }
    }
  }

  /** A created table is empty and its references resolve, so the catalog stays sound. */
  lemma CreateKeepsIntegrity(db: Db, name: string, defs: seq<ColumnDef>)
    requires SchemaOk(db)
    ensures var r := CreateTable(db, name, defs);
      r.Ok? ==> SchemaOk(r.value) && (Integrity(db) ==> Integrity(r.value)) && DeadExt(db, r.value)
  {
    var r := CreateTable(db, name, defs);
    if r.Ok? {
      var db', n := r.value, |db.tables|;
      assert db'.names[..n] == db.names;
      forall i | 0 <= i < n ensures TableExt(db.tables[i], db'.tables[i]) {
      }
      forall i, c | 0 <= i <= n && 0 <= c < |db'.tables[i].schema.fks| ensures FkResolves(db', i, c) {
        var s := db'.tables[i].schema;
        TargetsBySchema(db, db', s, c);
        if i < n {
          assert FkResolves(db, i, c);
        } else {
          assert GoodReference(db, name, defs[c]);
        }
      }
      if Integrity(db) {
        ExtKeepsIntegrity(db, db');
      }
    }
  }
}
