/**
 What CREATE TABLE and INSERT do and when they succeed, stated with the names of the columns, the
 values of the expressions and the integrity of the result.
 */
module Inserts {
  import opened Values
  import opened TableStates
  import opened Expressions
  import opened Catalogs
  import opened Constraints
  import opened Statements
  import opened SetSemantics

  /******* INSERT *******/

  /** The k-th value of a VALUES list is meant for column c. */
  predicate Gives(schema: Schema, columns: seq<string>, k: nat, c: nat) {
    if columns == [] then k == c else k < |columns| && schema.FindColumn(columns[k]) == Some(c)
  }

  predicate GivesNothing(schema: Schema, columns: seq<string>, c: nat) {
    forall k :: 0 <= k < |columns| ==> schema.FindColumn(columns[k]) != Some(c)
  }

  /** Each value stands in its column, converted to the column's type, and a column without a value is NULL. */
  ghost predicate HoldsValues(schema: Schema, columns: seq<string>, values: seq<Expr>, env: Env, row: Row) {
    var ctx := RowCtx([], env.params, env.fpu);
    && schema.Valid() && RowFits(schema.types, row)
    && |values| == (if columns == [] then |schema.types| else |columns|)
    && (forall k, c :: 0 <= k < |values| && 0 <= c < |row| && Gives(schema, columns, k, c) ==>
          Evaluable(values[k], ctx) && Assignable(EvalValue(values[k], ctx), schema.types[c])
          && row[c] == Assigned(EvalValue(values[k], ctx), schema.types[c]))
    && (columns != [] ==> forall c :: 0 <= c < |row| && GivesNothing(schema, columns, c) ==> row[c] == Null(schema.types[c]))
  }

  /** The values are as many as the columns, read no column, and fit the columns they are meant for. */
  ghost predicate ValuesFit(schema: Schema, columns: seq<string>, values: seq<Expr>, env: Env) {
    && |values| == (if columns == [] then |schema.types| else |columns|)
    && (forall k :: 0 <= k < |values| ==> !HasColumnRef(values[k]))
    && (forall k, c :: 0 <= k < |values| && 0 <= c < |schema.types| && Gives(schema, columns, k, c) ==>
          ExprFits(values[k], RowCtx([], env.params, env.fpu), schema.types[c]))
  }

  /** Every named column exists and none is named twice. */
  predicate ColumnsFit(schema: Schema, columns: seq<string>) {
    && (forall k :: 0 <= k < |columns| ==> columns[k] in schema.names)
    && (forall a, b :: 0 <= a < b < |columns| ==> columns[a] != columns[b])
  }

  lemma ColumnsFitExactly(schema: Schema, columns: seq<string>)
    ensures InsertColumns(schema, columns).Ok? <==> ColumnsFit(schema, columns)
    ensures InsertColumns(schema, columns).Err? ==>
      InsertColumns(schema, columns).error ==
        if exists k :: 0 <= k < |columns| && columns[k] !in schema.names then NoSuchColumn else DuplicateColumn
  {
    if columns != [] {
      var r := ResolveColumns(schema, columns);
      if r.Ok? {
        forall a, b | 0 <= a < b < |columns| ensures r.value[a] == r.value[b] <==> columns[a] == columns[b] {
          assert schema.FindColumn(columns[a]) == Some(r.value[a]) && schema.FindColumn(columns[b]) == Some(r.value[b]);
        }
        if Repeats(r.value) {
          var a, b :| 0 <= a < b < |r.value| && r.value[a] == r.value[b];
          assert columns[a] == columns[b];
        }
      }
    }
  }

  lemma GivesExactly(schema: Schema, columns: seq<string>, cols: seq<nat>, k: nat, c: nat)
    requires InsertColumns(schema, columns) == Ok(cols) && c < |schema.types|
    ensures Gives(schema, columns, k, c) <==> k < |cols| && cols[k] == c
  {
  }

  lemma {:induction false} ValuesFitExactly(schema: Schema, columns: seq<string>, cols: seq<nat>, values: seq<Expr>, env: Env)
    requires schema.Valid() && InsertColumns(schema, columns) == Ok(cols) && |values| == |cols|
    ensures FirstBadValue(values, cols, schema.types, env, 0).None? <==> ValuesFit(schema, columns, values, env)
  {
    if FirstBadValue(values, cols, schema.types, env, 0).None? {
      forall k | 0 <= k < |values| ensures !HasColumnRef(values[k]) && ExprFits(values[k], NoContext(env), schema.types[cols[k]]) {
        GoodValues(values, cols, schema.types, env, 0, k);
      }
    } else {
      var k := BadValue(values, cols, schema.types, env, 0);
      assert Gives(schema, columns, k, cols[k]);
    }
  }

  /** The value that stops the check, all before it being good. */
  lemma {:induction false} BadValue(values: seq<Expr>, cols: seq<nat>, types: seq<FieldType>, env: Env, k: nat) returns (j: nat)
    requires |values| == |cols| && k <= |values| && FirstBadValue(values, cols, types, env, k).Some?
    ensures k <= j < |values|
    ensures HasColumnRef(values[j]) || !(cols[j] < |types| && ExprFits(values[j], NoContext(env), types[cols[j]]))
    ensures FirstBadValue(values, cols, types, env, k) == Some(if HasColumnRef(values[j]) then ColumnInValues else TypeMismatch)
    ensures forall h :: k <= h < j ==> !HasColumnRef(values[h]) && cols[h] < |types| && ExprFits(values[h], NoContext(env), types[cols[h]])
    decreases |values| - k
  {
    j := k;
    if !HasColumnRef(values[k]) && cols[k] < |types| && ExprFits(values[k], NoContext(env), types[cols[k]]) {
      j := BadValue(values, cols, types, env, k + 1);
    }
  }

  /** The row of a VALUES list, whatever table it is appended to. */
  lemma RowOfValues(db: Db, i: nat, columns: seq<string>, cols: seq<nat>, values: seq<Expr>, env: Env)
    requires db.Valid() && i < |db.tables| && InsertColumns(db.tables[i].schema, columns) == Ok(cols)
    requires ValuesFit(db.tables[i].schema, columns, values, env)
    ensures |values| == |cols|
    ensures var db', n := WithNewRow(db, i, cols, ValuesOf(values, NoContext(env))), |db.tables[i].rows|;
      HoldsValues(db.tables[i].schema, columns, values, env, db'.tables[i].rows[n])
  {
    var t, ctx := db.tables[i], NoContext(env);
    var vs := ValuesOf(values, ctx);
    var a := t.AppendNull();
    AppendShape(t, cols, vs);
    AssignAllShape(a, |t.rows|, cols, vs);
    var row := AssignAll(a, |t.rows|, cols, vs).rows[|t.rows|];
    forall k, c | 0 <= k < |values| && 0 <= c < |row| && Gives(t.schema, columns, k, c)
      ensures Evaluable(values[k], ctx) && Assignable(EvalValue(values[k], ctx), t.schema.types[c])
      ensures row[c] == Assigned(EvalValue(values[k], ctx), t.schema.types[c]) {
      GivesExactly(t.schema, columns, cols, k, c);
      FittingValueIsAssignable(values[k], ctx, t.schema.types[c]);
      LastAssignmentWins(a, |t.rows|, cols, vs, k);
    }
    forall c | 0 <= c < |row| && columns != [] && GivesNothing(t.schema, columns, c) ensures row[c] == Null(t.schema.types[c]) {
      assert c !in cols;
    }
  }

  /** There is only one such row. */
  lemma HoldsValuesOnce(schema: Schema, columns: seq<string>, values: seq<Expr>, env: Env, row: Row, other: Row)
    requires HoldsValues(schema, columns, values, env, row) && HoldsValues(schema, columns, values, env, other)
    ensures row == other
  {
    forall c | 0 <= c < |row| ensures row[c] == other[c] {
      if columns == [] {
        assert Gives(schema, columns, c, c);
      } else if !GivesNothing(schema, columns, c) {
        var k :| 0 <= k < |columns| && schema.FindColumn(columns[k]) == Some(c);
        assert Gives(schema, columns, k, c);
      }
    }
  }

  /** The table with the rows of an INSERT behind its own, and the catalog with that table. */
  ghost predicate RowsAdded(db: Db, i: nat, columns: seq<string>, rows: seq<seq<Expr>>, env: Env, db': Db)
    requires db.Valid() && i < |db.tables|
  {
    && db'.Valid() && i < |db'.tables| && db' == db.With(i, db'.tables[i])
    && var t, t' := db.tables[i], db'.tables[i];
       && t'.schema == t.schema && |t'.rows| == |t.rows| + |rows| && t'.rows[..|t.rows|] == t.rows && t'.dead[..|t.rows|] == t.dead
       && (forall j :: 0 <= j < |rows| ==> RowStands(t', |t.rows| + j, columns, rows[j], env))
  }

  ghost predicate RowStands(t: TableState, r: nat, columns: seq<string>, values: seq<Expr>, env: Env) {
    r < |t.rows| && t.Live(r) && HoldsValues(t.schema, columns, values, env, t.rows[r])
  }

  lemma RowAdded(db: Db, i: nat, columns: seq<string>, cols: seq<nat>, values: seq<Expr>, env: Env, db': Db)
    requires db.Valid() && i < |db.tables| && InsertColumns(db.tables[i].schema, columns) == Ok(cols)
    requires InsertRow(db, i, cols, values, env) == Ok(db')
    ensures RowsAdded(db, i, columns, [values], env, db') && ValuesFit(db.tables[i].schema, columns, values, env)
  {
    hide HoldsValues, RowViolation;
    var t := db.tables[i];
    ValuesFitExactly(t.schema, columns, cols, values, env);
    RowOfValues(db, i, columns, cols, values, env);
    AppendShape(t, cols, ValuesOf(values, NoContext(env)));
  }

  lemma RowsAddedOneMore(db: Db, i: nat, columns: seq<string>, rows: seq<seq<Expr>>, env: Env, first: Db, db': Db)
    requires db.Valid() && i < |db.tables| && rows != []
    requires RowsAdded(db, i, columns, rows[..|rows| - 1], env, first) && RowsAdded(first, i, columns, [rows[|rows| - 1]], env, db')
    ensures RowsAdded(db, i, columns, rows, env, db')
  {
    hide HoldsValues;
    var t, u, t' := db.tables[i], first.tables[i], db'.tables[i];
    var n := |t.rows|;
    assert db.tables[i := u][i := t'] == db.tables[i := t'];
    assert u.rows[..n] == t'.rows[..|u.rows|][..n] == t'.rows[..n];
    assert u.dead[..n] == t'.dead[..|u.rows|][..n] == t'.dead[..n];
    forall j | 0 <= j < |rows| ensures RowStands(t', n + j, columns, rows[j], env) {
      if j < |rows| - 1 {
        assert rows[..|rows| - 1][j] == rows[j] && RowStands(u, n + j, columns, rows[j], env);
        assert t'.rows[..|u.rows|][n + j] == u.rows[n + j] && t'.dead[..|u.rows|][n + j] == u.dead[n + j];
      } else {
        assert RowStands(t', |u.rows| + 0, columns, [rows[j]][0], env);
      }
    }
  }

  lemma {:induction false} InsertRowsAdd(db: Db, i: nat, columns: seq<string>, cols: seq<nat>, rows: seq<seq<Expr>>, env: Env)
    requires db.Valid() && i < |db.tables| && InsertColumns(db.tables[i].schema, columns) == Ok(cols)
    requires InsertRows(db, i, cols, rows, env).Ok?
    ensures RowsAdded(db, i, columns, rows, env, InsertRows(db, i, cols, rows, env).value)
    decreases |rows|
  {
    hide InsertRow, HoldsValues, InsertColumns;
    var t := db.tables[i];
    if rows == [] {
      assert db == db.With(i, t) && t.rows[..|t.rows|] == t.rows && t.dead[..|t.rows|] == t.dead;
    } else {
      var first := InsertRows(db, i, cols, rows[..|rows| - 1], env).value;
      InsertRowsAdd(db, i, columns, cols, rows[..|rows| - 1], env);
      var last := InsertRows(db, i, cols, rows, env).value;
      RowAdded(first, i, columns, cols, rows[|rows| - 1], env, last);
      RowsAddedOneMore(db, i, columns, rows, env, first, last);
    }
  }

  /** An INSERT appends one live row per VALUES list, each value in the column it is meant for, and changes nothing else. */
  lemma InsertMeans(db: Db, s: Dml, env: Env)
    requires db.Valid() && s.Insert? && Run(db, s, env).Ok?
    ensures s.table in db.names
    ensures var i, e := db.Find(s.table).value, Run(db, s, env).value;
      RowsAdded(db, i, s.columns, s.rows, env, e.db) && e.changes == |s.rows|
  {
    var i := db.Find(s.table).value;
    InsertRowsAdd(db, i, s.columns, InsertColumns(db.tables[i].schema, s.columns).value, s.rows, env);
  }

  /******* Which INSERT succeeds *******/

  /** The catalog with one more live row in table i. */
  function WithRow(db: Db, i: nat, row: Row): Db
    requires i < |db.tables|
  {
    var t := db.tables[i];
    db.With(i, t.(rows := t.rows + [row], dead := t.dead + [false]))
  }

  lemma WithRowIsNewRow(db: Db, i: nat, cols: seq<nat>, vs: seq<Value>)
    requires db.Valid() && i < |db.tables| && |cols| == |vs|
    ensures WithNewRow(db, i, cols, vs) == WithRow(db, i, WithNewRow(db, i, cols, vs).tables[i].rows[|db.tables[i].rows|])
  {
    var t := db.tables[i];
    AssignAllShape(t.AppendNull(), |t.rows|, cols, vs);
    AppendShape(t, cols, vs);
    var t' := AssignAll(t.AppendNull(), |t.rows|, cols, vs);
    assert t'.rows == t.rows + [t'.rows[|t.rows|]];
    assert t'.dead == t.dead + [false];
  }

  lemma OneRow(db: Db, i: nat, cols: seq<nat>, values: seq<Expr>, env: Env)
    requires db.Valid() && i < |db.tables|
    ensures InsertRows(db, i, cols, [values], env) == InsertRow(db, i, cols, values, env)
  {
    hide InsertRow;
    assert [values][..0] == [];
    assert InsertRows(db, i, cols, [], env) == Ok(db);
  }

  lemma InsertRowExactly(db: Db, i: nat, columns: seq<string>, cols: seq<nat>, values: seq<Expr>, env: Env)
    requires SchemaOk(db) && Integrity(db) && i < |db.tables| && InsertColumns(db.tables[i].schema, columns) == Ok(cols)
    ensures var schema := db.tables[i].schema;
      InsertRow(db, i, cols, values, env).Ok? <==>
        && ValuesFit(schema, columns, values, env)
        && exists row :: HoldsValues(schema, columns, values, env, row) && Integrity(WithRow(db, i, row))
  {
    hide HoldsValues, Integrity, RowViolation, Gives, WithRow, InsertColumns;
    var t := db.tables[i];
    ColumnCount(t.schema, columns, cols);
    if |values| == |cols| {
      ValuesFitExactly(t.schema, columns, cols, values, env);
      if ValuesFit(t.schema, columns, values, env) {
        var vs := ValuesOf(values, NoContext(env));
        var db' := WithNewRow(db, i, cols, vs);
        var row := db'.tables[i].rows[|t.rows|];
        RowOfValues(db, i, columns, cols, values, env);
        WithRowIsNewRow(db, i, cols, vs);
        AppendShape(t, cols, vs);
        RowCheckExactly(db, i, db'.tables[i], |t.rows|);
        forall other | HoldsValues(t.schema, columns, values, env, other) ensures other == row {
          HoldsValuesOnce(t.schema, columns, values, env, other, row);
        }
      }
    }
  }

  lemma ColumnCount(schema: Schema, columns: seq<string>, cols: seq<nat>)
    requires InsertColumns(schema, columns) == Ok(cols)
    ensures |cols| == if columns == [] then |schema.types| else |columns|
  {
  }

  /** A table cut back to its first m rows. */
  function FirstRows(t: TableState, m: nat): TableState
    requires m <= |t.rows| && m <= |t.dead|
  {
    t.(rows := t.rows[..m], dead := t.dead[..m])
  }

  /** With the added rows all sound, fewer of them are. */
  lemma FewerRowsKeepIntegrity(db: Db, i: nat, t': TableState, m: nat)
    requires SchemaOk(db) && Integrity(db) && i < |db.tables| && t'.Valid() && t'.schema == db.tables[i].schema
    requires |db.tables[i].rows| <= m <= |t'.rows|
    requires t'.rows[..|db.tables[i].rows|] == db.tables[i].rows && t'.dead[..|db.tables[i].rows|] == db.tables[i].dead
    requires Integrity(db.With(i, t'))
    ensures Integrity(db.With(i, FirstRows(t', m)))
  {
    var t, u := db.tables[i], FirstRows(t', m);
    var all, few := db.With(i, t'), db.With(i, u);
    assert forall r :: 0 <= r < m ==> u.rows[r] == t'.rows[r] && u.dead[r] == t'.dead[r];
    assert forall r :: 0 <= r < |t.rows| ==> u.rows[r] == t.rows[r] && u.dead[r] == t.dead[r] by {
      assert forall r :: 0 <= r < |t.rows| ==> t'.rows[..|t.rows|][r] == t'.rows[r] && t'.dead[..|t.rows|][r] == t'.dead[r];
    }
    forall j, r | 0 <= j < |few.tables| && few.tables[j].Live(r) ensures KeyOk(few.tables[j], r) {
      assert KeyOk(all.tables[j], r);
      if j == i && t.schema.pk.Some? {
        var k := t.schema.pk.value;
        assert t'.HasCell(r, k);
        forall q | q != r ensures !u.Holds(q, k, u.Cell(r, k)) {
          assert !t'.Holds(q, k, t'.Cell(r, k));
        }
      }
    }
    forall j, r, c | 0 <= j < |few.tables| && few.tables[j].Live(r) && 0 <= c < |few.tables[j].schema.types| ensures RefOk(few, j, r, c) {
      FewerRowsRefOk(db, i, t', m, j, r, c);
    }
  }

  lemma FewerRowsRefOk(db: Db, i: nat, t': TableState, m: nat, j: nat, r: nat, c: nat)
    requires SchemaOk(db) && Integrity(db) && i < |db.tables| && t'.Valid() && t'.schema == db.tables[i].schema
    requires |db.tables[i].rows| <= m <= |t'.rows|
    requires t'.rows[..|db.tables[i].rows|] == db.tables[i].rows && t'.dead[..|db.tables[i].rows|] == db.tables[i].dead
    requires Integrity(db.With(i, t')) && db.With(i, FirstRows(t', m)).Valid()
    requires j < |db.tables| && db.With(i, FirstRows(t', m)).tables[j].Live(r) && c < |db.tables[j].schema.types|
    ensures RefOk(db.With(i, FirstRows(t', m)), j, r, c)
  {
    var t, u := db.tables[i], FirstRows(t', m);
    var all, few, s := db.With(i, t'), db.With(i, u), db.tables[j].schema;
    assert db.names == all.names[..|db.names|] && db.names == few.names[..|db.names|];
    TargetsBySchema(db, all, s, c);
    TargetsBySchema(db, few, s, c);
    assert FkResolves(db, j, c);
    if FkTarget(db, s, c).Some? {
      var target := FkTarget(db, s, c).value;
      if j == i {
        assert u.dead[r] == t'.dead[r] && u.rows[r] == t'.rows[r];
        assert RefOk(all, j, r, c);
      } else if target.table == i && !db.tables[j].Cell(r, c).Null? {
        assert RefOk(db, j, r, c);
        var q :| t.Holds(q, target.col, db.tables[j].Cell(r, c));
        assert t'.rows[..|t.rows|][q] == u.rows[q] && t'.dead[..|t.rows|][q] == u.dead[q];
        assert u.Holds(q, target.col, db.tables[j].Cell(r, c));
      } else {
        assert RefOk(db, j, r, c);
      }
    }
  }

  /** The rows of an INSERT determine the table. */
  lemma RowsAddedOnce(db: Db, i: nat, columns: seq<string>, rows: seq<seq<Expr>>, env: Env, k: nat, first: Db, db': Db)
    requires db.Valid() && i < |db.tables| && k <= |rows|
    requires RowsAdded(db, i, columns, rows[..k], env, first) && RowsAdded(db, i, columns, rows, env, db')
    ensures first.tables[i] == FirstRows(db'.tables[i], |db.tables[i].rows| + k)
  {
    hide HoldsValues;
    var n, u, t' := |db.tables[i].rows|, first.tables[i], db'.tables[i];
    forall r | 0 <= r < n + k ensures u.rows[r] == t'.rows[r] && u.dead[r] == t'.dead[r] {
      if r < n {
        assert u.rows[..n][r] == t'.rows[..n][r] && u.dead[..n][r] == t'.dead[..n][r];
      } else {
        assert rows[..k][r - n] == rows[r - n];
        assert RowStands(u, n + (r - n), columns, rows[..k][r - n], env) && RowStands(t', n + (r - n), columns, rows[r - n], env);
        HoldsValuesOnce(u.schema, columns, rows[r - n], env, u.rows[r], t'.rows[r]);
      }
    }
  }

  lemma NextRowIsAdded(db: Db, i: nat, columns: seq<string>, cols: seq<nat>, rows: seq<seq<Expr>>, env: Env, k: nat, db': Db)
    requires SchemaOk(db) && Integrity(db) && i < |db.tables| && InsertColumns(db.tables[i].schema, columns) == Ok(cols)
    requires k < |rows| && ValuesFit(db.tables[i].schema, columns, rows[k], env)
    requires RowsAdded(db, i, columns, rows, env, db') && Integrity(db') && InsertRows(db, i, cols, rows[..k], env).Ok?
    ensures InsertRows(db, i, cols, rows[..k + 1], env).Ok?
  {
    hide HoldsValues, Integrity, ValuesFit, InsertColumns, InsertRow;
    var first, n := InsertRows(db, i, cols, rows[..k], env).value, |db.tables[i].rows|;
    InsertRowsKeeps(db, i, cols, rows[..k], env);
    InsertRowsAdd(db, i, columns, cols, rows[..k], env);
    RowsAddedOnce(db, i, columns, rows, env, k, first, db');
    assert RowStands(db'.tables[i], n + k, columns, rows[k], env);
    var row := db'.tables[i].rows[n + k];
    assert db'.tables[i].rows[..n + k] + [row] == db'.tables[i].rows[..n + k + 1];
    assert db'.tables[i].dead[..n + k] + [false] == db'.tables[i].dead[..n + k + 1];
    FewerRowsKeepIntegrity(db, i, db'.tables[i], n + k + 1);
    assert db.tables[i := first.tables[i]][i := FirstRows(db'.tables[i], n + k + 1)] == db.tables[i := FirstRows(db'.tables[i], n + k + 1)];
    assert WithRow(first, i, row) == db.With(i, FirstRows(db'.tables[i], n + k + 1));
    InsertRowExactly(first, i, columns, cols, rows[k], env);
    assert rows[..k + 1][..k] == rows[..k];
  }

  /** An INSERT succeeds exactly if its columns and values fit and the catalog with all its rows has integrity. */
  lemma InsertExactly(db: Db, s: Dml, env: Env)
    requires SchemaOk(db) && Integrity(db) && s.Insert?
    ensures Run(db, s, env).Ok? <==>
      db.Find(s.table).Some? &&
      var i := db.Find(s.table).value;
      && ColumnsFit(db.tables[i].schema, s.columns)
      && (forall k :: 0 <= k < |s.rows| ==> ValuesFit(db.tables[i].schema, s.columns, s.rows[k], env))
      && exists db' :: RowsAdded(db, i, s.columns, s.rows, env, db') && Integrity(db')
  {
    hide Integrity, RowsAdded, ColumnsFit, ValuesFit, InsertColumns, InsertRow;
    if db.Find(s.table).Some? {
      var i := db.Find(s.table).value;
      ColumnsFitExactly(db.tables[i].schema, s.columns);
      if ColumnsFit(db.tables[i].schema, s.columns) {
        InsertRowsExactly(db, i, s.columns, InsertColumns(db.tables[i].schema, s.columns).value, s.rows, env);
      }
    }
  }

  lemma InsertRowsExactly(db: Db, i: nat, columns: seq<string>, cols: seq<nat>, rows: seq<seq<Expr>>, env: Env)
    requires SchemaOk(db) && Integrity(db) && i < |db.tables| && InsertColumns(db.tables[i].schema, columns) == Ok(cols)
    ensures InsertRows(db, i, cols, rows, env).Ok? <==>
      && (forall k :: 0 <= k < |rows| ==> ValuesFit(db.tables[i].schema, columns, rows[k], env))
      && exists db' :: RowsAdded(db, i, columns, rows, env, db') && Integrity(db')
  {
    hide Integrity, RowsAdded, ValuesFit, InsertColumns, InsertRow;
    if InsertRows(db, i, cols, rows, env).Ok? {
      InsertRowsKeeps(db, i, cols, rows, env);
      InsertRowsAdd(db, i, columns, cols, rows, env);
      InsertedValuesFit(db, i, columns, cols, rows, env);
    } else if (forall k :: 0 <= k < |rows| ==> ValuesFit(db.tables[i].schema, columns, rows[k], env)) {
      if db' :| RowsAdded(db, i, columns, rows, env, db') && Integrity(db') {
        assert rows[..|rows|] == rows;
        AllRowsAreAdded(db, i, columns, cols, rows, env, |rows|, db');
      }
    }
  }

  lemma {:induction false} AllRowsAreAdded(db: Db, i: nat, columns: seq<string>, cols: seq<nat>, rows: seq<seq<Expr>>, env: Env, k: nat, db': Db)
    requires SchemaOk(db) && Integrity(db) && i < |db.tables| && InsertColumns(db.tables[i].schema, columns) == Ok(cols)
    requires k <= |rows| && forall j :: 0 <= j < |rows| ==> ValuesFit(db.tables[i].schema, columns, rows[j], env)
    requires RowsAdded(db, i, columns, rows, env, db') && Integrity(db')
    ensures InsertRows(db, i, cols, rows[..k], env).Ok?
  {
    hide Integrity, RowsAdded, ValuesFit, InsertColumns, InsertRow;
    if k > 0 {
      AllRowsAreAdded(db, i, columns, cols, rows, env, k - 1, db');
      NextRowIsAdded(db, i, columns, cols, rows, env, k - 1, db');
    }
  }

  lemma {:induction false} InsertedValuesFit(db: Db, i: nat, columns: seq<string>, cols: seq<nat>, rows: seq<seq<Expr>>, env: Env)
    requires db.Valid() && i < |db.tables| && InsertColumns(db.tables[i].schema, columns) == Ok(cols)
    requires InsertRows(db, i, cols, rows, env).Ok?
    ensures forall k :: 0 <= k < |rows| ==> ValuesFit(db.tables[i].schema, columns, rows[k], env)
    decreases |rows|
  {
    hide ValuesFit, InsertColumns, InsertRow;
    if rows != [] {
      var n := |rows| - 1;
      InsertedValuesFit(db, i, columns, cols, rows[..n], env);
      InsertRowsAdd(db, i, columns, cols, rows[..n], env);
      RowAdded(InsertRows(db, i, cols, rows[..n], env).value, i, columns, cols, rows[n], env, InsertRows(db, i, cols, rows, env).value);
      assert forall k :: 0 <= k < n ==> rows[..n][k] == rows[k];
    }
  }

  /******* Why an INSERT fails *******/

  ghost predicate Taken(t: TableState, c: nat, v: Value) {
    exists r: nat :: r < |t.rows| && t.Live(r) && c < |t.rows[r]| && CellEqual(v, t.rows[r][c])
  }

  /** A live row of the table and column of that name holds the value. */
  ghost predicate HasParent(db: Db, fk: FkRef, v: Value) {
    exists j: nat, k: nat :: j < |db.tables| && j < |db.names| && db.names[j] == fk.table
      && k < |db.tables[j].schema.names| && db.tables[j].schema.names[k] == fk.column && Taken(db.tables[j], k, v)
  }

  /** What is wrong with cell c of a row to be added to table i. */
  ghost predicate Refused(db: Db, i: nat, row: Row, c: nat, e: Error)
    requires db.Valid() && i < |db.tables| && RowFits(db.tables[i].schema.types, row) && c < |row|
  {
    var t := db.tables[i];
    var key := t.schema.pk == Some(c);
    match e
    case NullKey => key && row[c].Null?
    case DuplicateKey => key && Taken(t, c, row[c])
    case ParentMissing =>
      !row[c].Null? && !(key && Taken(t, c, row[c])) && t.schema.fks[c].Some? && !HasParent(db, t.schema.fks[c].value, row[c])
    case _ => false
  }

  lemma TakenIsMatch(t: TableState, c: nat, v: Value)
    requires t.Valid()
    ensures Taken(t, c, v) <==> t.HasMatch(c, v)
  {
    if Taken(t, c, v) {
      var r: nat :| r < |t.rows| && t.Live(r) && c < |t.rows[r]| && CellEqual(v, t.rows[r][c]);
      assert t.Holds(r, c, v);
    }
    if t.HasMatch(c, v) {
      var r :| t.Holds(r, c, v);
    }
  }

  lemma HasParentExactly(db: Db, s: Schema, c: nat, v: Value)
    requires SchemaOk(db) && c < |s.fks| && s.fks[c].Some? && FkTarget(db, s, c).Some?
    ensures var target := FkTarget(db, s, c).value;
      HasParent(db, s.fks[c].value, v) <==> db.tables[target.table].HasMatch(target.col, v)
  {
    var fk, target := s.fks[c].value, FkTarget(db, s, c).value;
    TakenIsMatch(db.tables[target.table], target.col, v);
    assert db.names[target.table] == fk.table && db.tables[target.table].schema.names[target.col] == fk.column;
    forall j: nat, k: nat | j < |db.tables| && db.names[j] == fk.table && k < |db.tables[j].schema.names| && db.tables[j].schema.names[k] == fk.column
      ensures j == target.table && k == target.col {
    }
  }

  lemma NewRowDuplicate(t: TableState, row: Row, c: nat)
    requires t.Valid() && RowFits(t.schema.types, row) && c < |row|
    ensures var t' := t.(rows := t.rows + [row], dead := t.dead + [false]);
      && t'.Valid() && t'.Cell(|t.rows|, c) == row[c]
      && (t'.HasDuplicate(c, |t.rows|) <==> Taken(t, c, row[c]))
  {
    var t', n := t.(rows := t.rows + [row], dead := t.dead + [false]), |t.rows|;
    TakenIsMatch(t, c, row[c]);
    forall r: int | r != n ensures t'.Holds(r, c, row[c]) <==> t.Holds(r, c, row[c]) {
    }
  }

  lemma NewRowTarget(db: Db, i: nat, row: Row, c: nat)
    requires SchemaOk(db) && i < |db.tables| && RowFits(db.tables[i].schema.types, row) && c < |row|
    ensures var db', s := WithRow(db, i, row), db.tables[i].schema;
      && db'.Valid() && (s.fks[c].Some? <==> FkTarget(db', s, c).Some?)
      && (s.fks[c].Some? ==>
            var target := FkTarget(db', s, c).value;
            HasParent(db, s.fks[c].value, row[c]) <==> db'.tables[target.table].HasMatch(target.col, row[c]))
  {
    var db', s := WithRow(db, i, row), db.tables[i].schema;
    assert db.names == db'.names[..|db.names|];
    NewRowDuplicate(db.tables[i], row, c);
    TargetsBySchema(db, db', s, c);
    assert FkResolves(db, i, c);
    if s.fks[c].Some? {
      HasParentExactly(db, s, c, row[c]);
    }
  }

  lemma RefusalExactly(db: Db, i: nat, row: Row, c: nat, e: Error)
    requires SchemaOk(db) && i < |db.tables| && RowFits(db.tables[i].schema.types, row) && c < |row|
    ensures WithRow(db, i, row).Valid()
    ensures CellViolation(WithRow(db, i, row), i, |db.tables[i].rows|, c) == Some(e) <==> Refused(db, i, row, c, e)
  {
    hide Taken, HasParent, FkTarget;
    NewRowDuplicate(db.tables[i], row, c);
    NewRowTarget(db, i, row, c);
  }

  /** The first cell of the new row that is refused decides the error. */
  lemma InsertRefusal(db: Db, table: string, columns: seq<string>, values: seq<Expr>, env: Env, row: Row, c: nat, e: Error)
    requires SchemaOk(db) && db.Find(table).Some?
    requires var schema := db.tables[db.Find(table).value].schema;
      ColumnsFit(schema, columns) && ValuesFit(schema, columns, values, env) && HoldsValues(schema, columns, values, env, row)
    requires c < |row| && Refused(db, db.Find(table).value, row, c, e)
    requires forall d: nat, f: Error :: d < c ==> !Refused(db, db.Find(table).value, row, d, f)
    ensures Run(db, Insert(table, columns, [values]), env) == Err(e)
  {
    hide HoldsValues, ColumnsFit, InsertColumns, Gives, WithRow, Refused, RowViolation;
    var i := db.Find(table).value;
    var t := db.tables[i];
    ColumnsFitExactly(t.schema, columns);
    var cols := InsertColumns(t.schema, columns).value;
    ColumnCount(t.schema, columns, cols);
    ValuesFitExactly(t.schema, columns, cols, values, env);
    RowOfValues(db, i, columns, cols, values, env);
    var db' := WithNewRow(db, i, cols, ValuesOf(values, NoContext(env)));
    HoldsValuesOnce(t.schema, columns, values, env, row, db'.tables[i].rows[|t.rows|]);
    WithRowIsNewRow(db, i, cols, ValuesOf(values, NoContext(env)));
    FirstRefusal(db, i, row, 0, c, e);
    OneRow(db, i, cols, values, env);
  }

  lemma {:induction false} FirstRefusal(db: Db, i: nat, row: Row, d: nat, c: nat, e: Error)
    requires SchemaOk(db) && i < |db.tables| && RowFits(db.tables[i].schema.types, row) && d <= c < |row|
    requires Refused(db, i, row, c, e) && forall b: nat, f: Error :: b < c ==> !Refused(db, i, row, b, f)
    ensures WithRow(db, i, row).Valid()
    ensures RowViolation(WithRow(db, i, row), i, |db.tables[i].rows|, d) == Some(e)
    decreases c - d
  {
    hide Refused, CellViolation;
    var v := CellViolation(WithRow(db, i, row), i, |db.tables[i].rows|, d);
    if v.Some? {
      RefusalExactly(db, i, row, d, v.value);
    }
    RefusalExactly(db, i, row, c, e);
    if d < c {
      FirstRefusal(db, i, row, d + 1, c, e);
    }
  }

  /** Before that, an INSERT fails over its table, its columns, the number of values or the first value that does not fit. */
  lemma InsertErrors(db: Db, table: string, columns: seq<string>, values: seq<Expr>, env: Env)
    requires db.Valid()
    ensures table !in db.names ==> Run(db, Insert(table, columns, [values]), env) == Err(NoSuchTable)
    ensures db.Find(table).Some? ==>
      var schema, r := db.tables[db.Find(table).value].schema, Run(db, Insert(table, columns, [values]), env);
      && ((exists k :: 0 <= k < |columns| && columns[k] !in schema.names) ==> r == Err(NoSuchColumn))
      && ((forall k :: 0 <= k < |columns| ==> columns[k] in schema.names) && !ColumnsFit(schema, columns) ==> r == Err(DuplicateColumn))
      && (ColumnsFit(schema, columns) && |values| != (if columns == [] then |schema.types| else |columns|) ==> r == Err(WrongValueCount))
      && (ColumnsFit(schema, columns) && |values| == (if columns == [] then |schema.types| else |columns|) && !ValuesFit(schema, columns, values, env) ==>
            exists k :: 0 <= k < |values| && FitsUpTo(schema, columns, values, env, k) && !FitsUpTo(schema, columns, values, env, k + 1)
              && r == Err(if HasColumnRef(values[k]) then ColumnInValues else TypeMismatch))
  {
    hide InsertColumns, InsertRow, FitsUpTo, ColumnsFit, ValuesFit, FirstBadValue, ExprFits, Gives;
    if db.Find(table).Some? {
      var i := db.Find(table).value;
      var schema := db.tables[i].schema;
      ColumnsFitExactly(schema, columns);
      NamesMissing(schema, columns);
      if ColumnsFit(schema, columns) {
        var cols := InsertColumns(schema, columns).value;
        ColumnCount(schema, columns, cols);
        OneRow(db, i, cols, values, env);
        InsertRowError(db, i, columns, cols, values, env);
      }
    }
  }

  lemma NamesMissing(schema: Schema, columns: seq<string>)
    ensures ColumnsFit(schema, columns) ==> forall k :: 0 <= k < |columns| ==> columns[k] in schema.names
  {
  }

  /** The first k values read no column and fit the columns they are meant for. */
  ghost predicate FitsUpTo(schema: Schema, columns: seq<string>, values: seq<Expr>, env: Env, k: nat) {
    forall j, c :: 0 <= j < k && j < |values| && 0 <= c < |schema.types| && Gives(schema, columns, j, c) ==>
      !HasColumnRef(values[j]) && ExprFits(values[j], RowCtx([], env.params, env.fpu), schema.types[c])
  }

  lemma InsertRowError(db: Db, i: nat, columns: seq<string>, cols: seq<nat>, values: seq<Expr>, env: Env)
    requires db.Valid() && i < |db.tables| && InsertColumns(db.tables[i].schema, columns) == Ok(cols)
    ensures var schema, r := db.tables[i].schema, InsertRow(db, i, cols, values, env);
      && (|values| != |cols| ==> r == Err(WrongValueCount))
      && (|values| == |cols| && !ValuesFit(schema, columns, values, env) ==>
            exists k :: 0 <= k < |values| && FitsUpTo(schema, columns, values, env, k) && !FitsUpTo(schema, columns, values, env, k + 1)
              && r == Err(if HasColumnRef(values[k]) then ColumnInValues else TypeMismatch))
  {
    hide RowViolation, WithNewRow, ExprFits, InsertColumns;
    var schema := db.tables[i].schema;
    if |values| == |cols| && !ValuesFit(schema, columns, values, env) {
      ValuesFitExactly(schema, columns, cols, values, env);
      var k := BadValue(values, cols, schema.types, env, 0);
      forall j: nat, c: nat | c < |schema.types| ensures Gives(schema, columns, j, c) <==> j < |cols| && cols[j] == c {
        GivesExactly(schema, columns, cols, j, c);
      }
      ColumnsInRange(schema, columns, cols);
      assert Gives(schema, columns, k, cols[k]);
      assert !FitsUpTo(schema, columns, values, env, k + 1);
      assert FitsUpTo(schema, columns, values, env, k);
    }
  }

  lemma ColumnsInRange(schema: Schema, columns: seq<string>, cols: seq<nat>)
    requires schema.Valid() && InsertColumns(schema, columns) == Ok(cols)
    ensures forall k :: 0 <= k < |cols| ==> cols[k] < |schema.types|
  {
  }

  /******* CREATE TABLE *******/

  /** The schema has these columns, and the one marked primary, if any, is its key. */
  ghost predicate HasColumns(s: Schema, defs: seq<ColumnDef>) {
    && s.Valid() && |s.names| == |defs|
    && (forall c :: 0 <= c < |defs| ==> s.names[c] == defs[c].name && s.types[c] == defs[c].kind && s.fks[c] == defs[c].fk)
    && (forall c :: 0 <= c < |defs| ==> (s.pk == Some(c) <==> defs[c].primary))
  }

  /** CREATE TABLE adds one empty table with exactly the columns, types, references and key it was given. */
  lemma CreateMeans(db: Db, name: string, defs: seq<ColumnDef>)
    requires db.Valid() && CreateTable(db, name, defs).Ok?
    ensures var created, n := CreateTable(db, name, defs).value, |db.tables|;
      && created.Valid() && created.names == db.names + [name] && |created.tables| == n + 1 && created.tables[..n] == db.tables
      && created.tables[n].rows == [] && created.tables[n].dead == [] && HasColumns(created.tables[n].schema, defs)
      && created.Find(name) == Some(n)
  {
    var created, n := CreateTable(db, name, defs).value, |db.tables|;
    assert created.tables[..n] == db.tables;
    assert created.names[n] == name;
    assert created.Find(name) == Some(n);
  }

  /** The reference names the key, of the same type, of a table that exists. */
  ghost predicate NamesKey(db: Db, fk: FkRef, kind: FieldType) {
    exists j: nat, k: nat :: j < |db.tables| && j < |db.names| && db.names[j] == fk.table && KeyIs(db.tables[j].schema, k, fk.column, kind)
  }

  predicate KeyIs(s: Schema, k: nat, name: string, kind: FieldType) {
    s.pk == Some(k) && k < |s.names| && k < |s.types| && s.names[k] == name && s.types[k] == kind
  }

  /** It succeeds exactly for a new name, at least one column, no column name twice, one key at most, and references to keys. */
  lemma CreateExactly(db: Db, name: string, defs: seq<ColumnDef>)
    requires SchemaOk(db)
    ensures CreateTable(db, name, defs).Ok? <==>
      && name !in db.names && defs != []
      && (forall a, b :: 0 <= a < b < |defs| ==> defs[a].name != defs[b].name && !(defs[a].primary && defs[b].primary))
      && (forall c :: 0 <= c < |defs| && defs[c].fk.Some? ==> NamesKey(db, defs[c].fk.value, defs[c].kind))
  {
    if name !in db.names {
      forall c | 0 <= c < |defs| ensures GoodReference(db, name, defs[c]) <==> (defs[c].fk.Some? ==> NamesKey(db, defs[c].fk.value, defs[c].kind)) {
        ReferenceExactly(db, name, defs[c]);
      }
    }
  }

  /** Otherwise the first of these that is not so names the error. */
  lemma CreateErrors(db: Db, name: string, defs: seq<ColumnDef>)
    requires SchemaOk(db)
    ensures var r, twice, keys := CreateTable(db, name, defs),
        exists a, b :: 0 <= a < b < |defs| && defs[a].name == defs[b].name,
        exists a, b :: 0 <= a < b < |defs| && defs[a].primary && defs[b].primary;
      r.Err? ==> (
        r.error ==
        if name in db.names then TableExists
        else if defs == [] then NoColumns
        else if twice then DuplicateColumn
        else if keys then TwoKeys
        else BadReference)
  {
  }

  lemma ReferenceExactly(db: Db, name: string, d: ColumnDef)
    requires SchemaOk(db) && name !in db.names
    ensures GoodReference(db, name, d) <==> (d.fk.Some? ==> NamesKey(db, d.fk.value, d.kind))
  {
    if d.fk.Some? {
      var fk := d.fk.value;
      if GoodReference(db, name, d) {
        var j := db.Find(fk.table).value;
        assert KeyIs(db.tables[j].schema, db.tables[j].schema.FindColumn(fk.column).value, fk.column, d.kind);
      }
      if NamesKey(db, fk, d.kind) {
        var j: nat, k: nat :| j < |db.tables| && db.names[j] == fk.table && KeyIs(db.tables[j].schema, k, fk.column, d.kind);
        assert db.Find(fk.table) == Some(j) && db.tables[j].schema.FindColumn(fk.column) == Some(k);
      }
    }
  }

  /******* A created key and reference are enforced *******/

  /** A row offered to a table whose columns are those of a CREATE TABLE. */
  ghost predicate Offered(db: Db, table: string, defs: seq<ColumnDef>, columns: seq<string>, values: seq<Expr>, env: Env, row: Row) {
    && SchemaOk(db) && db.Find(table).Some?
    && var schema := db.tables[db.Find(table).value].schema;
       && HasColumns(schema, defs)
       && ColumnsFit(schema, columns) && ValuesFit(schema, columns, values, env) && HoldsValues(schema, columns, values, env, row)
  }

  /** No cell to the left of column c is refused: the references there have parents, and the key, if it is there, is new. */
  ghost predicate NoneRefusedBefore(db: Db, table: string, row: Row, c: nat)
    requires db.Valid() && db.Find(table).Some? && RowFits(db.tables[db.Find(table).value].schema.types, row) && c <= |row|
  {
    forall d: nat, f: Error :: d < c ==> !Refused(db, db.Find(table).value, row, d, f)
  }

  /** An INSERT without a value for the key of the CREATE TABLE is refused, and one of a key that is there. */
  lemma CreatedKeyIsEnforced(db: Db, table: string, defs: seq<ColumnDef>, columns: seq<string>, values: seq<Expr>, env: Env, row: Row, c: nat)
    requires Offered(db, table, defs, columns, values, env, row)
    requires c < |defs| && defs[c].primary && NoneRefusedBefore(db, table, row, c)
    ensures row[c].Null? ==> Run(db, Insert(table, columns, [values]), env) == Err(NullKey)
    ensures Taken(db.tables[db.Find(table).value], c, row[c]) ==> Run(db, Insert(table, columns, [values]), env) == Err(DuplicateKey)
  {
    hide ValuesFit, ColumnsFit;
    var i := db.Find(table).value;
    if row[c].Null? {
      InsertRefusal(db, table, columns, values, env, row, c, NullKey);
    } else if Taken(db.tables[i], c, row[c]) {
      InsertRefusal(db, table, columns, values, env, row, c, DuplicateKey);
    }
  }

  /** So is one whose reference has no live parent. */
  lemma CreatedReferenceIsEnforced(db: Db, table: string, defs: seq<ColumnDef>, columns: seq<string>, values: seq<Expr>, env: Env, row: Row, c: nat)
    requires Offered(db, table, defs, columns, values, env, row)
    requires c < |defs| && defs[c].fk.Some? && NoneRefusedBefore(db, table, row, c)
    requires !row[c].Null? && !HasParent(db, defs[c].fk.value, row[c])
    requires defs[c].primary ==> !Taken(db.tables[db.Find(table).value], c, row[c])
    ensures Run(db, Insert(table, columns, [values]), env) == Err(ParentMissing)
  {
    hide ValuesFit, ColumnsFit;
    InsertRefusal(db, table, columns, values, env, row, c, ParentMissing);
  }

  /** With nothing refused the INSERT succeeds. */
  lemma UnrefusedIsInserted(db: Db, table: string, defs: seq<ColumnDef>, columns: seq<string>, values: seq<Expr>, env: Env, row: Row)
    requires Offered(db, table, defs, columns, values, env, row) && NoneRefusedBefore(db, table, row, |row|)
    ensures Run(db, Insert(table, columns, [values]), env).Ok?
  {
    hide HoldsValues, ColumnsFit, InsertColumns, Gives, WithRow, Refused, RowViolation;
    var i := db.Find(table).value;
    var t := db.tables[i];
    ColumnsFitExactly(t.schema, columns);
    var cols := InsertColumns(t.schema, columns).value;
    ColumnCount(t.schema, columns, cols);
    ValuesFitExactly(t.schema, columns, cols, values, env);
    RowOfValues(db, i, columns, cols, values, env);
    var db' := WithNewRow(db, i, cols, ValuesOf(values, NoContext(env)));
    HoldsValuesOnce(t.schema, columns, values, env, row, db'.tables[i].rows[|t.rows|]);
    WithRowIsNewRow(db, i, cols, ValuesOf(values, NoContext(env)));
    NoRefusal(db, i, row, 0);
    OneRow(db, i, cols, values, env);
  }

  lemma {:induction false} NoRefusal(db: Db, i: nat, row: Row, d: nat)
    requires SchemaOk(db) && i < |db.tables| && RowFits(db.tables[i].schema.types, row) && d <= |row|
    requires forall b: nat, f: Error :: b < |row| ==> !Refused(db, i, row, b, f)
    ensures WithRow(db, i, row).Valid() && RowViolation(WithRow(db, i, row), i, |db.tables[i].rows|, d).None?
    decreases |row| - d
  {
    hide Refused, CellViolation;
    if d < |row| {
      var v := CellViolation(WithRow(db, i, row), i, |db.tables[i].rows|, d);
      RefusalExactly(db, i, row, d, if v.Some? then v.value else NullKey);
      NoRefusal(db, i, row, d + 1);
    } else {
      assert WithRow(db, i, row).tables[i].rows[|db.tables[i].rows|] == row;
    }
  }

  /** A live row would be refused over nothing but its key. */
  lemma StandingRowIsRefusedForKey(db: Db, i: nat, r: nat, c: nat, e: Error)
    requires SchemaOk(db) && Integrity(db) && i < |db.tables| && db.tables[i].Live(r) && c < |db.tables[i].schema.types|
    ensures RowFits(db.tables[i].schema.types, db.tables[i].rows[r])
    ensures Refused(db, i, db.tables[i].rows[r], c, e) ==> db.tables[i].schema.pk == Some(c) && e == DuplicateKey
  {
    var s, v := db.tables[i].schema, db.tables[i].rows[r][c];
    assert RefOk(db, i, r, c) && KeyOk(db.tables[i], r) && FkResolves(db, i, c);
    if s.fks[c].Some? {
      HasParentExactly(db, s, c, v);
    }
  }

  /** In a table with a key the row that an INSERT added is refused the next time, unless the key is NaN. */
  lemma SameRowIsRefused(db: Db, table: string, defs: seq<ColumnDef>, columns: seq<string>, values: seq<Expr>, env: Env, k: nat, r: nat)
    requires SchemaOk(db) && Integrity(db) && db.Find(table).Some? && k < |defs| && defs[k].primary
    requires var t := db.tables[db.Find(table).value];
      HasColumns(t.schema, defs) && ColumnsFit(t.schema, columns) && ValuesFit(t.schema, columns, values, env)
      && RowStands(t, r, columns, values, env) && Ordered(t.rows[r][k])
    ensures Run(db, Insert(table, columns, [values]), env) == Err(DuplicateKey)
  {
    hide ValuesFit, ColumnsFit, Refused;
    var i := db.Find(table).value;
    var t := db.tables[i];
    assert KeyOk(t, r);
    assert Taken(t, k, t.rows[r][k]);
    forall d: nat, f: Error | d < k ensures !Refused(db, i, t.rows[r], d, f) {
      StandingRowIsRefusedForKey(db, i, r, d, f);
    }
    CreatedKeyIsEnforced(db, table, defs, columns, values, env, t.rows[r], k);
  }

  /** CREATE TABLE, then one INSERT twice: with a key in the table the second is refused as a duplicate, unless the key is NaN. */
  lemma SecondInsertIsRefused(db: Db, table: string, defs: seq<ColumnDef>, columns: seq<string>, values: seq<Expr>, env: Env, k: nat)
    requires SchemaOk(db) && Integrity(db) && CreateTable(db, table, defs).Ok? && k < |defs| && defs[k].primary
    requires Run(CreateTable(db, table, defs).value, Insert(table, columns, [values]), env).Ok?
    ensures var first, n := Run(CreateTable(db, table, defs).value, Insert(table, columns, [values]), env).value.db, |db.tables|;
      && first.Valid() && |first.tables| == n + 1 && |first.tables[n].rows| == 1 && k < |first.tables[n].rows[0]|
      && (Ordered(first.tables[n].rows[0][k]) ==> Run(first, Insert(table, columns, [values]), env) == Err(DuplicateKey))
  {
    hide HoldsValues, ValuesFit, ColumnsFit, Integrity, Run, CreateTable;
    var created, s := CreateTable(db, table, defs).value, Insert(table, columns, [values]);
    CreateMeans(db, table, defs);
    CreateKeepsIntegrity(db, table, defs);
    InsertMeans(created, s, env);
    RunKeepsIntegrity(created, s, env);
    InsertExactly(created, s, env);
    var first, n := Run(created, s, env).value.db, |db.tables|;
    assert RowStands(first.tables[n], 0, columns, [values][0], env);
    assert ValuesFit(created.tables[n].schema, columns, [values][0], env);
    if Ordered(first.tables[n].rows[0][k]) {
      SameRowIsRefused(first, table, defs, columns, values, env, k, 0);
    }
  }
}
