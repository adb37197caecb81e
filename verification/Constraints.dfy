/**
 Primary and foreign keys: what the row checks decide, what integrity of the whole
 catalog means, and which single-row changes keep it.
 */
module Constraints {
  import opened Values
  import opened TableStates
  import opened Catalogs

  datatype Error =
    | NoSuchTable
    | NoSuchColumn
    | DuplicateColumn
    | WrongValueCount
    | ColumnInValues
    | TypeMismatch
    | NotAPredicate
    | NullKey
    | DuplicateKey
    | ParentMissing
    | StillReferenced
    | TableExists
    | NoColumns
    | TwoKeys
    | BadReference
    | OutOfMemory

  /** A column of a table of the catalog. */
  datatype Target = Target(table: nat, col: nat)

  /** Where the foreign key of a column points, by name, in the current catalog. */
  function FkTarget(db: Db, schema: Schema, c: nat): (r: Option<Target>)
    requires |db.names| == |db.tables| && c < |schema.fks|
    ensures r.Some? ==> r.value.table < |db.tables| && schema.fks[c].Some?
    ensures r.Some? ==> db.names[r.value.table] == schema.fks[c].value.table
    ensures r.Some? ==> db.tables[r.value.table].schema.FindColumn(schema.fks[c].value.column) == Some(r.value.col)
  {
    if schema.fks[c].None? then None
    else
      var j := db.Find(schema.fks[c].value.table);
      if j.None? then None
      else
        var k := db.tables[j.value].schema.FindColumn(schema.fks[c].value.column);
        if k.None? then None else Some(Target(j.value, k.value))
  }

  /** Every foreign key resolves to the primary key, of the same type, of another table. */
  ghost predicate FkResolves(db: Db, i: nat, c: nat)
    requires db.Valid() && i < |db.tables| && c < |db.tables[i].schema.fks|
  {
    var s := db.tables[i].schema;
    s.fks[c].Some? ==>
      var t := FkTarget(db, s, c);
      && t.Some? && t.value.table != i
      && db.tables[t.value.table].schema.IsPk(t.value.col)
      && db.tables[t.value.table].schema.types[t.value.col] == s.types[c]
  }

  ghost predicate DistinctNames(names: seq<string>) {
    forall i, j :: 0 <= i < j < |names| ==> names[i] != names[j]
  }

  ghost predicate SchemaOk(db: Db) {
    && db.Valid()
    && DistinctNames(db.names)
    && (forall i :: 0 <= i < |db.tables| ==> DistinctNames(db.tables[i].schema.names))
    && (forall i, c :: 0 <= i < |db.tables| && 0 <= c < |db.tables[i].schema.fks| ==> FkResolves(db, i, c))
  }

  /******* The checks *******/

  /** What check_row_constraints finds wrong with one cell of a row. */
  ghost function CellViolation(db: Db, i: nat, row: nat, c: nat): Option<Error>
    requires db.Valid() && i < |db.tables| && row < |db.tables[i].rows| && c < |db.tables[i].schema.types|
  {
    var t := db.tables[i];
    var v := t.Cell(row, c);
    if t.schema.IsPk(c) && v.Null? then Some(NullKey)
    else if t.schema.IsPk(c) && t.HasDuplicate(c, row) then Some(DuplicateKey)
    else
      var target := FkTarget(db, t.schema, c);
      if target.Some? && !v.Null? && !db.tables[target.value.table].HasMatch(target.value.col, v) then Some(ParentMissing)
      else None
  }

  /** The first violation from column c on. */
  ghost function RowViolation(db: Db, i: nat, row: nat, c: nat): Option<Error>
    requires db.Valid() && i < |db.tables| && row < |db.tables[i].rows| && c <= |db.tables[i].schema.types|
    decreases |db.tables[i].schema.types| - c
  {
    if c == |db.tables[i].schema.types| then None
    else
      var v := CellViolation(db, i, row, c);
      if v.Some? then v else RowViolation(db, i, row, c + 1)
  }

  lemma {:induction false} NoRowViolation(db: Db, i: nat, row: nat, c: nat, d: nat)
    requires db.Valid() && i < |db.tables| && row < |db.tables[i].rows| && c <= d < |db.tables[i].schema.types|
    requires RowViolation(db, i, row, c).None?
    ensures CellViolation(db, i, row, d).None?
    decreases d - c
  {
    if c < d {
      NoRowViolation(db, i, row, c + 1, d);
    }
  }

  /** Column c of table m is a foreign key onto the primary key of table i, by name. */
  predicate PointsAt(db: Db, m: nat, c: nat, i: nat)
    requires |db.names| == |db.tables| && i < |db.tables| && db.tables[i].schema.Valid()
  {
    && m < |db.tables| && c < |db.tables[m].schema.fks|
    && db.tables[i].schema.pk.Some?
    && db.tables[m].schema.fks[c] == Some(FkRef(db.names[i], db.tables[i].schema.names[db.tables[i].schema.pk.value]))
  }

  /** Some live row refers to this row's key. */
  ghost predicate Referenced(db: Db, i: nat, row: nat)
    requires db.Valid() && i < |db.tables| && row < |db.tables[i].rows|
  {
    && db.tables[i].schema.pk.Some?
    && exists m: nat, c: nat :: PointsAt(db, m, c, i) && db.tables[m].HasMatch(c, db.tables[i].Cell(row, db.tables[i].schema.pk.value))
  }

  /******* Integrity *******/

  ghost predicate KeyOk(t: TableState, r: nat)
    requires t.Valid() && r < |t.rows|
  {
    t.schema.pk.Some? ==> !t.Cell(r, t.schema.pk.value).Null? && !t.HasDuplicate(t.schema.pk.value, r)
  }

  ghost predicate RefOk(db: Db, i: nat, r: nat, c: nat)
    requires db.Valid() && i < |db.tables| && r < |db.tables[i].rows| && c < |db.tables[i].schema.types|
  {
    var target := FkTarget(db, db.tables[i].schema, c);
    target.Some? && !db.tables[i].Cell(r, c).Null? ==>
      db.tables[target.value.table].HasMatch(target.value.col, db.tables[i].Cell(r, c))
  }

  /** Live primary keys are non-null and pairwise unequal, and every live reference has a live parent. */
  ghost predicate Integrity(db: Db) {
    && db.Valid()
    && (forall i, r :: 0 <= i < |db.tables| && db.tables[i].Live(r) ==> KeyOk(db.tables[i], r))
    && (forall i, r, c :: 0 <= i < |db.tables| && db.tables[i].Live(r) && 0 <= c < |db.tables[i].schema.types| ==> RefOk(db, i, r, c))
  }

  /** Integrity read as the pairwise statement about keys. */
  lemma IntegrityMeansUniqueKeys(db: Db, i: nat, r: nat, s: nat)
    requires Integrity(db) && i < |db.tables| && db.tables[i].schema.pk.Some?
    requires db.tables[i].Live(r) && db.tables[i].Live(s) && r != s
    ensures var k := db.tables[i].schema.pk.value;
      !db.tables[i].Cell(r, k).Null? && !CellEqual(db.tables[i].Cell(r, k), db.tables[i].Cell(s, k))
  {
    var t := db.tables[i];
    assert KeyOk(t, r);
    assert t.HasCell(s, t.schema.pk.value) && t.HasCell(r, t.schema.pk.value);
    assert !t.Holds(s, t.schema.pk.value, t.Cell(r, t.schema.pk.value));
  }

  /******* Which changes keep it *******/

  /** t' differs from t in one row at most. */
  ghost predicate OnlyRow(t: TableState, t': TableState, row: nat) {
    && t.Valid() && t'.Valid() && t'.schema == t.schema && |t'.rows| >= |t.rows|
    && forall r :: r != row ==> (t.Live(r) <==> t'.Live(r)) && (t.Live(r) ==> t'.rows[r] == t.rows[r])
  }

  lemma FirstIndexIsUnique(names: seq<string>, name: string, i: nat, j: nat)
    requires i < |names| && names[i] == name && name !in names[..i]
    requires j < |names| && names[j] == name && name !in names[..j]
    ensures i == j
  {
    forall k | 0 <= k < j ensures names[k] != name {
      assert names[..j][k] == names[k];
    }
    forall k | 0 <= k < i ensures names[k] != name {
      assert names[..i][k] == names[k];
    }
  }

  lemma TargetsBySchema(a: Db, b: Db, schema: Schema, c: nat)
    requires a.Valid() && b.Valid() && c < |schema.fks|
    requires |a.names| <= |b.names| && a.names == b.names[..|a.names|]
    requires forall i :: 0 <= i < |a.tables| ==> a.tables[i].schema == b.tables[i].schema
    ensures FkTarget(a, schema, c).Some? ==> FkTarget(b, schema, c) == FkTarget(a, schema, c)
    ensures |a.names| == |b.names| ==> FkTarget(b, schema, c) == FkTarget(a, schema, c)
  {
    if schema.fks[c].Some? {
      var name := schema.fks[c].value.table;
      var i, j := a.Find(name), b.Find(name);
      if i.Some? {
        assert b.names[i.value] == name && b.names[..i.value] == a.names[..i.value];
        FirstIndexIsUnique(b.names, name, i.value, j.value);
      } else if |a.names| == |b.names| {
        assert a.names == b.names;
      }
    }
  }

  lemma SchemaOkBySchemas(a: Db, b: Db)
    requires SchemaOk(a) && b.Valid() && a.names == b.names
    requires forall i :: 0 <= i < |a.tables| ==> a.tables[i].schema == b.tables[i].schema
    ensures SchemaOk(b)
  {
    assert a.names == b.names[..|a.names|];
    forall i, c | 0 <= i < |b.tables| && 0 <= c < |b.tables[i].schema.fks| ensures FkResolves(b, i, c) {
      assert FkResolves(a, i, c);
      TargetsBySchema(a, b, b.tables[i].schema, c);
    }
  }

  /** A live match in t survives in t' unless it was the changed row. */
  lemma MatchSurvives(t: TableState, t': TableState, row: nat, c: nat, v: Value)
    requires t.Valid() && OnlyRow(t, t', row) && c < |t.schema.types| && t.HasMatch(c, v)
    requires t.Live(row) && CellEqual(v, t.rows[row][c]) ==> t'.Live(row) && CellEqual(v, t'.rows[row][c])
    ensures t'.HasMatch(c, v)
  {
    var q :| t.Holds(q, c, v);
    assert t'.Holds(q, c, v);
  }

  /** Changing or adding one live row that passes its checks, and whose old key nobody refers to unless it is kept. */
  lemma RowChangeKeepsIntegrity(db: Db, i: nat, t': TableState, row: nat)
    requires SchemaOk(db) && Integrity(db) && i < |db.tables|
    requires OnlyRow(db.tables[i], t', row) && t'.Live(row)
    requires db.With(i, t').Valid() && RowViolation(db.With(i, t'), i, row, 0).None?
    requires db.tables[i].Live(row) ==> KeyKept(db.tables[i], t', row) || !Referenced(db, i, row)
    ensures Integrity(db.With(i, t')) && SchemaOk(db.With(i, t'))
  {
    var db' := db.With(i, t');
    SchemaOkBySchemas(db, db');
    forall m, r | 0 <= m < |db'.tables| && db'.tables[m].Live(r) ensures KeyOk(db'.tables[m], r) {
      if m != i {
        assert KeyOk(db.tables[m], r);
      } else {
        ChangedKeyOk(db, i, t', row, r);
      }
    }
    forall m, r, c | 0 <= m < |db'.tables| && db'.tables[m].Live(r) && 0 <= c < |db'.tables[m].schema.types|
      ensures RefOk(db', m, r, c) {
      if m == i && r == row {
        NoRowViolation(db', i, row, 0, c);
      } else {
        ChangedRefOk(db, i, t', row, m, r, c);
      }
    }
  }

  ghost predicate KeyKept(t: TableState, t': TableState, row: nat) {
    t.schema.pk.Some? ==>
      var k := t.schema.pk.value;
      t.HasCell(row, k) && t'.HasCell(row, k) && t.Cell(row, k) == t'.Cell(row, k)
  }

  lemma ChangedKeyOk(db: Db, i: nat, t': TableState, row: nat, r: nat)
    requires Integrity(db) && i < |db.tables| && OnlyRow(db.tables[i], t', row) && t'.Live(row) && t'.Live(r)
    requires db.With(i, t').Valid() && RowViolation(db.With(i, t'), i, row, 0).None?
    ensures KeyOk(t', r)
  {
    var t := db.tables[i];
    if t'.schema.pk.Some? {
      var k := t'.schema.pk.value;
      NoRowViolation(db.With(i, t'), i, row, 0, k);
      if r != row {
        assert KeyOk(t, r);
        assert t'.HasCell(row, k) && t'.HasCell(r, k);
        forall s | s != r ensures !t'.Holds(s, k, t'.Cell(r, k)) {
          if t'.Holds(s, k, t'.Cell(r, k)) {
            if s == row {
              CellEqualTransitive(t'.Cell(r, k), t'.Cell(row, k), t'.Cell(row, k));
              assert t'.Holds(r, k, t'.Cell(row, k));
            } else {
              assert t.Holds(s, k, t.Cell(r, k));
            }
          }
        }
      }
    }
  }

  lemma ChangedRefOk(db: Db, i: nat, t': TableState, row: nat, m: nat, r: nat, c: nat)
    requires SchemaOk(db) && Integrity(db) && i < |db.tables| && OnlyRow(db.tables[i], t', row) && db.With(i, t').Valid()
    requires db.tables[i].Live(row) ==> (t'.Live(row) && KeyKept(db.tables[i], t', row)) || !Referenced(db, i, row)
    requires m < |db.tables| && db.With(i, t').tables[m].Live(r) && c < |db.tables[m].schema.types| && !(m == i && r == row)
    ensures RefOk(db.With(i, t'), m, r, c)
  {
    var db' := db.With(i, t');
    assert db.names == db'.names[..|db.names|];
    TargetsBySchema(db, db', db.tables[m].schema, c);
    var target := FkTarget(db, db.tables[m].schema, c);
    var v := db'.tables[m].Cell(r, c);
    assert RefOk(db, m, r, c);
    if target.Some? && !v.Null? && target.value.table == i {
      var k := target.value.col;
      assert FkResolves(db, m, c);
      var t := db.tables[i];
      if t.Live(row) && CellEqual(v, t.rows[row][k]) {
        CellEqualTransitive(v, t.rows[row][k], t.rows[row][k]);
        assert PointsAt(db, m, c, i);
        assert db.tables[m].Holds(r, c, t.Cell(row, k));
        assert Referenced(db, i, row);
        assert t'.rows[row][k] == t.rows[row][k] by {
          assert KeyKept(t, t', row);
        }
      }
      MatchSurvives(t, t', row, k, v);
    }
  }

  /** Deleting a row nobody refers to. */
  lemma DeleteKeepsIntegrity(db: Db, i: nat, row: nat)
    requires SchemaOk(db) && Integrity(db) && i < |db.tables| && db.tables[i].Live(row)
    requires !Referenced(db, i, row)
    ensures Integrity(db.With(i, db.tables[i].SetDead(row, true))) && SchemaOk(db.With(i, db.tables[i].SetDead(row, true)))
  {
    var t' := db.tables[i].SetDead(row, true);
    var db' := db.With(i, t');
    SchemaOkBySchemas(db, db');
    forall m, r | 0 <= m < |db'.tables| && db'.tables[m].Live(r) ensures KeyOk(db'.tables[m], r) {
      assert KeyOk(db.tables[m], r);
      if m == i && t'.schema.pk.Some? {
        var k := t'.schema.pk.value;
        assert db.tables[i].HasCell(r, k);
        forall s | s != r ensures !t'.Holds(s, k, t'.Cell(r, k)) {
          assert !db.tables[i].Holds(s, k, db.tables[i].Cell(r, k));
        }
      }
    }
    forall m, r, c | 0 <= m < |db'.tables| && db'.tables[m].Live(r) && 0 <= c < |db'.tables[m].schema.types|
      ensures RefOk(db', m, r, c) {
      ChangedRefOk(db, i, t', row, m, r, c);
    }
  }

  /******* The checks are exact *******/

  lemma {:induction false} SoundRowPasses(db: Db, i: nat, row: nat, c: nat)
    requires Integrity(db) && i < |db.tables| && db.tables[i].Live(row) && c <= |db.tables[i].schema.types|
    ensures RowViolation(db, i, row, c).None?
    decreases |db.tables[i].schema.types| - c
  {
    if c < |db.tables[i].schema.types| {
      assert KeyOk(db.tables[i], row) && RefOk(db, i, row, c);
      SoundRowPasses(db, i, row, c + 1);
    }
  }

  /** A changed or added row is refused exactly if it would break the integrity of the catalog. */
  lemma RowCheckExactly(db: Db, i: nat, t': TableState, row: nat)
    requires SchemaOk(db) && Integrity(db) && i < |db.tables|
    requires OnlyRow(db.tables[i], t', row) && t'.Live(row) && db.With(i, t').Valid()
    requires db.tables[i].Live(row) ==> KeyKept(db.tables[i], t', row) || !Referenced(db, i, row)
    ensures RowViolation(db.With(i, t'), i, row, 0).None? <==> Integrity(db.With(i, t'))
  {
    if RowViolation(db.With(i, t'), i, row, 0).None? {
      RowChangeKeepsIntegrity(db, i, t', row);
    } else if Integrity(db.With(i, t')) {
      SoundRowPasses(db.With(i, t'), i, row, 0);
    }
  }

  /** So is a deletion: a row is referenced exactly if some live row would be left without its parent. */
  lemma DeleteCheckExactly(db: Db, i: nat, row: nat)
    requires SchemaOk(db) && Integrity(db) && i < |db.tables| && db.tables[i].Live(row)
    ensures Referenced(db, i, row) <==> !Integrity(db.With(i, db.tables[i].SetDead(row, true)))
  {
    if Referenced(db, i, row) {
      var k := db.tables[i].schema.pk.value;
      var m: nat, c: nat :| PointsAt(db, m, c, i) && db.tables[m].HasMatch(c, db.tables[i].Cell(row, k));
      var q :| db.tables[m].Holds(q, c, db.tables[i].Cell(row, k));
      ReferenceIsOrphaned(db, i, row, m, c, q);
    } else {
      DeleteKeepsIntegrity(db, i, row);
    }
  }

  lemma ReferenceIsOrphaned(db: Db, i: nat, row: nat, m: nat, c: nat, q: nat)
    requires SchemaOk(db) && Integrity(db) && i < |db.tables| && db.tables[i].Live(row) && PointsAt(db, m, c, i)
    requires db.tables[m].Holds(q, c, db.tables[i].Cell(row, db.tables[i].schema.pk.value))
    ensures !Integrity(db.With(i, db.tables[i].SetDead(row, true)))
  {
    var t, s := db.tables[i], db.tables[m].schema;
    var k, db' := t.schema.pk.value, db.With(i, t.SetDead(row, true));
    assert FkResolves(db, m, c);
    var target := FkTarget(db, s, c).value;
    assert target.table == i && target.col == k;
    TargetsBySchema(db, db', s, c);
    var v := db.tables[m].Cell(q, c);
    forall r ensures !db'.tables[i].Holds(r, k, v) {
      if db'.tables[i].Holds(r, k, v) {
        IntegrityMeansUniqueKeys(db, i, row, r);
        CellEqualTransitive(t.Cell(row, k), v, t.Cell(r, k));
      }
    }
    assert db'.tables[m].Live(q) && !RefOk(db', m, q, c);
  }

  /** Integrity is a property of the visible state: dead rows and tables without live rows do not matter. */
  lemma ExtKeepsIntegrity(a: Db, b: Db)
    requires SchemaOk(a) && Integrity(a) && b.Valid() && DeadExt(a, b)
    ensures Integrity(b)
  {
    forall i, r | 0 <= i < |b.tables| && b.tables[i].Live(r)
      ensures i < |a.tables| && a.tables[i].Live(r) && a.tables[i].rows[r] == b.tables[i].rows[r] && KeyOk(b.tables[i], r) {
      ExtLive(a, b, i, r);
      var s, t := a.tables[i], b.tables[i];
      assert KeyOk(s, r);
      if t.schema.pk.Some? {
        var k := t.schema.pk.value;
        assert s.HasCell(r, k);
        forall q | q != r ensures !t.Holds(q, k, t.Cell(r, k)) {
          if t.Live(q) {
            ExtLive(a, b, i, q);
            assert !s.Holds(q, k, s.Cell(r, k));
          }
        }
      }
    }
    forall i, r, c | 0 <= i < |b.tables| && b.tables[i].Live(r) && 0 <= c < |b.tables[i].schema.types|
      ensures RefOk(b, i, r, c) {
      ExtLive(a, b, i, r);
      assert RefOk(a, i, r, c);
      ExtRefOk(a, b, i, r, c);
    }
  }

  lemma ExtLive(a: Db, b: Db, i: nat, r: int)
    requires DeadExt(a, b) && i < |b.tables| && b.tables[i].Live(r)
    ensures i < |a.tables| && a.tables[i].schema == b.tables[i].schema
    ensures a.tables[i].Live(r) && a.tables[i].rows[r] == b.tables[i].rows[r]
  {
    assert i >= |a.tables| ==> NoLiveRow(b.tables[i]);
    assert TableExt(a.tables[i], b.tables[i]);
    var s, t := a.tables[i], b.tables[i];
    assert r < |s.dead|;
    assert s.dead[r] == t.dead[..|s.dead|][r] && s.rows[r] == t.rows[..|s.rows|][r];
  }

  lemma ExtRefOk(a: Db, b: Db, i: nat, r: nat, c: nat)
    requires SchemaOk(a) && b.Valid() && DeadExt(a, b) && i < |a.tables| && a.tables[i].Live(r) && b.tables[i].Live(r)
    requires c < |a.tables[i].schema.types| && RefOk(a, i, r, c)
    ensures b.tables[i].schema == a.tables[i].schema && RefOk(b, i, r, c)
  {
    forall j | 0 <= j < |a.tables| ensures a.tables[j].schema == b.tables[j].schema {
      assert TableExt(a.tables[j], b.tables[j]);
    }
    ExtLive(a, b, i, r);
    var v := a.tables[i].Cell(r, c);
    TargetsBySchema(a, b, a.tables[i].schema, c);
    assert FkResolves(a, i, c);
    var target := FkTarget(a, a.tables[i].schema, c);
    if target.Some? && !v.Null? {
      var s, t, k := a.tables[target.value.table], b.tables[target.value.table], target.value.col;
      assert TableExt(s, t);
      var q :| s.Holds(q, k, v);
      assert t.rows[..|s.rows|][q] == s.rows[q] && t.dead[..|s.dead|][q] == s.dead[q];
      assert t.Holds(q, k, v);
    }
  }

  lemma EmptyCatalogIsSound()
    ensures SchemaOk(Db([], [])) && Integrity(Db([], []))
  {
  }
}
