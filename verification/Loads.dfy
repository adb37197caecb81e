/**
 What .load demands of a file before it installs a table: a header, references to loaded tables, and
 base rows that pass the row checks one after the other, before the log is replayed.
 */
module Loads {
  import opened Values
  import opened TableStates
  import opened Catalogs
  import opened Constraints
  import opened FkGraphs
  import opened Frames

  const MAX_COL_NAME_LEN: int := 64

  predicate HeaderOk(schema: Schema) {
    && (forall c :: 0 <= c < |schema.names| ==> |schema.names[c]| < MAX_COL_NAME_LEN)
    && (forall c, d :: 0 <= c < d < |schema.names| ==> schema.names[c] != schema.names[d])
  }

  /** What check_row_constraints finds wrong with one cell; the table is not in the catalog yet. */
  ghost function LoadedCellViolation(db: Db, t: TableState, row: nat, c: nat): Option<Error>
    requires db.Valid() && t.Valid() && row < |t.rows| && c < |t.schema.types|
  {
    var v := t.Cell(row, c);
    if t.schema.IsPk(c) && v.Null? then Some(NullKey)
    else if t.schema.IsPk(c) && t.HasDuplicate(c, row) then Some(DuplicateKey)
    else
      var target := FkTarget(db, t.schema, c);
      if target.Some? && !v.Null? && !db.tables[target.value.table].HasMatch(target.value.col, v) then Some(ParentMissing)
      else None
  }

  /** The first violation from column c on. */
  ghost function LoadedRowViolation(db: Db, t: TableState, row: nat, c: nat): Option<Error>
    requires db.Valid() && t.Valid() && row < |t.rows| && c <= |t.schema.types|
    decreases |t.schema.types| - c
  {
    if c == |t.schema.types| then None
    else
      var v := LoadedCellViolation(db, t, row, c);
      if v.Some? then v else LoadedRowViolation(db, t, row, c + 1)
  }

  /** A reference is allowed exactly if it names the key, of the same type, of another table there is, from which no chain of references leads back. */
  lemma ReferenceAllowedExactly(db: Db, name: string, schema: Schema, c: nat)
    requires db.Valid() && DistinctNames(db.names) && Acyclic(db) && schema.Valid() && c < |schema.fks| && schema.fks[c].Some?
    requires forall j :: 0 <= j < |db.tables| ==> DistinctNames(db.tables[j].schema.names)
    ensures ReferenceAllowed(db, name, schema, c) <==>
      && schema.fks[c].value.table != name
      && exists j: nat, k: nat :: j < |db.tables| && db.names[j] == schema.fks[c].value.table && !Reaches(db, j, name)
           && NamedKey(db.tables[j].schema, k, schema.fks[c].value.column, schema.types[c])
  {
    var fk := schema.fks[c].value;
    var at := db.Find(fk.table);
    if at.Some? {
      SearchIsExact(db, at.value, name);
      var column := db.tables[at.value].schema.FindColumn(fk.column);
      if column.Some? && ReferenceAllowed(db, name, schema, c) {
        assert NamedKey(db.tables[at.value].schema, column.value, fk.column, schema.types[c]);
      }
      forall j: nat, k: nat | j < |db.tables| && db.names[j] == fk.table && NamedKey(db.tables[j].schema, k, fk.column, schema.types[c])
        ensures at == Some(j) && column == Some(k) {
      }
    }
  }

  predicate NamedKey(s: Schema, k: nat, name: string, kind: FieldType) {
    s.pk == Some(k) && k < |s.names| && k < |s.types| && s.names[k] == name && s.types[k] == kind
  }

  /** Cells of the schema's types. */
  predicate BaseFits(schema: Schema, base: seq<Row>) {
    schema.Valid() && forall k :: 0 <= k < |base| ==> RowFits(schema.types, base[k])
  }

  /** Row after row passes, each checked when it is the last one loaded. */
  ghost predicate BaseAccepted(db: Db, schema: Schema, base: seq<Row>)
    requires db.Valid() && BaseFits(schema, base)
  {
    forall k :: 0 <= k < |base| ==> RowAccepted(db, schema, base, k)
  }

  ghost predicate RowAccepted(db: Db, schema: Schema, base: seq<Row>, k: nat)
    requires db.Valid() && BaseFits(schema, base) && k < |base|
  {
    LoadedRowViolation(db, Loaded(schema, base[..k + 1]), k, 0).None?
  }

  /** The same of all rows at once: keys non-NULL and pairwise unequal, references matched in their parents. */
  ghost predicate GoodBase(db: Db, schema: Schema, base: seq<Row>)
    requires db.Valid() && BaseFits(schema, base)
  {
    && (schema.pk.Some? ==> GoodKeys(base, schema.pk.value))
    && forall k :: 0 <= k < |base| ==> AllMatched(db, schema, base[k])
  }

  predicate GoodKeys(base: seq<Row>, c: nat)
    requires forall k :: 0 <= k < |base| ==> c < |base[k]|
  {
    && (forall k :: 0 <= k < |base| ==> !base[k][c].Null?)
    && forall j, k :: 0 <= j < k < |base| ==> !CellEqual(base[k][c], base[j][c])
  }

  ghost predicate AllMatched(db: Db, schema: Schema, row: Row)
    requires db.Valid() && schema.Valid() && RowFits(schema.types, row)
  {
    forall c :: 0 <= c < |schema.types| ==> Matched(db, schema, row, c)
  }

  ghost predicate Matched(db: Db, schema: Schema, row: Row, c: nat)
    requires db.Valid() && schema.Valid() && c < |schema.types| && RowFits(schema.types, row)
  {
    var target := FkTarget(db, schema, c);
    target.Some? && !row[c].Null? ==> db.tables[target.value.table].HasMatch(target.value.col, row[c])
  }

  /** The key of row k is not NULL and no earlier row has it. */
  predicate NewKey(base: seq<Row>, c: nat, k: nat)
    requires k < |base| && forall j :: 0 <= j < |base| ==> c < |base[j]|
  {
    !base[k][c].Null? && forall j :: 0 <= j < k ==> !CellEqual(base[k][c], base[j][c])
  }

  lemma {:induction false} LoadedRowViolationExactly(db: Db, t: TableState, row: nat, c: nat)
    requires db.Valid() && t.Valid() && row < |t.rows| && c <= |t.schema.types|
    ensures LoadedRowViolation(db, t, row, c).None? <==>
      forall d :: c <= d < |t.schema.types| ==> LoadedCellViolation(db, t, row, d).None?
    decreases |t.schema.types| - c
  {
    hide LoadedCellViolation;
    if c < |t.schema.types| {
      LoadedRowViolationExactly(db, t, row, c + 1);
    }
  }

  /** The last of the first k + 1 base rows. */
  lemma LastRowAccepted(db: Db, schema: Schema, base: seq<Row>, k: nat)
    requires db.Valid() && BaseFits(schema, base) && k < |base|
    ensures RowAccepted(db, schema, base, k) <==>
      (schema.pk.Some? ==> NewKey(base, schema.pk.value, k)) && AllMatched(db, schema, base[k])
  {
    hide Matched, NewKey, LoadedRowViolation, LoadedCellViolation;
    var t := Loaded(schema, base[..k + 1]);
    LoadedRowViolationExactly(db, t, k, 0);
    forall c | 0 <= c < |schema.types|
      ensures LoadedCellViolation(db, t, k, c).None? <==> (schema.IsPk(c) ==> NewKey(base, c, k)) && Matched(db, schema, base[k], c) {
      LastCellAccepted(db, schema, base, k, c);
    }
    if schema.pk.Some? {
      assert schema.IsPk(schema.pk.value);
    }
  }

  lemma LastCellAccepted(db: Db, schema: Schema, base: seq<Row>, k: nat, c: nat)
    requires db.Valid() && BaseFits(schema, base) && k < |base| && c < |schema.types|
    ensures LoadedCellViolation(db, Loaded(schema, base[..k + 1]), k, c).None? <==>
      (schema.IsPk(c) ==> NewKey(base, c, k)) && Matched(db, schema, base[k], c)
  {
    hide FkTarget, TableState.HasMatch;
    var t := Loaded(schema, base[..k + 1]);
    assert t.Cell(k, c) == base[k][c];
    if schema.IsPk(c) && t.HasDuplicate(c, k) {
      var r :| r != k && t.Holds(r, c, t.Cell(k, c));
      assert 0 <= r < k && t.rows[r] == base[r];
    }
    if j :| schema.IsPk(c) && 0 <= j < k && CellEqual(base[k][c], base[j][c]) {
      assert t.Holds(j, c, t.Cell(k, c));
    }
  }

  /** The loop over the rows decides the property of all rows. */
  lemma BaseAcceptedExactly(db: Db, schema: Schema, base: seq<Row>)
    requires db.Valid() && BaseFits(schema, base)
    ensures BaseAccepted(db, schema, base) <==> GoodBase(db, schema, base)
  {
    hide AllMatched, RowAccepted;
    forall k | 0 <= k < |base|
      ensures RowAccepted(db, schema, base, k) <==>
        (schema.pk.Some? ==> NewKey(base, schema.pk.value, k)) && AllMatched(db, schema, base[k]) {
      LastRowAccepted(db, schema, base, k);
    }
    if schema.pk.Some? {
      assert GoodKeys(base, schema.pk.value) <==> forall k :: 0 <= k < |base| ==> NewKey(base, schema.pk.value, k);
    }
  }

  /** Everything .load checks before it looks at the log. */
  ghost predicate Accepts(db: Db, name: string, schema: Schema, base: seq<Row>)
    requires db.Valid()
  {
    && BaseFits(schema, base) && base != []
    && HeaderOk(schema) && ReferencesAllowed(db, name, schema)
    && BaseAccepted(db, schema, base)
  }

  /** Without keys the rows need nothing but a header. */
  lemma AcceptsWithoutKeys(db: Db, name: string, schema: Schema, base: seq<Row>)
    requires db.Valid() && BaseFits(schema, base) && base != [] && HeaderOk(schema)
    requires schema.pk.None? && forall c :: 0 <= c < |schema.fks| ==> schema.fks[c].None?
    ensures Accepts(db, name, schema, base)
  {
    BaseAcceptedExactly(db, schema, base);
  }

  /******* Integrity, table by table *******/

  lemma CellEqualSymmetric(a: Value, b: Value)
    ensures CellEqual(a, b) <==> CellEqual(b, a)
  {
  }

  predicate Occurs(rows: seq<Row>, c: nat, v: Value) {
    exists k :: 0 <= k < |rows| && c < |rows[k]| && CellEqual(v, rows[k][c])
  }

  /** A live match is one among the rows that compaction keeps. */
  lemma MatchAmongLive(t: TableState, c: nat, v: Value)
    requires t.Valid() && c < |t.schema.types|
    ensures t.HasMatch(c, v) <==> Occurs(LiveRows(t.rows, t.dead), c, v)
  {
    LiveRowsAre(t.rows, t.dead, (row: Row) => !(c < |row| && CellEqual(v, row[c])));
    if r :| t.Holds(r, c, v) {
      assert !t.dead[r];
    }
    if r :| 0 <= r < |t.rows| && !t.dead[r] && c < |t.rows[r]| && CellEqual(v, t.rows[r][c]) {
      assert t.Holds(r, c, v);
    }
  }

  /** Keys of live rows, read off the rows that compaction keeps. */
  lemma KeysAmongLive(t: TableState)
    requires t.Valid() && t.schema.pk.Some?
    ensures BaseFits(t.schema, LiveRows(t.rows, t.dead))
    ensures GoodKeys(LiveRows(t.rows, t.dead), t.schema.pk.value) <==> forall r: nat :: t.Live(r) ==> r < |t.rows| && KeyOk(t, r)
  {
    var c, kept := t.schema.pk.value, LiveRows(t.rows, t.dead);
    LiveRowsFit(t.schema.types, t.rows, t.dead);
    LiveRowsAre(t.rows, t.dead, (row: Row) => c < |row| && !row[c].Null?);
    LiveRowsPairwise(t.rows, t.dead, (p: Row, q: Row) => !(c < |p| && c < |q| && CellEqual(q[c], p[c])));
    assert GoodKeys(kept, c) <==>
      && (forall r :: 0 <= r < |t.rows| && !t.dead[r] ==> !t.rows[r][c].Null?)
      && forall q, r :: 0 <= q < r < |t.rows| && !t.dead[q] && !t.dead[r] ==> !CellEqual(t.rows[r][c], t.rows[q][c]);
    KeysPairwise(t);
  }

  lemma KeysPairwise(t: TableState)
    requires t.Valid() && t.schema.pk.Some?
    ensures var c := t.schema.pk.value;
      (forall r: nat :: t.Live(r) ==> r < |t.rows| && KeyOk(t, r)) <==>
        && (forall r :: 0 <= r < |t.rows| && !t.dead[r] ==> !t.rows[r][c].Null?)
        && forall q, r :: 0 <= q < r < |t.rows| && !t.dead[q] && !t.dead[r] ==> !CellEqual(t.rows[r][c], t.rows[q][c])
  {
    var c := t.schema.pk.value;
    if forall r: nat :: t.Live(r) ==> r < |t.rows| && KeyOk(t, r) {
      forall r | 0 <= r < |t.rows| && !t.dead[r] ensures !t.rows[r][c].Null? {
        assert t.Live(r) && KeyOk(t, r);
      }
      forall q, r | 0 <= q < r < |t.rows| && !t.dead[q] && !t.dead[r] ensures !CellEqual(t.rows[r][c], t.rows[q][c]) {
        assert t.Live(r) && KeyOk(t, r) && t.HasCell(r, c);
        assert !t.Holds(q, c, t.Cell(r, c));
      }
    }
    if (forall r :: 0 <= r < |t.rows| && !t.dead[r] ==> !t.rows[r][c].Null?) &&
       (forall q, r :: 0 <= q < r < |t.rows| && !t.dead[q] && !t.dead[r] ==> !CellEqual(t.rows[r][c], t.rows[q][c])) {
      forall r: nat | t.Live(r) ensures r < |t.rows| && KeyOk(t, r) {
        forall s | s != r ensures !t.Holds(s, c, t.Cell(r, c)) {
          if t.Holds(s, c, t.Cell(r, c)) {
            CellEqualSymmetric(t.rows[r][c], t.rows[s][c]);
          }
        }
      }
    }
  }

  lemma ReferencesAmongLive(db: Db, i: nat)
    requires db.Valid() && i < |db.tables|
    ensures BaseFits(db.tables[i].schema, LiveRows(db.tables[i].rows, db.tables[i].dead))
    ensures var t := db.tables[i]; var kept := LiveRows(t.rows, t.dead);
      (forall k :: 0 <= k < |kept| ==> AllMatched(db, t.schema, kept[k])) <==>
        forall r, c :: t.Live(r) && 0 <= c < |t.schema.types| ==> RefOk(db, i, r, c)
  {
    hide FkTarget;
    var t := db.tables[i];
    var kept := LiveRows(t.rows, t.dead);
    LiveRowsFit(t.schema.types, t.rows, t.dead);
    LiveRowsAre(t.rows, t.dead, row => MatchedIfFits(db, t.schema, row));
    forall r, c | t.Live(r) && 0 <= c < |t.schema.types| ensures RefOk(db, i, r, c) <==> Matched(db, t.schema, t.rows[r], c) {
    }
    if forall k :: 0 <= k < |kept| ==> AllMatched(db, t.schema, kept[k]) {
      forall r, c | t.Live(r) && 0 <= c < |t.schema.types| ensures RefOk(db, i, r, c) {
        assert !t.dead[r] && MatchedIfFits(db, t.schema, t.rows[r]);
      }
    }
    if forall r, c :: t.Live(r) && 0 <= c < |t.schema.types| ==> RefOk(db, i, r, c) {
      forall r | 0 <= r < |t.rows| && !t.dead[r] ensures MatchedIfFits(db, t.schema, t.rows[r]) {
        assert t.Live(r);
      }
    }
  }

  ghost predicate MatchedIfFits(db: Db, schema: Schema, row: Row) {
    db.Valid() && schema.Valid() && RowFits(schema.types, row) ==> AllMatched(db, schema, row)
  }

  /** The live rows of table i pass the checks of a load. */
  ghost predicate TableOk(db: Db, i: nat)
    requires db.Valid() && i < |db.tables|
  {
    var t := db.tables[i];
    BaseFits(t.schema, LiveRows(t.rows, t.dead)) && GoodBase(db, t.schema, LiveRows(t.rows, t.dead))
  }

  /** Integrity is that a load of each table's live rows would be accepted. */
  lemma IntegrityTableByTable(db: Db)
    requires db.Valid()
    ensures Integrity(db) <==> forall i :: 0 <= i < |db.tables| ==> TableOk(db, i)
  {
    hide KeyOk, RefOk, AllMatched, GoodKeys;
    forall i | 0 <= i < |db.tables|
      ensures TableOk(db, i) <==>
        && (forall r: nat :: db.tables[i].Live(r) ==> r < |db.tables[i].rows| && KeyOk(db.tables[i], r))
        && forall r, c :: db.tables[i].Live(r) && 0 <= c < |db.tables[i].schema.types| ==> RefOk(db, i, r, c) {
      OneTableOk(db, i);
    }
    if Integrity(db) {
      forall i | 0 <= i < |db.tables| ensures TableOk(db, i) {
      }
    }
  }

  lemma OneTableOk(db: Db, i: nat)
    requires db.Valid() && i < |db.tables|
    ensures TableOk(db, i) <==>
      && (forall r: nat :: db.tables[i].Live(r) ==> r < |db.tables[i].rows| && KeyOk(db.tables[i], r))
      && forall r, c :: db.tables[i].Live(r) && 0 <= c < |db.tables[i].schema.types| ==> RefOk(db, i, r, c)
  {
    hide RefOk, AllMatched, GoodKeys, TableState.HasDuplicate;
    ReferencesAmongLive(db, i);
    if db.tables[i].schema.pk.Some? {
      KeysAmongLive(db.tables[i]);
    }
  }

  /** db' has the tables of db, with the same live rows, and perhaps more behind them. */
  ghost predicate SameLive(db: Db, db': Db) {
    && db.Valid() && db'.Valid() && |db.names| <= |db'.names| && db.names == db'.names[..|db.names|]
    && forall j :: 0 <= j < |db.tables| ==> SameRows(db.tables[j], db'.tables[j])
  }

  ghost predicate SameRows(t: TableState, t': TableState) {
    && |t.rows| == |t.dead| && |t'.rows| == |t'.dead| && t'.schema == t.schema
    && LiveRows(t'.rows, t'.dead) == LiveRows(t.rows, t.dead)
  }

  /** Every reference of the schema points at a table that is there. */
  ghost predicate Resolved(db: Db, schema: Schema)
    requires db.Valid() && schema.Valid()
  {
    forall c :: 0 <= c < |schema.fks| && schema.fks[c].Some? ==> FkTarget(db, schema, c).Some?
  }

  lemma CellMatchedAlike(db: Db, db': Db, schema: Schema, row: Row, c: nat)
    requires SameLive(db, db') && schema.Valid() && RowFits(schema.types, row) && c < |schema.types|
    requires schema.fks[c].Some? ==> FkTarget(db, schema, c).Some?
    ensures Matched(db', schema, row, c) <==> Matched(db, schema, row, c)
  {
    hide FkTarget, LiveRows, TableState.HasMatch;
    TargetsBySchema(db, db', schema, c);
    var target := FkTarget(db, schema, c);
    if target.Some? {
      var j, k := target.value.table, target.value.col;
      assert SameRows(db.tables[j], db'.tables[j]);
      MatchAmongLive(db.tables[j], k, row[c]);
      MatchAmongLive(db'.tables[j], k, row[c]);
    } else {
      NoTarget(db', schema, c);
    }
  }

  lemma MatchedAlike(db: Db, db': Db, schema: Schema, row: Row)
    requires SameLive(db, db') && schema.Valid() && RowFits(schema.types, row) && Resolved(db, schema)
    ensures AllMatched(db', schema, row) <==> AllMatched(db, schema, row)
  {
    hide FkTarget, Matched;
    forall c | 0 <= c < |schema.types| ensures Matched(db', schema, row, c) <==> Matched(db, schema, row, c) {
      CellMatchedAlike(db, db', schema, row, c);
    }
  }

  lemma NoTarget(db: Db, schema: Schema, c: nat)
    requires db.Valid() && c < |schema.fks| && schema.fks[c].None?
    ensures FkTarget(db, schema, c).None?
  {
  }

  lemma GoodAlike(db: Db, db': Db, schema: Schema, rows: seq<Row>)
    requires SameLive(db, db') && BaseFits(schema, rows) && Resolved(db, schema)
    ensures GoodBase(db', schema, rows) <==> GoodBase(db, schema, rows)
  {
    hide AllMatched, GoodKeys, Resolved;
    forall k | 0 <= k < |rows| ensures AllMatched(db', schema, rows[k]) <==> AllMatched(db, schema, rows[k]) {
      MatchedAlike(db, db', schema, rows[k]);
    }
  }

  lemma ResolvedInCatalog(db: Db, i: nat)
    requires SchemaOk(db) && i < |db.tables|
    ensures db.tables[i].schema.Valid() && Resolved(db, db.tables[i].schema)
  {
    forall c | 0 <= c < |db.tables[i].schema.fks| && db.tables[i].schema.fks[c].Some? ensures FkTarget(db, db.tables[i].schema, c).Some? {
      assert FkResolves(db, i, c);
    }
  }

  /** Tables with the same live rows are alike to the checks. */
  lemma TableOkAlike(db: Db, db': Db, i: nat)
    requires SchemaOk(db) && SameLive(db, db') && i < |db.tables|
    ensures TableOk(db', i) <==> TableOk(db, i)
  {
    hide SchemaOk, SameLive, GoodBase, BaseFits, LiveRows;
    var t := db.tables[i];
    AliveAlike(db, db', i);
    ResolvedInCatalog(db, i);
    if BaseFits(t.schema, LiveRows(t.rows, t.dead)) {
      GoodAlike(db, db', t.schema, LiveRows(t.rows, t.dead));
    }
  }

  lemma AliveAlike(db: Db, db': Db, i: nat)
    requires SameLive(db, db') && i < |db.tables|
    ensures db.Valid() && db'.Valid() && i < |db'.tables| && SameRows(db.tables[i], db'.tables[i])
  {
  }

  /** A checkpoint renumbers the live rows of a table and nothing more. */
  lemma CompactionKeepsIntegrity(db: Db, i: nat)
    requires SchemaOk(db) && Integrity(db) && i < |db.tables|
    ensures var db' := db.With(i, Compacted(db.tables[i])); SchemaOk(db') && Integrity(db')
  {
    hide TableOk, Integrity;
    var t := db.tables[i];
    var db' := db.With(i, Compacted(t));
    LiveRowsFit(t.schema.types, t.rows, t.dead);
    LiveRowsTwice(LiveRows(t.rows, t.dead));
    SchemaOkBySchemas(db, db');
    assert SameRows(t, Compacted(t));
    assert db.names == db'.names[..|db.names|];
    assert SameLive(db, db');
    IntegrityTableByTable(db);
    IntegrityTableByTable(db');
    forall j | 0 <= j < |db.tables| ensures TableOk(db', j) {
      assert TableOk(db, j);
      TableOkAlike(db, db', j);
    }
  }

  /** A load checks its base rows only. It keeps integrity exactly if the rows that the log makes of them pass the checks too. */
  lemma LoadKeepsIntegrityExactly(db: Db, name: string, t: TableState)
    requires SchemaOk(db) && Integrity(db) && t.Valid() && name !in db.names && HeaderOk(t.schema) && ReferencesAllowed(db, name, t.schema)
    ensures SchemaOk(db.Add(name, t)) && BaseFits(t.schema, LiveRows(t.rows, t.dead))
    ensures Integrity(db.Add(name, t)) <==> GoodBase(db, t.schema, LiveRows(t.rows, t.dead))
  {
    hide TableOk, Integrity, GoodBase;
    var db', n := db.Add(name, t), |db.tables|;
    LiveRowsFit(t.schema.types, t.rows, t.dead);
    assert db.names == db'.names[..|db.names|];
    assert SameLive(db, db');
    AddedSchemaOk(db, name, t);
    AllowedIsResolved(db, name, t.schema);
    GoodAlike(db, db', t.schema, LiveRows(t.rows, t.dead));
    IntegrityTableByTable(db);
    IntegrityTableByTable(db');
    forall j | 0 <= j < n ensures TableOk(db', j) {
      assert TableOk(db, j);
      TableOkAlike(db, db', j);
    }
    LastTableOk(db', n);
  }

  lemma LastTableOk(db: Db, n: nat)
    requires db.Valid() && |db.tables| == n + 1
    ensures TableOk(db, n) <==>
      BaseFits(db.tables[n].schema, LiveRows(db.tables[n].rows, db.tables[n].dead)) && GoodBase(db, db.tables[n].schema, LiveRows(db.tables[n].rows, db.tables[n].dead))
  {
  }

  lemma AllowedIsResolved(db: Db, name: string, schema: Schema)
    requires db.Valid() && schema.Valid() && ReferencesAllowed(db, name, schema)
    ensures Resolved(db, schema)
  {
    hide ChainReaches;
    forall c | 0 <= c < |schema.fks| && schema.fks[c].Some? ensures FkTarget(db, schema, c).Some? {
      assert ReferenceAllowed(db, name, schema, c);
    }
  }

  lemma AddedSchemaOk(db: Db, name: string, t: TableState)
    requires SchemaOk(db) && t.Valid() && name !in db.names && HeaderOk(t.schema) && ReferencesAllowed(db, name, t.schema)
    ensures SchemaOk(db.Add(name, t))
  {
    hide ChainReaches;
    var db', n := db.Add(name, t), |db.tables|;
    assert db'.names[..n] == db.names;
    forall i, c | 0 <= i <= n && 0 <= c < |db'.tables[i].schema.fks| ensures FkResolves(db', i, c) {
      TargetsBySchema(db, db', db'.tables[i].schema, c);
      if i < n {
        assert FkResolves(db, i, c);
      } else if t.schema.fks[c].Some? {
        assert ReferenceAllowed(db, name, t.schema, c);
      }
    }
  }
}
