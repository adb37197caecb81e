/**
 The catalog as a value, the undo log, and what undoing to a savepoint restores.

 Undoing an insert tombstones the row instead of removing it, so the restored state is
 the old one extended by dead rows (and by tables created meanwhile, all rows dead).
 That relation, DeadExt, is what every rollback result below is stated with.
 */
module Catalogs {
  import opened Values
  import opened TableStates

  /** Named tables; a table keeps its position for the life of the session. */
  datatype Db = Db(names: seq<string>, tables: seq<TableState>)
  {
    ghost predicate Valid() {
      && |names| == |tables|
      && forall i :: 0 <= i < |tables| ==> tables[i].Valid()
    }

    function Find(name: string): (r: Option<nat>)
      ensures r.Some? ==> r.value < |names| && names[r.value] == name && name !in names[.. r.value]
      ensures r.None? <==> name !in names
    {
      FindFrom(names, name, 0)
    }

    function With(i: nat, t: TableState): Db {
      if i < |tables| then this.(tables := tables[i := t]) else this
    }

    function Add(name: string, t: TableState): Db {
      Db(names + [name], tables + [t])
    }
  }

  /******* The undo log *******/

  datatype Undo =
    | UndoInsert(table: nat, row: nat)
    | UndoDelete(table: nat, row: nat)
    | UndoUpdate(table: nat, row: nat, col: nat, was: Value)

  function UndoOne(db: Db, e: Undo): Db {
    if e.table >= |db.tables| then db
    else
      var t := db.tables[e.table];
      db.With(e.table, match e
        case UndoInsert(_, r) => t.SetDead(r, true)
        case UndoDelete(_, r) => t.SetDead(r, false)
        case UndoUpdate(_, r, c, v) => t.PutCell(r, c, v))
  }

  /** Undoes every entry from mark on, most recent first. */
  function UndoTo(db: Db, log: seq<Undo>, mark: nat): Db
    decreases |log|
  {
    if |log| <= mark then db
    else UndoTo(UndoOne(db, log[|log| - 1]), log[..|log| - 1], mark)
  }

  lemma UndoToLast(db: Db, log: seq<Undo>, k: nat, mark: nat)
    requires mark < k <= |log|
    ensures UndoTo(db, log[..k], mark) == UndoTo(UndoOne(db, log[k - 1]), log[..k - 1], mark)
  {
    assert log[..k][..k - 1] == log[..k - 1];
  }

  lemma UndoToNothing(db: Db, log: seq<Undo>, mark: nat)
    requires mark <= |log|
    ensures UndoTo(db, log[..mark], mark) == db
  {
  }

  /** The entry names a row and cell that exist, and an old value of the column's kind. */
  ghost predicate EntryFits(db: Db, e: Undo) {
    && e.table < |db.tables|
    && e.row < |db.tables[e.table].rows| == |db.tables[e.table].dead|
    && (e.UndoUpdate? ==> e.col < |db.tables[e.table].schema.types| && e.was.Kind() == db.tables[e.table].schema.types[e.col])
  }

  ghost predicate LogFits(db: Db, log: seq<Undo>) {
    forall k :: 0 <= k < |log| ==> EntryFits(db, log[k])
  }

  lemma UndoOneShape(db: Db, e: Undo)
    requires db.Valid() && EntryFits(db, e)
    ensures UndoOne(db, e).Valid() && SameShape(db, UndoOne(db, e))
  {
  }

  /** Same tables, schemas and row counts. */
  ghost predicate SameShape(a: Db, b: Db) {
    && a.names == b.names && |a.tables| == |b.tables|
    && forall i :: 0 <= i < |a.tables| ==>
         a.tables[i].schema == b.tables[i].schema && |a.tables[i].rows| == |b.tables[i].rows| && |a.tables[i].dead| == |b.tables[i].dead|
  }

  lemma {:induction false} UndoToShape(db: Db, log: seq<Undo>, mark: nat)
    requires db.Valid() && LogFits(db, log)
    ensures UndoTo(db, log, mark).Valid() && SameShape(db, UndoTo(db, log, mark))
    decreases |log|
  {
    if |log| > mark {
      UndoOneShape(db, log[|log| - 1]);
      UndoToShape(UndoOne(db, log[|log| - 1]), log[..|log| - 1], mark);
    }
  }

  /** Undoing to an early mark is undoing to a later one first. */
  lemma {:induction false} UndoToSplit(db: Db, log: seq<Undo>, early: nat, late: nat)
    requires early <= late <= |log|
    ensures UndoTo(db, log, early) == UndoTo(UndoTo(db, log, late), log[..late], early)
    decreases |log|
  {
    if |log| > late {
      UndoToSplit(UndoOne(db, log[|log| - 1]), log[..|log| - 1], early, late);
      assert log[..|log| - 1][..late] == log[..late];
    } else {
      assert log[..late] == log;
    }
  }

  /******* Visible equality up to dead rows *******/

  /** b is a with dead rows added at the end. */
  ghost predicate TableExt(a: TableState, b: TableState) {
    && a.schema == b.schema
    && |a.rows| == |a.dead| <= |b.rows| == |b.dead|
    && a.rows == b.rows[..|a.rows|]
    && a.dead == b.dead[..|a.dead|]
    && forall r :: |a.dead| <= r < |b.dead| ==> b.dead[r]
  }

  ghost predicate NoLiveRow(t: TableState) {
    forall r :: 0 <= r < |t.dead| ==> t.dead[r]
  }

  /** b is a with dead rows added to its tables, and possibly more tables without a live row. */
  ghost predicate DeadExt(a: Db, b: Db) {
    && |a.names| == |a.tables| <= |b.tables| == |b.names|
    && a.names == b.names[..|a.names|]
    && (forall i :: 0 <= i < |a.tables| ==> TableExt(a.tables[i], b.tables[i]))
    && (forall i :: |a.tables| <= i < |b.tables| ==> NoLiveRow(b.tables[i]))
  }

  lemma DeadExtReflexive(a: Db)
    requires a.Valid()
    ensures DeadExt(a, a)
  {
  }

  lemma TableExtTransitive(a: TableState, b: TableState, c: TableState)
    requires TableExt(a, b) && TableExt(b, c)
    ensures TableExt(a, c)
  {
    forall r | |a.dead| <= r < |c.dead| ensures c.dead[r] {
      if r < |b.dead| {
        assert b.dead[r] == c.dead[..|b.dead|][r];
      }
    }
  }

  /** Dead rows are invisible. */
  lemma TableExtIsInvisible(s: TableState, t: TableState)
    requires TableExt(s, t)
    ensures Visible(t) == Visible(s)
  {
    forall r: nat ensures ViewOf(t, r).Present? <==> ViewOf(s, r).Present? {
      if r < |s.rows| {
        assert s.dead[r] == t.dead[..|s.dead|][r];
      }
    }
  }

  lemma DeadExtTransitive(a: Db, b: Db, c: Db)
    requires DeadExt(a, b) && DeadExt(b, c)
    ensures DeadExt(a, c)
  {
    forall i | 0 <= i < |a.tables| ensures TableExt(a.tables[i], c.tables[i]) {
      assert TableExt(a.tables[i], b.tables[i]) && TableExt(b.tables[i], c.tables[i]);
      TableExtTransitive(a.tables[i], b.tables[i], c.tables[i]);
    }
    forall i | |a.tables| <= i < |c.tables| ensures NoLiveRow(c.tables[i]) {
      if i < |b.tables| {
        assert NoLiveRow(b.tables[i]) && TableExt(b.tables[i], c.tables[i]);
        var y, z := b.tables[i], c.tables[i];
        forall r | 0 <= r < |z.dead| ensures z.dead[r] {
          if r < |y.dead| {
            assert y.dead[r] == z.dead[..|y.dead|][r];
          }
        }
      }
    }
  }

  lemma DeadExtIsInvisible(a: Db, b: Db, i: nat)
    requires DeadExt(a, b) && i < |b.tables|
    ensures i < |a.tables| ==> Visible(b.tables[i]) == Visible(a.tables[i])
    ensures i >= |a.tables| ==> Visible(b.tables[i]) == map[]
  {
    var t := b.tables[i];
    if i < |a.tables| {
      assert TableExt(a.tables[i], t);
      TableExtIsInvisible(a.tables[i], t);
    } else {
      assert NoLiveRow(t);
      forall r: nat ensures !t.Live(r) {
      }
    }
  }

  /** Undoing an entry respects the extension by dead rows. */
  lemma UndoOneKeepsExt(a: Db, b: Db, e: Undo)
    requires DeadExt(a, b) && EntryFits(a, e)
    ensures DeadExt(UndoOne(a, e), UndoOne(b, e))
  {
    var i := e.table;
    var a', b' := UndoOne(a, e), UndoOne(b, e);
    assert TableExt(a.tables[i], b.tables[i]);
    UndoneTableExt(a.tables[i], b.tables[i], e);
    forall j | 0 <= j < |a'.tables| ensures TableExt(a'.tables[j], b'.tables[j]) {
      if j != i {
        assert TableExt(a.tables[j], b.tables[j]);
      }
    }
  }

  lemma UndoneTableExt(s: TableState, t: TableState, e: Undo)
    requires TableExt(s, t) && e.row < |s.rows|
    ensures TableExt(s.SetDead(e.row, true), t.SetDead(e.row, true))
    ensures TableExt(s.SetDead(e.row, false), t.SetDead(e.row, false))
    ensures e.UndoUpdate? ==> TableExt(s.PutCell(e.row, e.col, e.was), t.PutCell(e.row, e.col, e.was))
  {
    assert t.rows[e.row] == t.rows[..|s.rows|][e.row];
  }

  lemma {:induction false} UndoToKeepsExt(a: Db, b: Db, log: seq<Undo>, mark: nat)
    requires a.Valid() && DeadExt(a, b) && LogFits(a, log)
    ensures DeadExt(UndoTo(a, log, mark), UndoTo(b, log, mark))
    decreases |log|
  {
    if |log| > mark {
      var e := log[|log| - 1];
      UndoOneShape(a, e);
      UndoOneKeepsExt(a, b, e);
      UndoToKeepsExt(UndoOne(a, e), UndoOne(b, e), log[..|log| - 1], mark);
    }
  }

  /** Entries that fit a state fit every extension of it. */
  lemma LogFitsExt(a: Db, b: Db, log: seq<Undo>)
    requires DeadExt(a, b) && LogFits(a, log)
    ensures LogFits(b, log)
  {
    forall k | 0 <= k < |log| ensures EntryFits(b, log[k]) {
      assert EntryFits(a, log[k]) && TableExt(a.tables[log[k].table], b.tables[log[k].table]);
    }
  }

  /******* One logged change and its undo *******/

  /**
   The savepoint relation: log extends the log of base by entries whose undoing from db
   lands in base, up to dead rows.
   */
  ghost predicate Undoes(base: Db, mark: nat, db: Db, log: seq<Undo>) {
    && db.Valid() && LogFits(db, log) && mark <= |log|
    && DeadExt(base, UndoTo(db, log, mark))
  }

  /** A logged change of one table whose own undo gives back the state before it, up to dead rows. */
  lemma UndoesStep(base: Db, mark: nat, db: Db, log: seq<Undo>, db': Db, e: Undo)
    requires Undoes(base, mark, db, log)
    requires db'.Valid() && EntryFits(db', e) && LogFits(db', log)
    requires DeadExt(db, UndoOne(db', e))
    ensures Undoes(base, mark, db', log + [e])
  {
    assert (log + [e])[..|log|] == log;
    UndoToKeepsExt(db, UndoOne(db', e), log, mark);
    DeadExtTransitive(base, UndoTo(db, log, mark), UndoTo(UndoOne(db', e), log, mark));
  }

  lemma DeleteIsUndone(db: Db, i: nat, r: nat)
    requires db.Valid() && i < |db.tables| && db.tables[i].Live(r)
    ensures var db' := db.With(i, db.tables[i].SetDead(r, true));
      db'.Valid() && EntryFits(db', UndoDelete(i, r)) && UndoOne(db', UndoDelete(i, r)) == db && SameShape(db, db')
  {
    var t := db.tables[i];
    assert t.dead[r := true][r := false] == t.dead;
    var db' := db.With(i, t.SetDead(r, true));
    assert UndoOne(db', UndoDelete(i, r)).tables == db.tables;
  }

  lemma UpdateIsUndone(db: Db, i: nat, r: nat, c: nat, v: Value)
    requires db.Valid() && i < |db.tables| && r < |db.tables[i].rows| && c < |db.tables[i].schema.types|
    requires v.Kind() == db.tables[i].schema.types[c]
    ensures var e := UndoUpdate(i, r, c, db.tables[i].Cell(r, c));
      var db' := db.With(i, db.tables[i].PutCell(r, c, v));
      db'.Valid() && EntryFits(db', e) && UndoOne(db', e) == db && SameShape(db, db')
  {
    var t := db.tables[i];
    var e := UndoUpdate(i, r, c, t.Cell(r, c));
    var t' := t.PutCell(r, c, v);
    assert t.rows[r][c := v][c := t.rows[r][c]] == t.rows[r];
    assert t'.PutCell(r, c, t.Cell(r, c)).rows == t.rows;
    assert UndoOne(db.With(i, t'), e).tables == db.tables;
  }

  /** A table that grew by one row, whatever its cells. */
  ghost predicate GrewByRow(t: TableState, t': TableState) {
    && t'.Valid() && t'.schema == t.schema
    && |t'.rows| == |t.rows| + 1 && t'.rows[..|t.rows|] == t.rows
    && |t'.dead| > |t.dead| && t'.dead[..|t.dead|] == t.dead
  }

  lemma InsertIsUndone(db: Db, i: nat, t': TableState)
    requires db.Valid() && i < |db.tables| && GrewByRow(db.tables[i], t')
    ensures var n := |db.tables[i].rows|;
      var db' := db.With(i, t');
      db'.Valid() && EntryFits(db', UndoInsert(i, n)) && DeadExt(db, UndoOne(db', UndoInsert(i, n)))
  {
    var n := |db.tables[i].rows|;
    var undone := UndoOne(db.With(i, t'), UndoInsert(i, n));
    assert TableExt(db.tables[i], t'.SetDead(n, true));
    forall j | 0 <= j < |db.tables| ensures TableExt(db.tables[j], undone.tables[j]) {
      if j != i {
        assert undone.tables[j] == db.tables[j];
      }
    }
  }

  lemma LogFitsWith(db: Db, i: nat, t': TableState, log: seq<Undo>)
    requires db.Valid() && i < |db.tables| && LogFits(db, log)
    requires t'.Valid() && t'.schema == db.tables[i].schema && |t'.rows| >= |db.tables[i].rows|
    ensures db.With(i, t').Valid() && LogFits(db.With(i, t'), log)
  {
    var db' := db.With(i, t');
    forall k | 0 <= k < |log| ensures EntryFits(db', log[k]) {
      assert EntryFits(db, log[k]);
    }
  }

  /** A failed insert leaves a dead row behind and no log entry. */
  lemma UndoesDeadRow(base: Db, mark: nat, db: Db, log: seq<Undo>, i: nat, t': TableState)
    requires Undoes(base, mark, db, log) && i < |db.tables|
    requires t'.Valid() && TableExt(db.tables[i], t')
    ensures Undoes(base, mark, db.With(i, t'), log)
  {
    var db' := db.With(i, t');
    assert DeadExt(db, db') by {
      forall j | 0 <= j < |db.tables| ensures TableExt(db.tables[j], db'.tables[j]) {
        if j != i {
          assert db'.tables[j] == db.tables[j];
        }
      }
    }
    LogFitsExt(db, db', log);
    UndoToKeepsExt(db, db', log, mark);
    DeadExtTransitive(base, UndoTo(db, log, mark), UndoTo(db', log, mark));
  }

  /** Adding a table commutes with undoing, so the catalog may grow between a savepoint and its rollback. */
  lemma {:induction false} UndoToAdd(db: Db, name: string, t: TableState, log: seq<Undo>, mark: nat)
    requires db.Valid() && LogFits(db, log)
    ensures UndoTo(db.Add(name, t), log, mark) == UndoTo(db, log, mark).Add(name, t)
    ensures LogFits(db.Add(name, t), log)
    decreases |log|
  {
    forall k | 0 <= k < |log| ensures EntryFits(db.Add(name, t), log[k]) {
      assert EntryFits(db, log[k]);
    }
    if |log| > mark {
      var e, rest := log[|log| - 1], log[..|log| - 1];
      UndoOneShape(db, e);
      var undone := UndoOne(db, e);
      assert UndoOne(db.Add(name, t), e) == undone.Add(name, t);
      forall k | 0 <= k < |rest| ensures EntryFits(undone, rest[k]) {
        assert EntryFits(db, log[k]);
      }
      UndoToAdd(undone, name, t, rest, mark);
    }
  }

  lemma UndoesAddEmpty(base: Db, mark: nat, db: Db, log: seq<Undo>, name: string, t: TableState)
    requires Undoes(base, mark, db, log) && t.Valid() && NoLiveRow(t)
    ensures Undoes(base, mark, db.Add(name, t), log)
  {
    UndoToAdd(db, name, t, log, mark);
    var u := UndoTo(db, log, mark);
    UndoToShape(db, log, mark);
    assert u.Add(name, t).names[..|u.names|] == u.names;
    assert DeadExt(u, u.Add(name, t)) by {
      forall i | 0 <= i < |u.tables| ensures TableExt(u.tables[i], u.Add(name, t).tables[i]) {
      }
    }
    DeadExtTransitive(base, u, u.Add(name, t));
  }

  /** Undoing leaves alone every row no undone entry names. */
  lemma {:induction false} UndoToUntouched(db: Db, log: seq<Undo>, mark: nat, i: nat, r: nat)
    requires db.Valid() && LogFits(db, log) && i < |db.tables|
    requires forall k :: mark <= k < |log| ==> !(log[k].table == i && log[k].row == r)
    ensures i < |UndoTo(db, log, mark).tables|
    ensures ViewOf(UndoTo(db, log, mark).tables[i], r) == ViewOf(db.tables[i], r)
    decreases |log|
  {
    if |log| > mark {
      var e := log[|log| - 1];
      UndoOneShape(db, e);
      UndoToUntouched(UndoOne(db, e), log[..|log| - 1], mark, i, r);
    }
  }

  /** What undoing makes of a table does not depend on the others. */
  lemma {:induction false} UndoToElsewhere(db: Db, db': Db, log: seq<Undo>, mark: nat, j: nat)
    requires |db.tables| == |db'.tables| && j < |db.tables| && db'.tables[j] == db.tables[j]
    ensures |UndoTo(db, log, mark).tables| == |UndoTo(db', log, mark).tables| == |db.tables|
    ensures UndoTo(db', log, mark).tables[j] == UndoTo(db, log, mark).tables[j]
    decreases |log|
  {
    if |log| > mark {
      UndoToElsewhere(UndoOne(db, log[|log| - 1]), UndoOne(db', log[|log| - 1]), log[..|log| - 1], mark, j);
    }
  }

  /** Before and after a logged change of state, the wholly undone catalogs agree up to dead rows. */
  lemma UndoesFromStart(base: Db, log: seq<Undo>, db': Db, log': seq<Undo>)
    requires base.Valid() && LogFits(base, log) && Undoes(base, |log|, db', log') && log'[..|log|] == log
    ensures DeadExt(UndoTo(base, log, 0), UndoTo(db', log', 0))
  {
    UndoToSplit(db', log', 0, |log|);
    UndoToKeepsExt(base, UndoTo(db', log', |log|), log, 0);
  }
}
