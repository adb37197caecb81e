/**
 The engine's mutable state: a catalog of table objects, the undo log of the open
 transaction, and the backing files. Every statement below changes it in place and is
 proved to be the step that Sessions describes.
 */
module Databases {
  import opened Values
  import opened RowIndexes
  import opened TableStates
  import opened Tables
  import opened Expressions
  import opened Catalogs
  import opened Constraints
  import opened Statements
  import opened Dumps
  import opened Frames
  import opened Loads
  import opened Sessions
  import opened Outcomes
  import opened Durability
  import FkGraphs
  import Selects
  import WalBytes
  import WalFiles

  /** An undo entry as stored: the old cell verbatim, a text as its heap reference. */
  datatype UndoEntry =
    | InsertEntry(table: nat, row: nat)
    | DeleteEntry(table: nat, row: nat)
    | UpdateEntry(table: nat, row: nat, col: nat, wasNull: bool, was: Raw)

  /** The fields a statement leaves alone. */
  datatype Held = Held(names: seq<string>, tables: seq<Table>, paths: seq<Option<Path>>, files: map<Path, Disk>, active: bool,
                       partial: map<nat, TableState>, diverged: set<nat>, torn: set<Path>)

  class Database {
    const mix: Mixer
    var names: seq<string>
    var tables: seq<Table>
    var paths: seq<Option<Path>>
    var files: map<Path, Disk>
    var torn: set<Path>
    var active: bool
    var log: seq<UndoEntry>
    ghost var partial: map<nat, TableState>
    ghost var diverged: set<nat>
    ghost var Repr: set<object>

    /******* The abstract state *******/

    static ghost predicate Stored(ts: seq<Table>)
      reads ts
    {
      forall i :: 0 <= i < |ts| ==> ts[i].Stored()
    }

    static ghost function States(ts: seq<Table>): (states: seq<TableState>)
      requires Stored(ts)
      reads ts
      ensures |states| == |ts| && forall i :: 0 <= i < |ts| ==> states[i] == ts[i].State()
    {
      seq(|ts|, i requires 0 <= i < |ts| && Stored(ts) reads ts => ts[i].State())
    }

    ghost predicate AllStored()
      reads this`names, this`tables, tables
    {
      |names| == |tables| && Stored(tables)
    }

    ghost function View(): (db: Db)
      requires AllStored()
      reads this`names, this`tables, tables
      ensures db.Valid() && db.names == names && |db.tables| == |tables|
      ensures forall i :: 0 <= i < |tables| ==> db.tables[i] == tables[i].State()
    {
      Db(names, States(tables))
    }

    static ghost predicate EntryStored(e: UndoEntry, ts: seq<Table>)
      reads ts
    {
      && e.table < |ts|
      && e.row < |ts[e.table].dead|
      && (e.UpdateEntry? ==>
            && e.col < |ts[e.table].schema.types|
            && RawFits(ts[e.table].schema.types[e.col], e.was, |ts[e.table].heap|))
    }

    /** The entry with its text reference resolved. */
    static ghost function AbsEntry(e: UndoEntry, ts: seq<Table>): Undo
      requires EntryStored(e, ts)
      reads ts
    {
      match e
      case InsertEntry(i, r) => UndoInsert(i, r)
      case DeleteEntry(i, r) => UndoDelete(i, r)
      case UpdateEntry(i, r, c, wasNull, raw) =>
        UndoUpdate(i, r, c, if wasNull then Null(ts[i].schema.types[c]) else Resolve(raw, ts[i].heap))
    }

    static ghost predicate EntriesStored(l: seq<UndoEntry>, ts: seq<Table>)
      reads ts
    {
      forall k :: 0 <= k < |l| ==> EntryStored(l[k], ts)
    }

    static ghost function AbsEntries(l: seq<UndoEntry>, ts: seq<Table>): (u: seq<Undo>)
      requires EntriesStored(l, ts)
      reads ts
      ensures |u| == |l| && forall k :: 0 <= k < |l| ==> u[k] == AbsEntry(l[k], ts)
    {
      seq(|l|, k requires 0 <= k < |l| && EntriesStored(l, ts) reads ts => AbsEntry(l[k], ts))
    }

    ghost predicate LogStored()
      reads this`log, this`tables, tables
    {
      EntriesStored(log, tables)
    }

    ghost function AbsLog(): (l: seq<Undo>)
      requires LogStored()
      reads this`log, this`tables, tables
      ensures |l| == |log| && forall k :: 0 <= k < |log| ==> l[k] == AbsEntry(log[k], tables)
    {
      AbsEntries(log, tables)
    }

    ghost function Latched(): set<nat>
      reads this`tables, tables
    {
      set i: nat | i < |tables| && tables[i].failed
    }

    ghost function Abs(): World
      requires AllStored() && LogStored()
      reads this, tables
    {
      World(View(), AbsLog(), active, paths, files, partial, diverged, Latched(), torn)
    }

    /** Tables share nothing, each is valid, and the log fits them. */
    ghost predicate Valid()
      reads this, Repr
      ensures Valid() ==> AllStored() && LogStored()
    {
      && this in Repr
      && |names| == |tables| == |paths|
      && (forall i :: 0 <= i < |tables| ==> tables[i] in Repr && tables[i].pkIndex in Repr)
      && (forall i :: 0 <= i < |tables| ==> tables[i].Repr() <= Repr)
      && (forall i :: 0 <= i < |tables| ==> tables[i].Valid() && tables[i].mix == mix && this !in tables[i].Repr())
      && (forall i, j :: 0 <= i < j < |tables| ==> tables[i].Repr() !! tables[j].Repr())
      && LogStored()
    }

    constructor (mix: Mixer, files: map<Path, Disk>)
      ensures Valid() && fresh(Repr) && Abs() == Fresh(files)
    {
      this.mix := mix;
      this.files := files;
      names, tables, paths, active, log := [], [], [], false, [];
      torn, partial, diverged, Repr := {}, map[], {}, {this};
    }

    /** Only table objects changed, and nothing the log refers to is lost. */
    twostate predicate OnlyTablesChanged()
      reads this, Repr
    {
      && old(Valid()) && Valid() && fresh(Repr - old(Repr)) && SameSession()
      && AbsLog() == old(AbsLog()) && old(Latched()) <= Latched()
    }

    /** The objects are the same and still fit together. */
    twostate predicate Kept()
      reads this, Repr
    {
      old(Valid()) && Valid() && fresh(Repr - old(Repr)) && tables == old(tables)
    }

    twostate predicate SameSession()
      reads this
    {
      Unmoved() == old(Unmoved()) && log == old(log)
    }

    ghost function Unmoved(): Held
      reads this`names, this`tables, this`paths, this`files, this`active, this`partial, this`diverged, this`torn
    {
      Held(names, tables, paths, files, active, partial, diverged, torn)
    }

    /** A change confined to one table's own objects, which only grew its heap and rows. */
    twostate lemma OneTableChanged(i: nat)
      requires old(Valid()) && SameSession() && i < |tables|
      requires forall j :: 0 <= j < |tables| && j != i ==>
        unchanged(tables[j]) && unchanged(tables[j].pkIndex) && unchanged(tables[j].pkIndex.slots)
      requires tables[i].Valid() && fresh(tables[i].Repr() - old(tables[i].Repr())) && Repr == old(Repr) + tables[i].Repr()
      requires old(tables[i].heap) <= tables[i].heap && old(|tables[i].dead|) <= |tables[i].dead|
      requires old(tables[i].failed) ==> tables[i].failed
      ensures OnlyTablesChanged()
      ensures View() == old(View()).With(i, tables[i].State())
      ensures tables[i].State() == old(tables[i].State()) ==> View() == old(View())
    {
      hide Table.Valid, Table.Stored, Table.State;
      forall j | 0 <= j < |tables| ensures tables[j].Valid() && old(tables[j].Valid()) {
      }
      assert AllStored();
      LogSurvives(i);
      assert AbsLog() == old(AbsLog());
      assert View().tables == old(View()).tables[i := tables[i].State()];
    }

    twostate lemma LogSurvives(i: nat)
      requires old(AllStored()) && old(LogStored()) && SameSession() && i < |tables|
      requires forall j :: 0 <= j < |tables| && j != i ==> unchanged(tables[j])
      requires old(tables[i].heap) <= tables[i].heap && old(|tables[i].dead|) <= |tables[i].dead|
      ensures forall k :: 0 <= k < |log| ==> EntryStored(log[k], tables) && AbsEntry(log[k], tables) == old(AbsEntry(log[k], tables))
    {
      forall k | 0 <= k < |log| ensures EntryStored(log[k], tables) && AbsEntry(log[k], tables) == old(AbsEntry(log[k], tables)) {
        var e := log[k];
        assert old(EntryStored(e, tables));
        if e.UpdateEntry? && e.was.RawText? && e.table == i {
          assert tables[i].heap[e.was.offset..e.was.offset + e.was.len] == old(tables[i].heap)[e.was.offset..e.was.offset + e.was.len];
        }
      }
    }

    /** What a call into one table's objects may rely on. */
    lemma Apart(i: nat)
      requires Valid() && i < |tables|
      ensures tables[i].Valid() && tables[i].schema == View().tables[i].schema
      ensures |tables[i].dead| == |View().tables[i].dead| == |View().tables[i].rows|
      ensures forall j :: 0 <= j < |tables| && j != i ==>
        tables[j] != tables[i] && tables[j].pkIndex != tables[i].pkIndex && tables[j].pkIndex.slots != tables[i].pkIndex.slots
      ensures tables[i].Repr() <= Repr && this in Repr && this !in tables[i].Repr()
    {
      forall j | 0 <= j < |tables| && j != i
        ensures tables[j] != tables[i] && tables[j].pkIndex != tables[i].pkIndex && tables[j].pkIndex.slots != tables[i].pkIndex.slots {
        assert if i < j then tables[i].Repr() !! tables[j].Repr() else tables[j].Repr() !! tables[i].Repr();
        assert tables[j] in tables[j].Repr() && tables[j].pkIndex in tables[j].Repr() && tables[j].pkIndex.slots in tables[j].Repr();
      }
    }

    /******* Storage calls through the catalog *******/

    method AppendRow(i: nat) returns (row: Option<nat>)
      requires Valid() && i < |tables|
      modifies tables[i]
      ensures OnlyTablesChanged()
      ensures row.Some? ==> tables[i].failed == old(tables[i].failed)
      ensures row.Some? ==> View() == old(View()).With(i, old(View()).tables[i].AppendNull()) && row.value == |old(View()).tables[i].rows|
      ensures row.None? ==> View() == old(View()) && tables[i].failed
    {
      hide Database.Valid, Table.Valid, Table.Stored, Database.OnlyTablesChanged;
      Apart(i);
      row := tables[i].AppendRow();
      assert Repr == Repr + tables[i].Repr();
      OneTableChanged(i);
    }

    method KillRow(i: nat, r: nat)
      requires Valid() && i < |tables| && r < |tables[i].dead|
      modifies tables[i]
      ensures OnlyTablesChanged() && Latched() == old(Latched())
      ensures View() == old(View()).With(i, old(View()).tables[i].SetDead(r, true))
    {
      hide Database.Valid, Table.Valid, Table.Stored, Database.OnlyTablesChanged;
      Apart(i);
      tables[i].DeleteRow(r);
      assert Repr == Repr + tables[i].Repr();
      OneTableChanged(i);
    }

    method ReviveRow(i: nat, r: nat)
      requires Valid() && i < |tables| && r < |tables[i].dead|
      modifies tables[i]
      ensures OnlyTablesChanged()
      ensures View() == old(View()).With(i, old(View()).tables[i].SetDead(r, false))
    {
      hide Database.Valid, Table.Valid, Table.Stored, Database.OnlyTablesChanged;
      Apart(i);
      tables[i].UndeleteRow(r);
      assert Repr == Repr + tables[i].Repr();
      OneTableChanged(i);
    }

    /** assign_value. A text the heap cannot take leaves the cell as it was and latches the failure. */
    static method AssignCell(t: Table, r: nat, c: nat, v: Value)
      requires t.Valid() && r < |t.dead| && c < |t.schema.types| && Assignable(v, t.schema.types[c])
      modifies t, t.pkIndex, t.pkIndex.slots
      ensures t.Valid() && (t.pkIndex.slots == old(t.pkIndex.slots) || fresh(t.pkIndex.slots))
      ensures old(t.heap) <= t.heap && |t.dead| == old(|t.dead|) && (old(t.failed) ==> t.failed)
      ensures t.State() == AssignOne(old(t.State()), r, c, v) || (t.failed && t.State() == old(t.State()))
      ensures OneMoreAtMost(old(t.pkIndex.Pairs()), t.pkIndex.Pairs(), r, t.schema.IsPk(c))
    {
      hide Table.Valid, Table.Stored;
      if v.Null? {
        t.SetNull(r, c);
      } else {
        match t.schema.types[c] {
          case FtInt => t.SetInt(r, c, v.i);
          case FtDouble => t.SetDouble(r, c, if v.Int? then IntToDouble(v.i) else v.d);
          case FtBool => t.SetBool(r, c, v.b);
          case FtText => t.SetText(r, c, v.s);
        }
      }
    }

    method AssignValue(i: nat, r: nat, c: nat, v: Value)
      requires Valid() && i < |tables| && r < |tables[i].dead| && c < |tables[i].schema.types|
      requires Assignable(v, tables[i].schema.types[c])
      modifies this`Repr, tables[i], tables[i].pkIndex, tables[i].pkIndex.slots
      ensures OnlyTablesChanged() && |tables[i].dead| == old(|tables[i].dead|)
      ensures View() == old(View()).With(i, AssignOne(old(View()).tables[i], r, c, v)) || (tables[i].failed && View() == old(View()))
    {
      hide Database.Valid, Table.Valid, Table.Stored, Database.OnlyTablesChanged;
      Apart(i);
      AssignCell(tables[i], r, c, v);
      Repr := Repr + tables[i].Repr();
      OneTableChanged(i);
    }

    /** The cell of an undo entry, restored verbatim. */
    static method RestoreCell(t: Table, r: nat, c: nat, wasNull: bool, was: Raw)
      requires t.Valid() && r < |t.dead| && c < |t.schema.types| && RawFits(t.schema.types[c], was, |t.heap|)
      modifies t, t.pkIndex, t.pkIndex.slots
      ensures t.Valid() && (t.pkIndex.slots == old(t.pkIndex.slots) || fresh(t.pkIndex.slots))
      ensures t.heap == old(t.heap) && |t.dead| == old(|t.dead|) && (old(t.failed) ==> t.failed)
      ensures t.State() == old(t.State()).PutCell(r, c, if wasNull then Null(t.schema.types[c]) else Resolve(was, t.heap))
    {
      hide Table.Valid, Table.Stored;
      if wasNull {
        t.SetNull(r, c);
      } else {
        match was {
          case RawInt(x) => t.SetInt(r, c, x);
          case RawDouble(x) => t.SetDouble(r, c, x);
          case RawBool(x) => t.SetBool(r, c, x);
          case RawText(o, n) => t.SetTextRef(r, c, o, n);
        }
      }
    }

    /******* The undo log *******/

    method RestoreValue(i: nat, r: nat, c: nat, wasNull: bool, was: Raw)
      requires Valid() && EntryStored(UpdateEntry(i, r, c, wasNull, was), tables)
      modifies this`Repr, tables[i], tables[i].pkIndex, tables[i].pkIndex.slots
      ensures OnlyTablesChanged()
      ensures var w := if wasNull then Null(tables[i].schema.types[c]) else Resolve(was, old(tables[i].heap));
        View() == old(View()).With(i, old(View()).tables[i].PutCell(r, c, w))
    {
      hide Database.Valid, Table.Valid, Table.Stored, Database.OnlyTablesChanged, Resolve;
      Apart(i);
      RestoreCell(tables[i], r, c, wasNull, was);
      Repr := Repr + tables[i].Repr();
      OneTableChanged(i);
    }

    method UndoEntryNow(e: UndoEntry)
      requires Valid() && EntryStored(e, tables)
      modifies this`Repr, tables[e.table], tables[e.table].pkIndex, tables[e.table].pkIndex.slots
      ensures OnlyTablesChanged()
      ensures View() == UndoOne(old(View()), old(AbsEntry(e, tables)))
    {
      hide Database.Valid, Table.Valid, Table.Stored, Database.OnlyTablesChanged;
      match e {
        case InsertEntry(i, r) => KillRow(i, r);
        case DeleteEntry(i, r) => ReviveRow(i, r);
        case UpdateEntry(i, r, c, wasNull, was) => RestoreValue(i, r, c, wasNull, was);
      }
    }

    /** Undoes the entries from mark on, most recent first, and forgets them. */
    method RollbackTo(mark: nat)
      requires Valid() && mark <= |log|
      modifies Repr
      ensures Kept()
      ensures Abs() == old(Abs()).(db := UndoTo(old(View()), old(AbsLog()), mark), log := old(AbsLog())[..mark], latched := Latched())
      ensures old(Latched()) <= Latched() && (mark == old(|log|) ==> Latched() == old(Latched()))
    {
      assert this in Repr;
      hide Database.Valid, Table.Valid, Table.Stored, Database.EntryStored, Database.Latched, UndoTo;
      UndoFrom(mark);
      TruncateLog(mark);
    }

    method UndoFrom(mark: nat)
      requires Valid() && mark <= |log|
      modifies Repr
      ensures OnlyTablesChanged() && View() == UndoTo(old(View()), old(AbsLog()), mark)
      ensures mark == |log| ==> Latched() == old(Latched())
    {
      hide Database.Valid, Table.Valid, Table.Stored, Database.EntryStored, Database.Latched, UndoTo, UndoOne;
      var k := |log|;
      assert AbsLog()[..k] == AbsLog();
      while k > mark
        invariant mark <= k <= |log|
        invariant Valid() && SameSession() && fresh(Repr - old(Repr))
        invariant AbsLog() == old(AbsLog()) && old(Latched()) <= Latched() && (k == |log| ==> Latched() == old(Latched()))
        invariant UndoTo(View(), AbsLog()[..k], mark) == UndoTo(old(View()), old(AbsLog()), mark)
      {
        UndoToLast(View(), AbsLog(), k, mark);
        UndoLogged(k - 1);
        k := k - 1;
      }
      UndoToNothing(View(), AbsLog(), mark);
    }

    method UndoLogged(k: nat)
      requires Valid() && k < |log|
      modifies Repr
      ensures OnlyTablesChanged()
      ensures View() == UndoOne(old(View()), old(AbsLog())[k])
    {
      EntryInRepr(log[k]);
      hide Database.Valid, Table.Valid, Table.Stored, Database.OnlyTablesChanged;
      UndoEntryNow(log[k]);
    }

    lemma EntryInRepr(e: UndoEntry)
      requires Valid() && EntryStored(e, tables)
      ensures e.table < |tables| && tables[e.table].Repr() <= Repr && this in Repr
    {
    }

    method TruncateLog(mark: nat)
      requires Valid() && mark <= |log|
      modifies this`log
      ensures Valid() && Abs() == old(Abs()).(log := old(AbsLog())[..mark])
    {
      hide Table.Valid, Table.Stored, Database.EntryStored, Database.AbsEntry;
      log := log[..mark];
      assert AbsLog() == old(AbsLog())[..mark];
    }

    /******* Logging and checking *******/

    lemma LogFitsNow()
      requires Valid()
      ensures LogFits(View(), AbsLog())
    {
      forall k | 0 <= k < |log| ensures EntryFits(View(), AbsLog()[k]) {
        assert EntryStored(log[k], tables);
      }
    }

    method PushEntry(e: UndoEntry) returns (ok: bool)
      requires Valid() && EntryStored(e, tables)
      modifies this`log
      ensures Valid()
      ensures Abs() == old(Abs()).(log := if ok then old(AbsLog()) + [old(AbsEntry(e, tables))] else old(AbsLog()))
    {
      hide Table.Valid, Table.Stored, Database.EntryStored, Database.AbsEntry;
      ok := *;
      if ok {
        log := log + [e];
        assert AbsLog() == old(AbsLog()) + [old(AbsEntry(e, tables))];
      }
    }

    /** Where a column's foreign key points, found by name. */
    method FindTarget(i: nat, c: nat) returns (target: Option<Target>)
      requires Valid() && i < |tables| && c < |tables[i].schema.types|
      ensures c < |tables[i].schema.fks| && target == FkTarget(View(), tables[i].schema, c)
    {
      Apart(i);
      var fk := tables[i].schema.fks[c];
      if fk.None? {
        return None;
      }
      var j := FindFrom(names, fk.value.table, 0);
      if j.None? {
        return None;
      }
      var k := tables[j.value].schema.FindColumn(fk.value.column);
      return if k.None? then None else Some(Target(j.value, k.value));
    }

    method CheckKey(i: nat, row: nat, c: nat) returns (e: Option<Error>)
      requires Valid() && i < |tables| && row < |tables[i].dead| && tables[i].schema.IsPk(c) && c < |tables[i].schema.types|
      ensures View().tables[i].HasCell(row, c)
      ensures e == if View().tables[i].Cell(row, c).Null? then Some(NullKey)
                   else if View().tables[i].HasDuplicate(c, row) then Some(DuplicateKey) else None
    {
      hide Database.Valid, Table.Valid, Store.Valid, TableState.HasDuplicate;
      Apart(i);
      var v := tables[i].ReadColumn(row, c);
      if v.Null? {
        return Some(NullKey);
      }
      var duplicate := tables[i].ColumnHasDuplicate(c, row);
      return if duplicate then Some(DuplicateKey) else None;
    }

    method CheckReference(i: nat, row: nat, c: nat) returns (e: Option<Error>)
      requires Valid() && i < |tables| && row < |tables[i].dead| && c < |tables[i].schema.types|
      ensures View().tables[i].HasCell(row, c) && c < |tables[i].schema.fks|
      ensures var target := FkTarget(View(), tables[i].schema, c);
        var v := View().tables[i].Cell(row, c);
        e == if target.Some? && !v.Null? && !View().tables[target.value.table].HasMatch(target.value.col, v) then Some(ParentMissing) else None
    {
      hide Database.Valid, Table.Valid, Store.Valid, TableState.HasMatch;
      Apart(i);
      var v := tables[i].ReadColumn(row, c);
      var target := FindTarget(i, c);
      if target.None? || v.Null? {
        return None;
      }
      Apart(target.value.table);
      var found := tables[target.value.table].HasMatchingValue(target.value.col, v);
      return if found then None else Some(ParentMissing);
    }

    method CheckCell(i: nat, row: nat, c: nat) returns (e: Option<Error>)
      requires Valid() && i < |tables| && row < |tables[i].dead| && c < |tables[i].schema.types|
      ensures row < |View().tables[i].rows| && c < |View().tables[i].schema.types|
      ensures e == CellViolation(View(), i, row, c)
    {
      hide Database.Valid, Table.Valid, Store.Valid, TableState.HasMatch, TableState.HasDuplicate, FkTarget;
      Apart(i);
      if tables[i].schema.IsPk(c) {
        e := CheckKey(i, row, c);
        if e.Some? {
          return;
        }
      }
      e := CheckReference(i, row, c);
    }

    method CheckRowConstraints(i: nat, row: nat) returns (e: Option<Error>)
      requires Valid() && i < |tables| && row < |tables[i].dead|
      ensures row < |View().tables[i].rows|
      ensures e == RowViolation(View(), i, row, 0)
    {
      Apart(i);
      var c := 0;
      while c < |tables[i].schema.types|
        invariant c <= |tables[i].schema.types|
        invariant RowViolation(View(), i, row, 0) == RowViolation(View(), i, row, c)
      {
        e := CheckCell(i, row, c);
        if e.Some? {
          return;
        }
        c := c + 1;
      }
      return None;
    }

    lemma NullMatchesNothing(v: Value)
      requires v.Null?
      ensures forall t: TableState, c: nat :: !t.HasMatch(c, v)
    {
    }

    /** Whether a live row of table m refers to the value v of table i's key. */
    method ReferencedFrom(m: nat, i: nat, v: Value) returns (found: bool)
      requires Valid() && i < |tables| && m < |tables| && tables[i].schema.pk.Some? && !v.Null?
      ensures found <==> exists c: nat :: PointsAt(View(), m, c, i) && View().tables[m].HasMatch(c, v)
    {
      hide Database.Valid, Table.Valid, Store.Valid, TableState.HasMatch;
      Apart(i);
      Apart(m);
      var c := 0;
      while c < |tables[m].schema.fks|
        invariant c <= |tables[m].schema.fks|
        invariant forall d: nat :: d < c && PointsAt(View(), m, d, i) ==> !View().tables[m].HasMatch(d, v)
      {
        if tables[m].schema.fks[c] == Some(FkRef(names[i], tables[i].schema.names[tables[i].schema.pk.value])) {
          found := tables[m].HasMatchingValue(c, v);
          if found {
            assert PointsAt(View(), m, c, i);
            return;
          }
        }
        c := c + 1;
      }
      return false;
    }

    lemma PointersAreTables(i: nat)
      requires AllStored() && i < |tables|
      ensures forall m: nat, c: nat :: PointsAt(View(), m, c, i) ==> m < |tables|
    {
    }

    method ReferencedFromAny(i: nat, v: Value) returns (found: bool)
      requires Valid() && i < |tables| && tables[i].schema.pk.Some? && !v.Null?
      ensures found <==> exists m: nat, c: nat :: PointsAt(View(), m, c, i) && View().tables[m].HasMatch(c, v)
    {
      hide Database.Valid, Table.Valid, Table.Stored, TableState.HasMatch, PointsAt;
      Apart(i);
      PointersAreTables(i);
      var m := 0;
      while m < |tables|
        invariant m <= |tables|
        invariant forall p: nat, c: nat :: p < m && PointsAt(View(), p, c, i) ==> !View().tables[p].HasMatch(c, v)
      {
        found := ReferencedFrom(m, i, v);
        if found {
          return;
        }
        m := m + 1;
      }
      return false;
    }

    method CheckPkNotReferenced(i: nat, row: nat) returns (referenced: bool)
      requires Valid() && i < |tables| && row < |tables[i].dead|
      ensures row < |View().tables[i].rows|
      ensures referenced <==> Referenced(View(), i, row)
    {
      hide Database.Valid, Table.Valid, Store.Valid, TableState.HasMatch;
      Apart(i);
      if tables[i].schema.pk.None? {
        return false;
      }
      var v := tables[i].ReadColumn(row, tables[i].schema.pk.value);
      if v.Null? {
        NullMatchesNothing(v);
        return false;
      }
      referenced := ReferencedFromAny(i, v);
    }

    /******* INSERT *******/

    method CheckValues(values: seq<Expr>, cols: seq<nat>, types: seq<FieldType>, env: Env) returns (bad: Option<Error>)
      requires |values| == |cols| && forall k :: 0 <= k < |cols| ==> cols[k] < |types|
      ensures bad == FirstBadValue(values, cols, types, env, 0)
    {
      var k := 0;
      while k < |values|
        invariant k <= |values|
        invariant FirstBadValue(values, cols, types, env, 0) == FirstBadValue(values, cols, types, env, k)
      {
        if HasColumnRef(values[k]) {
          return Some(ColumnInValues);
        }
        var t := Infer(values[k], NoContext(env));
        if t.None? || !Fits(t.value, types[cols[k]]) {
          return Some(TypeMismatch);
        }
        k := k + 1;
      }
      return None;
    }

    method EvaluateAll(es: seq<Expr>, ctx: RowCtx) returns (vs: seq<Value>)
      requires forall k :: 0 <= k < |es| ==> Evaluable(es[k], ctx)
      ensures vs == ValuesOf(es, ctx)
    {
      vs := [];
      var k := 0;
      while k < |es|
        invariant k <= |es| && |vs| == k
        invariant forall j :: 0 <= j < k ==> vs[j] == ValueOf(es[j], ctx)
      {
        vs := vs + [EvalValue(es[k], ctx)];
        k := k + 1;
      }
    }

    /** assign_value for each column of a fresh row; failures are latched, and tested afterwards. */
    static method FillCells(t: Table, row: nat, cols: seq<nat>, vs: seq<Value>)
      requires t.Valid() && row < |t.dead| && |cols| == |vs|
      requires forall k :: 0 <= k < |cols| ==> cols[k] < |t.schema.types| && Assignable(vs[k], t.schema.types[cols[k]])
      modifies t, t.pkIndex, t.pkIndex.slots
      ensures t.Valid() && (t.pkIndex.slots == old(t.pkIndex.slots) || fresh(t.pkIndex.slots))
      ensures old(t.heap) <= t.heap && |t.dead| == old(|t.dead|) && (old(t.failed) ==> t.failed)
      ensures OnlyCells(old(t.State()), t.State(), row)
      ensures !t.failed ==> t.State() == AssignAll(old(t.State()), row, cols, vs)
      ensures DistinctPairs(old(t.pkIndex.Pairs())) && Unnamed(old(t.pkIndex.Pairs()), row) && !Repeats(cols) ==> DistinctPairs(t.pkIndex.Pairs())
    {
      hide Table.Valid, Table.Stored, AssignOne, DistinctPairs, Unnamed, OneMoreAtMost, OnlyCells;
      ghost var start := t.State();
      ghost var once := DistinctPairs(t.pkIndex.Pairs()) && Unnamed(t.pkIndex.Pairs(), row) && !Repeats(cols);
      OnlyCellsNone(start, row);
      var k := 0;
      while k < |cols|
        invariant k <= |cols| && t.Valid() && (t.pkIndex.slots == old(t.pkIndex.slots) || fresh(t.pkIndex.slots))
        invariant old(t.heap) <= t.heap && |t.dead| == old(|t.dead|) && (old(t.failed) ==> t.failed)
        invariant OnlyCells(start, t.State(), row)
        invariant !t.failed ==> t.State() == AssignAll(start, row, cols[..k], vs[..k])
        invariant once ==> DistinctPairs(t.pkIndex.Pairs()) && ((exists m :: 0 <= m < k && t.schema.IsPk(cols[m])) || Unnamed(t.pkIndex.Pairs(), row))
      {
        AssignAllStep(start, row, cols, vs, k);
        AssignOneOnlyCells(start, t.State(), row, cols[k], vs[k]);
        ghost var before := t.pkIndex.Pairs();
        AssignCell(t, row, cols[k], vs[k]);
        if once {
          OnePairPerRow(before, t.pkIndex.Pairs(), row, t.schema.IsPk(cols[k]));
        }
        k := k + 1;
      }
      assert cols[..k] == cols && vs[..k] == vs;
    }

    method FillRow(i: nat, row: nat, cols: seq<nat>, vs: seq<Value>)
      requires Valid() && i < |tables| && row < |tables[i].dead| && |cols| == |vs|
      requires forall k :: 0 <= k < |cols| ==> cols[k] < |tables[i].schema.types| && Assignable(vs[k], tables[i].schema.types[cols[k]])
      modifies this`Repr, tables[i], tables[i].pkIndex, tables[i].pkIndex.slots
      ensures OnlyTablesChanged() && (old(tables[i].failed) ==> tables[i].failed) && |tables[i].dead| == old(|tables[i].dead|)
      ensures View() == old(View()).With(i, View().tables[i]) && OnlyCells(old(View()).tables[i], View().tables[i], row)
      ensures !tables[i].failed ==> View().tables[i] == AssignAll(old(View()).tables[i], row, cols, vs)
      ensures DistinctPairs(old(tables[i].pkIndex.Pairs())) && Unnamed(old(tables[i].pkIndex.Pairs()), row) && !Repeats(cols) ==>
        DistinctPairs(tables[i].pkIndex.Pairs())
    {
      hide Database.Valid, Table.Valid, Table.Stored, Database.OnlyTablesChanged, AssignAll, OnlyCells, DistinctPairs, Unnamed;
      Apart(i);
      FillCells(tables[i], row, cols, vs);
      Repr := Repr + tables[i].Repr();
      OneTableChanged(i);
    }

    twostate lemma TablesMove()
      requires OnlyTablesChanged()
      ensures Kept() && Moved(old(Abs()), Abs()) && AbsLog() == old(AbsLog())
    {
      hide Database.Valid;
    }

    /** Tombstones the row just appended to base; only dead rows are left of it. */
    method AbandonRow(i: nat, row: nat, ghost base: Db)
      requires Valid() && i < |tables| && row < |tables[i].dead|
      requires base.Valid() && |base.tables| == |tables| && row == |base.tables[i].rows|
      requires View() == base.With(i, View().tables[i]) && OnlyCells(base.tables[i].AppendNull(), View().tables[i], row)
      modifies tables[i]
      ensures OnlyTablesChanged() && Latched() == old(Latched()) && LeavesDeadRows(base, i, View())
    {
      KilledRowIsExt(base.tables[i], View().tables[i]);
      hide Database.Valid, Table.Valid, Table.Stored, Database.OnlyTablesChanged, OnlyCells;
      KillRow(i, row);
    }

    /** Writes the values into the row just appended to base. */
    method FillNewRow(i: nat, row: nat, cols: seq<nat>, vs: seq<Value>, ghost base: Db)
      requires Valid() && i < |tables| && |cols| == |vs| && row < |tables[i].dead|
      requires forall k :: 0 <= k < |cols| ==> cols[k] < |tables[i].schema.types| && Assignable(vs[k], tables[i].schema.types[cols[k]])
      requires base.Valid() && |base.tables| == |tables| && row == |base.tables[i].rows|
      requires View() == base.With(i, base.tables[i].AppendNull())
      modifies this`Repr, tables[i], tables[i].pkIndex, tables[i].pkIndex.slots
      ensures OnlyTablesChanged() && row < |tables[i].dead|
      ensures View() == base.With(i, View().tables[i]) && OnlyCells(base.tables[i].AppendNull(), View().tables[i], row)
      ensures !tables[i].failed ==> View() == WithNewRow(base, i, cols, vs)
      ensures DistinctPairs(old(tables[i].pkIndex.Pairs())) && Unnamed(old(tables[i].pkIndex.Pairs()), row) && !Repeats(cols) ==>
        DistinctPairs(tables[i].pkIndex.Pairs())
    {
      hide Database.Valid, Table.Valid, Table.Stored, Database.OnlyTablesChanged, AssignAll, OnlyCells, DistinctPairs, Unnamed;
      FillRow(i, row, cols, vs);
    }

    /** The constraint checks on a finished row, and its undo entry. */
    method CheckAndLogInsert(i: nat, row: nat) returns (e: Option<Error>)
      requires Valid() && i < |tables| && row < |tables[i].dead|
      modifies this`log
      ensures Valid()
      ensures Abs() == old(Abs()).(log := if e.None? then old(AbsLog()) + [UndoInsert(i, row)] else old(AbsLog()))
      ensures row < |View().tables[i].rows|
      ensures e == RowViolation(View(), i, row, 0) || (e == Some(OutOfMemory) && RowViolation(View(), i, row, 0).None?)
    {
      hide Database.Valid, Table.Valid, Table.Stored, RowViolation, Database.Latched;
      e := CheckRowConstraints(i, row);
      if e.None? {
        var ok := PushEntry(InsertEntry(i, row));
        e := if ok then None else Some(OutOfMemory);
      }
    }

    /** Checks and logs a filled row, unless filling it failed; a row that is not kept is tombstoned. */
    method FinishRow(i: nat, row: nat, ghost full: Db, ghost base: Db) returns (e: Option<Error>)
      requires Valid() && i < |tables| && row < |tables[i].dead|
      requires base.Valid() && |base.tables| == |tables| && row == |base.tables[i].rows|
      requires full.Valid() && i < |full.tables| && row < |full.tables[i].rows|
      requires View() == base.With(i, View().tables[i]) && OnlyCells(base.tables[i].AppendNull(), View().tables[i], row)
      requires !tables[i].failed ==> View() == full
      modifies this`log, tables[i]
      ensures Valid() && RowOutcome(base, i, full, old(Abs()), e, Abs())
    {
      hide Database.Valid, Table.Valid, Table.Stored, RowViolation, LeavesDeadRows, OnlyCells;
      if tables[i].failed {
        e := Some(OutOfMemory);
      } else {
        e := CheckAndLogInsert(i, row);
      }
      if e.Some? {
        AbandonRow(i, row, base);
      }
    }

    /** Fills, checks and logs the row just appended to base, or tombstones it again. */
    method CompleteRow(i: nat, row: nat, cols: seq<nat>, vs: seq<Value>, ghost base: Db) returns (e: Option<Error>)
      requires Valid() && i < |tables| && |cols| == |vs| && row < |tables[i].dead|
      requires forall k :: 0 <= k < |cols| ==> cols[k] < |tables[i].schema.types| && Assignable(vs[k], tables[i].schema.types[cols[k]])
      requires base.Valid() && |base.tables| == |tables| && row == |base.tables[i].rows|
      requires View() == base.With(i, base.tables[i].AppendNull())
      modifies Repr
      ensures Kept() && RowOutcome(base, i, WithNewRow(base, i, cols, vs), old(Abs()), e, Abs())
      ensures DistinctPairs(old(tables[i].pkIndex.Pairs())) && Unnamed(old(tables[i].pkIndex.Pairs()), row) && !Repeats(cols) ==>
        DistinctPairs(tables[i].pkIndex.Pairs())
    {
      hide DistinctPairs, Unnamed, Repeats, Database.Valid, Table.Valid, Table.Stored, Database.OnlyTablesChanged, Database.View, WithNewRow, RowOutcome, OnlyCells, TableState.AppendNull, Moved;
      Apart(i);
      ghost var w := Abs();
      FillNewRow(i, row, cols, vs, base);
      TablesMove();
      ghost var mid := Abs();
      e := FinishRow(i, row, WithNewRow(base, i, cols, vs), base);
      RowOutcomeFrom(base, i, WithNewRow(base, i, cols, vs), w, mid, e, Abs());
      return;
    }

    /** Values that passed their checks, evaluated and fit to be assigned. */
    method EvaluateValues(cols: seq<nat>, values: seq<Expr>, types: seq<FieldType>, env: Env) returns (vs: seq<Value>)
      requires |values| == |cols| && FirstBadValue(values, cols, types, env, 0).None?
      ensures vs == ValuesOf(values, NoContext(env))
      ensures forall k :: 0 <= k < |cols| ==> cols[k] < |types| && Assignable(vs[k], types[cols[k]])
    {
      forall k | 0 <= k < |cols| ensures !HasColumnRef(values[k]) && cols[k] < |types| && ExprFits(values[k], NoContext(env), types[cols[k]]) {
        GoodValues(values, cols, types, env, 0, k);
      }
      vs := EvaluateAll(values, NoContext(env));
      forall k | 0 <= k < |cols| ensures Assignable(vs[k], types[cols[k]]) {
        FittingValueIsAssignable(values[k], NoContext(env), types[cols[k]]);
      }
    }

    method AppendNow(i: nat) returns (row: Option<nat>)
      requires Valid() && i < |tables|
      modifies tables[i]
      ensures Kept() && (tables[i].failed <==> i in Abs().latched) && (row.None? ==> tables[i].failed)
      ensures row.Some? ==> row.value + 1 == |tables[i].dead| && row.value == |old(View()).tables[i].rows|
      ensures Abs() == if row.Some? then old(Abs()).(db := old(View()).With(i, old(View()).tables[i].AppendNull()))
                       else old(Abs()).(latched := old(Latched()) + {i})
    {
      hide Database.Valid, Table.Valid, Table.Stored;
      Apart(i);
      row := AppendRow(i);
      assert Latched() == if row.Some? then old(Latched()) else old(Latched()) + {i};
    }

    /** Appends a row and settles it. The values have passed their checks. */
    method AppendChecked(i: nat, cols: seq<nat>, values: seq<Expr>, env: Env) returns (e: Option<Error>)
      requires Valid() && i < |tables| && |values| == |cols|
      requires FirstBadValue(values, cols, tables[i].schema.types, env, 0).None?
      modifies Repr
      ensures Kept() && InsertOutcome(old(Abs()), i, cols, values, env, e, Abs())
      ensures DistinctPairs(old(tables[i].pkIndex.Pairs())) && !Repeats(cols) ==> DistinctPairs(tables[i].pkIndex.Pairs())
    {
      hide Database.Valid, Table.Valid, Table.Stored, Database.View, Database.Latched, DistinctPairs, Unnamed, Repeats,
           WithNewRow, RowOutcome, InsertOutcome, InsertRow, FirstBadValue, ValuesOf, TableState.AppendNull, Database.AbsLog, Evaluable, Assignable, Infer, EvalValue;
      Apart(i);
      tables[i].NextRowUnnamed();
      ghost var w := Abs();
      var row := AppendNow(i);
      ghost var mid := Abs();
      if row.None? || tables[i].failed {
        NothingInserted(w, i, cols, values, env, OutOfMemory, mid);
        return Some(OutOfMemory);
      }
      var vs := EvaluateValues(cols, values, tables[i].schema.types, env);
      e := CompleteRow(i, row.value, cols, vs, w.db);
      SettledRowIsInsert(w, i, cols, values, env, mid, e, Abs());
      return;
    }

    method InsertOne(i: nat, cols: seq<nat>, values: seq<Expr>, env: Env) returns (e: Option<Error>)
      requires Valid() && i < |tables| && forall k :: 0 <= k < |cols| ==> cols[k] < |tables[i].schema.types|
      modifies Repr
      ensures Kept() && InsertOutcome(old(Abs()), i, cols, values, env, e, Abs())
      ensures DistinctPairs(old(tables[i].pkIndex.Pairs())) && !Repeats(cols) ==> DistinctPairs(tables[i].pkIndex.Pairs())
    {
      hide Database.Valid, Table.Valid, Table.Stored, Database.View, InsertOutcome, FirstBadValue, DistinctPairs, Repeats;
      Apart(i);
      ghost var w := Abs();
      if |values| != |cols| {
        NothingInserted(w, i, cols, values, env, WrongValueCount, w);
        return Some(WrongValueCount);
      }
      e := CheckValues(values, cols, tables[i].schema.types, env);
      if e.Some? {
        NothingInserted(w, i, cols, values, env, e.value, w);
        return;
      }
      e := AppendChecked(i, cols, values, env);
      return;
    }

    /** INSERT after its column list is resolved: row by row, and back to the savepoint at the first failure. */
    method InsertInto(i: nat, cols: seq<nat>, rows: seq<seq<Expr>>, env: Env) returns (e: Option<Error>)
      requires Valid() && i < |tables| && forall k :: 0 <= k < |cols| ==> cols[k] < |tables[i].schema.types|
      modifies Repr
      ensures Kept() && InsertDone(old(Abs()), i, cols, rows, env, e, Abs())
      ensures e.None? && DistinctPairs(old(tables[i].pkIndex.Pairs())) && !Repeats(cols) ==> DistinctPairs(tables[i].pkIndex.Pairs())
    {
      hide Database.Valid, Table.Valid, Table.Stored, Database.View, Database.AbsLog, Database.Latched, InsertOutcome, Inserting, InsertDone,
           DistinctPairs, Repeats;
      LogFitsNow();
      ghost var w := Abs();
      InsertStarts(w, i, cols, rows, env);
      var mark := |log|;
      var r := 0;
      while r < |rows|
        invariant r <= |rows| && Kept() && Inserting(w, i, cols, rows, env, r, Abs())
        invariant DistinctPairs(old(tables[i].pkIndex.Pairs())) && !Repeats(cols) ==> DistinctPairs(tables[i].pkIndex.Pairs())
      {
        ghost var v := Abs();
        e := InsertOne(i, cols, rows[r], env);
        ghost var v' := Abs();
        if e.Some? {
          InsertKeepsMark(w, i, cols, rows, env, r, v, e, v');
          assert Kept();
          RollbackTo(mark);
          assert Kept();
          InsertUnwound(w, i, cols, rows, env, r, v, e.value, v', Abs());
          return;
        }
        InsertAdvances(w, i, cols, rows, env, r, v, v');
        r := r + 1;
      }
      InsertSucceeds(w, i, cols, rows, env, Abs());
      return None;
    }

    /******* UPDATE *******/

    /** The evaluation context of a row. */
    function Context(i: nat, r: nat, env: Env): (ctx: RowCtx)
      requires AllStored() && i < |tables|
      reads this`names, this`tables, tables
      ensures ctx == RowContext(View(), i, r, env) && ctx.Valid()
    {
      RowCtx([RowSource(names[i], tables[i].State(), r)], env.params, env.fpu)
    }

    /** txn_log_update: the cell as it is now. */
    method LogCell(i: nat, row: nat, c: nat) returns (ok: bool)
      requires Valid() && i < |tables| && row < |tables[i].dead| && c < |tables[i].schema.types|
      modifies this`log
      ensures Valid() && View().tables[i].HasCell(row, c)
      ensures Abs() == old(Abs()).(log := if ok then old(AbsLog()) + [UndoUpdate(i, row, c, View().tables[i].Cell(row, c))] else old(AbsLog()))
    {
      hide Table.Valid;
      var t := tables[i];
      assert t.Stored();
      assert View().tables[i].rows[row][c] == t.Contents().Cell(row, c);
      var entry := UpdateEntry(i, row, c, t.colNull[c][row], t.columns[c][row]);
      assert EntryStored(entry, tables) && AbsEntry(entry, tables) == UndoUpdate(i, row, c, View().tables[i].Cell(row, c));
      ok := PushEntry(entry);
    }

    /** Logs the cell, then writes it. */
    method ChangeCell(i: nat, row: nat, c: nat, v: Value) returns (ok: bool)
      requires Valid() && i < |tables| && row < |tables[i].dead| && c < |tables[i].schema.types|
      requires Assignable(v, tables[i].schema.types[c])
      modifies Repr
      ensures Kept() && |tables[i].dead| == old(|tables[i].dead|) && old(View()).tables[i].HasCell(row, c)
      ensures if ok then CellChanged(old(Abs()), i, row, c, v, Abs()) else Abs() == old(Abs())
    {
      hide Database.Valid, Table.Valid, Table.Stored, Database.OnlyTablesChanged, Database.View, AssignOne;
      Apart(i);
      ok := LogCell(i, row, c);
      assert Kept();
      if ok {
        label logged:
        AssignValue(i, row, c, v);
        TablesMove@logged();
        assert Kept();
      }
      return;
    }

    /** The assignments of one row, in order. */
    method ChangeCells(i: nat, row: nat, cols: seq<nat>, vs: seq<Value>) returns (ok: bool)
      requires Valid() && i < |tables| && row < |tables[i].dead| && |cols| == |vs|
      requires forall k :: 0 <= k < |cols| ==> cols[k] < |tables[i].schema.types| && Assignable(vs[k], tables[i].schema.types[cols[k]])
      modifies Repr
      ensures Kept() && |tables[i].dead| == old(|tables[i].dead|)
      ensures if ok then Assigning(old(Abs()), i, row, cols, vs, |cols|, Abs()) else Progress(old(Abs()), Abs())
    {
      hide Database.Valid, Table.Valid, Table.Stored, Database.View, Database.AbsLog, Database.Latched, Assigning, CellChanged;
      Apart(i);
      LogFitsNow();
      ghost var w := Abs();
      AssigningStarts(w, i, row, cols, vs);
      var k := 0;
      while k < |cols|
        invariant k <= |cols| && Kept() && |tables[i].dead| == old(|tables[i].dead|)
        invariant Assigning(w, i, row, cols, vs, k, Abs())
      {
        ghost var v := Abs();
        ok := ChangeCell(i, row, cols[k], vs[k]);
        assert Kept();
        if !ok {
          AssigningProgress(w, i, row, cols, vs, k, v);
          return;
        }
        AssigningAdvances(w, i, row, cols, vs, k, v, Abs());
        k := k + 1;
      }
      return true;
    }

    /** Whether the cursor stops at the row and the WHERE clause is TRUE there. */
    method RowMatches(i: nat, where: Option<Expr>, env: Env, r: nat) returns (hit: bool)
      requires Valid() && i < |tables| && r < |tables[i].dead| && WhereOk(where, RowContext(View(), i, r, env))
      ensures hit <==> View().tables[i].Live(r) && Matches(where, RowContext(View(), i, r, env))
    {
      hide Database.Valid, Table.Valid;
      Apart(i);
      if tables[i].dead[r] {
        return false;
      }
      if where.None? {
        return true;
      }
      var tri := EvalTri(where.value, Context(i, r, env));
      return tri.True?;
    }

    /** The matching row of an UPDATE: evaluated as it was, changed, then checked. */
    method ChangeRow(i: nat, cols: seq<nat>, es: seq<Expr>, where: Option<Expr>, env: Env, r: nat) returns (e: Option<Error>)
      requires Valid() && i < |tables| && r < |tables[i].dead| && UpdateChecked(View(), i, cols, es, where, env, r)
      requires View().tables[i].Live(r) && Matches(where, RowContext(View(), i, r, env)) && r < |View().tables[i].rows|
      requires !(AssignsKey(View().tables[i].schema, cols) && Referenced(View(), i, r))
      modifies Repr
      ensures Kept() && |tables[i].dead| == old(|tables[i].dead|)
      ensures Performed(old(Abs()), UpdateRow(old(View()), i, cols, es, where, env, r), e, if e.None? then 1 else 0, Abs())
    {
      hide Database.Valid, Table.Valid, Table.Stored, Database.View, Database.AbsLog, Database.Latched, Performed, UpdateRow, Matches, Referenced, UpdateChecked, AssignsKey, RowContext, Assigning, Evaluable, RowViolation;
      Apart(i);
      ghost var w := Abs();
      UpdateCheckedHere(w.db, i, cols, es, where, env, r);
      var vs := EvaluateAll(es, Context(i, r, env));
      var ok := ChangeCells(i, r, cols, vs);
      assert Kept();
      if !ok {
        e := Some(OutOfMemory);
        PerformedOutOfMemory(w, UpdateRow(w.db, i, cols, es, where, env, r), Abs());
        return;
      }
      e := CheckChanged(i, r);
      RowUpdated(w, i, cols, es, where, env, r, Abs(), e);
      return;
    }

    /** The row checks, or the allocation failure that makes them pointless. */
    method CheckChanged(i: nat, r: nat) returns (e: Option<Error>)
      requires Valid() && i < |tables| && r < |tables[i].dead|
      ensures r < |View().tables[i].rows|
      ensures e == Some(OutOfMemory) || (i !in Latched() && e == RowViolation(View(), i, r, 0))
    {
      hide Database.Valid, Table.Valid, Table.Stored, RowViolation;
      Apart(i);
      if tables[i].failed {
        return Some(OutOfMemory);
      }
      e := CheckRowConstraints(i, r);
    }

    /** One row of an UPDATE; hit says whether it matched. */
    method UpdateOne(i: nat, cols: seq<nat>, es: seq<Expr>, where: Option<Expr>, env: Env, r: nat) returns (e: Option<Error>, hit: bool)
      requires Valid() && i < |tables| && r < |tables[i].dead| && UpdateChecked(View(), i, cols, es, where, env, r)
      modifies Repr
      ensures Kept() && |tables[i].dead| == old(|tables[i].dead|)
      ensures r < |old(View()).tables[i].rows|
      ensures Performed(old(Abs()), UpdateRow(old(View()), i, cols, es, where, env, r), e, if e.None? && hit then 1 else 0, Abs())
    {
      hide Database.Valid, Table.Valid, Table.Stored, Database.AbsLog, Database.Latched, Performed, UpdateRow, Matches, Referenced, UpdateChecked;
      Apart(i);
      LogFitsNow();
      ghost var w := Abs();
      UpdateCheckedHere(w.db, i, cols, es, where, env, r);
      RowNotUpdated(w, i, cols, es, where, env, r);
      hit := RowMatches(i, where, env, r);
      if !hit {
        return None, false;
      }
      if AssignsKey(tables[i].schema, cols) {
        var referenced := CheckPkNotReferenced(i, r);
        if referenced {
          return Some(StillReferenced), true;
        }
      }
      e := ChangeRow(i, cols, es, where, env, r);
      return;
    }

    /** UPDATE after its checks: row by row, and back to the savepoint at the first failure. */
    method UpdateTable(i: nat, cols: seq<nat>, es: seq<Expr>, where: Option<Expr>, env: Env) returns (e: Option<Error>, n: nat)
      requires Valid() && i < |tables| && UpdateChecked(View(), i, cols, es, where, env, 0)
      modifies Repr
      ensures Kept()
      ensures Performed(old(Abs()), UpdateRows(old(View()), i, cols, es, where, env, |old(View()).tables[i].rows|), e, n, Abs())
      ensures e.Some? ==> n == 0 && AbsLog() == old(AbsLog())
    {
      hide Database.Valid, Table.Valid, Table.Stored, Database.View, Database.AbsLog, Database.Latched, UpdateRow, UpdateChecked, Performed, Updating, UpdateRows;
      Apart(i);
      LogFitsNow();
      ghost var w := Abs();
      UpdateStarts(w, i, cols, es, where, env);
      var mark, r := |log|, 0;
      n := 0;
      while r < |tables[i].dead|
        invariant Kept() && r <= |tables[i].dead| == old(|tables[i].dead|)
        invariant Updating(w, i, cols, es, where, env, r, n, Abs())
      {
        ghost var v := Abs();
        UpdatingChecked(w, i, cols, es, where, env, r, n, v);
        var hit: bool;
        e, hit := UpdateOne(i, cols, es, where, env, r);
        assert Kept();
        if e.Some? {
          UpdateFails(w, i, cols, es, where, env, r, n, v, e.value, Abs());
          n := UndoFailed(w, UpdateRows(w.db, i, cols, es, where, env, |w.db.tables[i].rows|), mark, e.value);
          assert Kept();
          return;
        }
        var changed := if hit then 1 else 0;
        UpdateAdvances(w, i, cols, es, where, env, r, n, v, changed, Abs());
        r, n := r + 1, n + changed;
      }
      UpdateEnds(w, i, cols, es, where, env, n, Abs());
      return None, n;
    }

    /** txn_rollback_to at the end of a failed statement. */
    method UndoFailed(ghost w: World, ghost spec: Result<Effect, Error>, mark: nat, ghost e: Error) returns (n: nat)
      requires Valid() && w.db.Valid() && LogFits(w.db, w.log) && mark == |w.log|
      requires Performed(w, spec, Some(e), 0, Abs())
      modifies Repr
      ensures Kept() && n == 0 && Performed(w, spec, Some(e), 0, Abs()) && Abs().log == w.log
    {
      hide Database.Valid, Table.Valid, Table.Stored, Database.View, Database.AbsLog, Database.Latched, Performed;
      ghost var v := Abs();
      PerformedKeepsMark(w, spec, Some(e), 0, v);
      RollbackTo(mark);
      FailureUnwound(w, spec, e, v, Abs());
      n := 0;
    }

    /******* DELETE *******/

    method DeleteOne(i: nat, where: Option<Expr>, env: Env, r: nat) returns (e: Option<Error>, hit: bool)
      requires Valid() && i < |tables| && r < |tables[i].dead| && WhereOk(where, RowContext(View(), i, r, env))
      modifies Repr
      ensures Kept() && |tables[i].dead| == old(|tables[i].dead|) && r < |old(View()).tables[i].rows|
      ensures Performed(old(Abs()), DeleteRow(old(View()), i, where, env, r), e, if e.None? && hit then 1 else 0, Abs())
    {
      hide Database.Valid, Table.Valid, Table.Stored, Database.Latched, Database.View, Database.AbsLog, Performed, DeleteRow, Matches, Referenced, WhereOk, RowContext;
      Apart(i);
      LogFitsNow();
      ghost var w := Abs();
      RowNotDeleted(w, i, where, env, r);
      hit := RowMatches(i, where, env, r);
      if !hit {
        return None, false;
      }
      var referenced := CheckPkNotReferenced(i, r);
      if referenced {
        return Some(StillReferenced), true;
      }
      var ok := PushEntry(DeleteEntry(i, r));
      assert Kept();
      if !ok {
        return Some(OutOfMemory), true;
      }
      KillRow(i, r);
      assert Kept();
      RowDeleted(w, i, where, env, r, Abs());
      return None, true;
    }

    method DeleteFrom(i: nat, where: Option<Expr>, env: Env) returns (e: Option<Error>, n: nat)
      requires Valid() && i < |tables| && WhereOk(where, RowContext(View(), i, 0, env))
      modifies Repr
      ensures Kept()
      ensures Performed(old(Abs()), DeleteRows(old(View()), i, where, env, |old(View()).tables[i].rows|), e, n, Abs())
      ensures e.Some? ==> n == 0 && AbsLog() == old(AbsLog())
    {
      hide Database.Valid, Table.Valid, Table.Stored, Database.View, Database.AbsLog, Database.Latched, DeleteRow, Performed, Deleting, DeleteRows, WhereOk, RowContext;
      Apart(i);
      LogFitsNow();
      ghost var w := Abs();
      DeleteStarts(w, i, where, env);
      var mark, r := |log|, 0;
      n := 0;
      while r < |tables[i].dead|
        invariant Kept() && r <= |tables[i].dead| == old(|tables[i].dead|)
        invariant Deleting(w, i, where, env, r, n, Abs())
      {
        ghost var v := Abs();
        DeletingChecked(w, i, where, env, r, n, v);
        var hit: bool;
        e, hit := DeleteOne(i, where, env, r);
        assert Kept();
        if e.Some? {
          DeleteFails(w, i, where, env, r, n, v, e.value, Abs());
          n := UndoFailed(w, DeleteRows(w.db, i, where, env, |w.db.tables[i].rows|), mark, e.value);
          assert Kept();
          return;
        }
        var changed := if hit then 1 else 0;
        DeleteAdvances(w, i, where, env, r, n, v, changed, Abs());
        r, n := r + 1, n + changed;
      }
      DeleteEnds(w, i, where, env, n, Abs());
      return None, n;
    }

    /******* Statements *******/

    method ResolveSet(i: nat, assignments: seq<Assignment>, env: Env) returns (r: Result<seq<nat>, Error>)
      requires Valid() && i < |tables|
      ensures View().tables[i].schema.Valid()
      ensures r == ResolveAssignments(View().tables[i].schema, RowContext(View(), i, 0, env), assignments)
    {
      hide Database.Valid, Table.Valid, Table.Stored, RowContext, Infer;
      Apart(i);
      var schema, ctx := tables[i].schema, Context(i, 0, env);
      var cols, k := [], 0;
      while k < |assignments|
        invariant k <= |assignments|
        invariant ResolveAssignments(schema, ctx, assignments[..k]) == Ok(cols)
      {
        assert assignments[..k + 1][..k] == assignments[..k];
        var c := schema.FindColumn(assignments[k].column);
        if c.None? {
          ResolveErrorSticks(schema, ctx, assignments, k + 1);
          return Err(NoSuchColumn);
        }
        var t := Infer(assignments[k].value, ctx);
        if t.None? || !Fits(t.value, schema.types[c.value]) {
          ResolveErrorSticks(schema, ctx, assignments, k + 1);
          return Err(TypeMismatch);
        }
        cols, k := cols + [c.value], k + 1;
      }
      assert assignments[..k] == assignments;
      return Ok(cols);
    }

    method CheckWhere(i: nat, where: Option<Expr>, env: Env) returns (ok: bool)
      requires Valid() && i < |tables|
      ensures ok <==> WhereOk(where, RowContext(View(), i, 0, env))
    {
      hide Database.Valid, Table.Valid, Table.Stored, RowContext, Infer;
      if where.None? {
        return true;
      }
      var t := Infer(where.value, Context(i, 0, env));
      return t.Some? && t.value.Logical();
    }

    method PerformInsert(i: nat, s: Dml, env: Env) returns (reply: Reply)
      requires Valid() && s.Insert? && FindFrom(names, s.table, 0) == Some(i)
      modifies Repr
      ensures Kept() && QueryStep(old(Abs()), s, env, Abs(), reply)
    {
      hide Database.Valid, Table.Valid, Table.Stored, Database.View, Database.AbsLog, Database.Latched, QueryStep, InsertDone, InsertColumns, InsertRows;
      Apart(i);
      LogFitsNow();
      ghost var w := Abs();
      var cols := InsertColumns(tables[i].schema, s.columns);
      if cols.Err? {
        RefusalIsStep(w, s, env, cols.error);
        return Rejected(cols.error);
      }
      var e := InsertInto(i, cols.value, s.rows, env);
      assert Kept();
      InsertIsStep(w, s, env, i, cols.value, e, Abs());
      NoteDiverged(if LeavesRow(w, s, i, Abs()) then {i} else {}, {});
      assert Kept();
      return ReplyOf(e, |s.rows|);
    }

    method PerformUpdate(i: nat, s: Dml, env: Env) returns (reply: Reply)
      requires Valid() && s.Update? && FindFrom(names, s.table, 0) == Some(i)
      modifies Repr
      ensures Kept() && QueryStep(old(Abs()), s, env, Abs(), reply)
    {
      hide Database.Valid, Table.Valid, Table.Stored, Database.View, Database.AbsLog, Database.Latched, QueryStep, Performed, ResolveAssignments, UpdateChecked, UpdateRows, WhereOk, RowContext;
      Apart(i);
      LogFitsNow();
      ghost var w := Abs();
      var cols := ResolveSet(i, s.assignments, env);
      if cols.Err? {
        RefusalIsStep(w, s, env, cols.error);
        return Rejected(cols.error);
      }
      var ok := CheckWhere(i, s.where, env);
      if !ok {
        RefusalIsStep(w, s, env, NotAPredicate);
        return Rejected(NotAPredicate);
      }
      UpdateIsChecked(w.db, i, s.assignments, cols.value, s.where, env);
      var e, n := UpdateTable(i, cols.value, Exprs(s.assignments), s.where, env);
      assert Kept();
      UpdateIsStep(w, s, env, i, cols.value, e, n, Abs());
      return ReplyOf(e, n);
    }

    method PerformDelete(i: nat, s: Dml, env: Env) returns (reply: Reply)
      requires Valid() && s.Delete? && FindFrom(names, s.table, 0) == Some(i)
      modifies Repr
      ensures Kept() && QueryStep(old(Abs()), s, env, Abs(), reply)
    {
      hide Database.Valid, Table.Valid, Table.Stored, Database.View, Database.AbsLog, Database.Latched, QueryStep, Performed, DeleteRows, WhereOk, RowContext;
      Apart(i);
      LogFitsNow();
      ghost var w := Abs();
      var ok := CheckWhere(i, s.where, env);
      if !ok {
        RefusalIsStep(w, s, env, NotAPredicate);
        return Rejected(NotAPredicate);
      }
      var e, n := DeleteFrom(i, s.where, env);
      assert Kept();
      DeleteIsStep(w, s, env, i, e, n, Abs());
      return ReplyOf(e, n);
    }

    /** An INSERT, UPDATE or DELETE inside an open transaction. */
    method Perform(s: Dml, env: Env) returns (reply: Reply)
      requires Valid()
      modifies Repr
      ensures Kept() && QueryStep(old(Abs()), s, env, Abs(), reply)
    {
      hide Database.Valid, Table.Valid, Table.Stored, Database.AbsLog, Database.Latched, QueryStep;
      var i := FindFrom(names, s.table, 0);
      if i.None? {
        LogFitsNow();
        RefusalIsStep(Abs(), s, env, NoSuchTable);
        return Rejected(NoSuchTable);
      }
      match s {
        case Insert(_, _, _) => reply := PerformInsert(i.value, s, env);
        case Update(_, _, _) => reply := PerformUpdate(i.value, s, env);
        case Delete(_, _) => reply := PerformDelete(i.value, s, env);
      }
      return;
    }

    /******* SELECT *******/

    /** The tables of a FROM list, by number, under their aliases. */
    ghost function ScopeOf(from: seq<nat>, aliases: seq<string>, env: Env): Selects.Scope
      requires Valid() && forall k :: 0 <= k < |from| ==> from[k] < |tables|
      reads this, Repr
    {
      var db := View();
      Selects.Scope(aliases, seq(|from|, k requires 0 <= k < |from| && from[k] < |db.tables| => db.tables[from[k]]), env)
    }

    /** No table of the list has a pair stored twice. */
    ghost predicate PairsDistinct(from: seq<nat>)
      requires Valid() && forall k :: 0 <= k < |from| ==> from[k] < |tables|
      reads this, Repr
    {
      forall k :: 0 <= k < |from| ==> DistinctPairs(tables[from[k]].pkIndex.Pairs())
    }

    /** Integrity makes the keys unique, so distinct pairs are all that order needs. */
    lemma IntegrityUnrepeated(ts: seq<Table>, from: seq<nat>)
      requires Valid() && (forall k :: 0 <= k < |from| ==> from[k] < |tables|) && Integrity(View()) && PairsDistinct(from)
      requires |ts| == |from| && forall k :: 0 <= k < |from| ==> ts[k] == tables[from[k]]
      ensures Selects.AllUnrepeated(ts)
    {
      forall k | 0 <= k < |ts| ensures ts[k].Stored() && Selects.Unrepeated(ts[k]) {
        assert View().tables[from[k]] == ts[k].State();
        forall r: nat | ts[k].State().Live(r) ensures KeyOk(ts[k].State(), r) {
        }
      }
    }

    /**
     A query over tables of the catalog: the tuples of live rows on which every condition is TRUE, on exact
     keys; and in the order of the cross product while the catalog has integrity and no pair is stored twice.
     */
    method SelectFrom(from: seq<nat>, aliases: seq<string>, ons: seq<Expr>, where: Option<Expr>, env: Env) returns (matched: Option<seq<Selects.Tuple>>)
      requires Valid() && (forall k :: 0 <= k < |from| ==> from[k] < |tables|) && Selects.Checked(ScopeOf(from, aliases, env), ons, where)
      ensures matched.Some? ==> Selects.Within(matched.value, Selects.Answer(ScopeOf(from, aliases, env), Selects.Conditions(ons, where)))
      ensures matched.Some? && Selects.ExactQuery(ScopeOf(from, aliases, env), ons, where) ==>
        var answer := Selects.Answer(ScopeOf(from, aliases, env), Selects.Conditions(ons, where));
        && Selects.SameMembers(matched.value, answer)
        && (Integrity(View()) && PairsDistinct(from) ==> matched.value == answer)
    {
      hide Table.Valid, Table.Stored, Selects.Answer, Selects.ExactQuery, Selects.Checked, Selects.AllUnrepeated, Integrity;
      var ts := seq(|from|, k requires 0 <= k < |from| && from[k] < |tables| reads this => tables[from[k]]);
      var sc := Selects.Scope(aliases, seq(|from|, k requires 0 <= k < |from| && from[k] < |tables| && tables[from[k]].Stored() reads this, tables => tables[from[k]].State()), env);
      assert sc.states == ScopeOf(from, aliases, env).states;
      matched := Selects.Select(ts, sc, ons, where);
      if Integrity(View()) && PairsDistinct(from) {
        IntegrityUnrepeated(ts, from);
      }
    }

    /******* COMMIT *******/

    /** The file of a table; catalog_find looks it up by name, and names are unique. */
    function FileOf(i: nat): (disk: Option<Disk>)
      reads this`paths, this`files
    {
      if i < |paths| && paths[i].Some? && paths[i].value in files then Some(files[paths[i].value]) else None
    }

    /**
     wal_append: one frame per row. After a failure the log is as it was, or, if it cannot be cut back, has the
     first m frames and maybe a piece of the next. A table without a backing file has nothing to write.
     */
    method AppendWal(i: nat, rows: seq<nat>) returns (ok: bool, ghost m: nat, ghost tear: bool, ghost cut: bool)
      requires Valid() && i < |tables| && forall k :: 0 <= k < |rows| ==> rows[k] < |tables[i].dead|
      modifies this`files, this`torn
      ensures Valid() && (old(FileOf(i)).None? ==> ok) && m <= |rows| && (ok ==> m == |rows| && !tear) && (cut ==> m == 0 && !tear)
      ensures files == if old(FileOf(i)).None? || paths[i].value in old(torn) || cut then old(files)
        else old(files)[paths[i].value := Disk(old(FileOf(i)).value.base, old(FileOf(i)).value.frames + FramesFor(View().tables[i], rows[..m]))]
      ensures torn == if tear then old(torn) + {paths[i].value} else old(torn)
      ensures tear || cut ==> old(FileOf(i)).Some? && !ok
    {
      hide Database.Valid, Table.Valid, Table.Stored, FramesFor, Database.View;
      Apart(i);
      var disk := FileOf(i);
      m, tear, cut := |rows|, false, false;
      if disk.None? {
        return true, m, tear, cut;
      }
      assert rows[..|rows|] == rows;
      var part :| 0 <= part <= |rows|;
      var failed: bool, cutBack: bool, piece: bool := *, *, *;
      ok := !failed;
      if failed && cutBack {
        return false, 0, false, true;
      }
      var n := if failed then part else |rows|;
      var frames := FramesOf(tables[i], rows[..n]);
      StateInView(i);
      WriteFrames(i, frames, failed && piece);
      m, tear := n, failed && piece;
      return;
    }

    lemma StateInView(i: nat)
      requires Valid() && i < |tables|
      ensures View().tables[i] == tables[i].State()
    {
      hide Table.Valid, Table.Stored;
    }

    /** What reaches the log; behind a torn frame it is as good as not there. */
    method WriteFrames(i: nat, frames: seq<Frame>, tear: bool)
      requires Valid() && FileOf(i).Some?
      modifies this`files, this`torn
      ensures Valid() && View() == old(View())
      ensures files == if paths[i].value in old(torn) then old(files)
        else old(files)[paths[i].value := Disk(old(FileOf(i)).value.base, old(FileOf(i)).value.frames + frames)]
      ensures torn == if tear then old(torn) + {paths[i].value} else old(torn)
    {
      hide Table.Valid, Table.Stored;
      var d := files[paths[i].value];
      if paths[i].value !in torn {
        files := files[paths[i].value := Disk(d.base, d.frames + frames)];
      }
      if tear {
        torn := torn + {paths[i].value};
      }
    }

    /** One frame per row: its cells, or a tombstone. */
    static method FramesOf(t: Table, rows: seq<nat>) returns (frames: seq<Frame>)
      requires t.Valid() && forall k :: 0 <= k < |rows| ==> rows[k] < |t.dead|
      ensures frames == FramesFor(t.State(), rows)
    {
      hide Table.Valid;
      frames := [];
      var k := 0;
      while k < |rows|
        invariant k <= |rows| == |FramesFor(t.State(), rows)|
        invariant frames == FramesFor(t.State(), rows)[..k]
      {
        frames := frames + [if t.dead[rows[k]] then Frame.Tombstone(rows[k]) else Frame.Put(rows[k], t.Contents().Row(rows[k]))];
        k := k + 1;
      }
      assert frames == FramesFor(t.State(), rows);
    }

    method SeenBefore(k: nat) returns (seen: bool)
      requires Valid() && k < |log|
      ensures seen <==> log[k].table in TouchedTables(AbsLog()[..k])
    {
      hide Database.Valid, Table.Valid;
      TouchedTablesExactly(AbsLog()[..k], log[k].table);
      var j := 0;
      while j < k
        invariant j <= k && forall m :: 0 <= m < j ==> log[m].table != log[k].table
      {
        if log[j].table == log[k].table {
          assert AbsLog()[..k][j].table == log[k].table;
          return true;
        }
        j := j + 1;
      }
      return false;
    }

    /** The rows of a table the log touches, collected from its first entry on. */
    method RowsTouched(k: nat) returns (rows: seq<nat>)
      requires Valid() && k < |log| && log[k].table !in TouchedTables(AbsLog()[..k])
      ensures rows == TouchedRows(AbsLog(), log[k].table)
    {
      hide Database.Valid, Table.Valid, Table.Stored, Database.AbsLog, TouchedTables;
      ghost var l := AbsLog();
      var i, j := log[k].table, k;
      TouchedTablesExactly(l[..k], i);
      rows := [];
      while j < |log|
        invariant k <= j <= |log| && rows == TouchedRows(l[..j], i)
      {
        assert l[..j + 1][..j] == l[..j];
        if log[j].table == i && log[j].row !in rows {
          rows := rows + [log[j].row];
        }
        j := j + 1;
      }
      assert l[..j] == l;
    }

    lemma TouchedRowsExist(k: nat)
      requires Valid() && k < |log|
      ensures log[k].table < |tables| && forall r :: r in TouchedRows(AbsLog(), log[k].table) ==> r < |tables[log[k].table].dead|
    {
      LogFitsNow();
      assert EntryFits(View(), AbsLog()[k]);
      TouchedRowsFit(View(), AbsLog(), log[k].table);
      Apart(log[k].table);
    }

    /** commit_wal_for_table. */
    method AppendShare(i: nat, rows: seq<nat>) returns (ok: bool)
      requires Valid() && i < |tables| && rows == TouchedRows(AbsLog(), i) && forall r :: r in rows ==> r < |tables[i].dead|
      modifies this`files, this`torn, this`diverged
      ensures Valid() && View() == old(View()) && AbsLog() == old(AbsLog())
      ensures if ok then Abs() == AppendTable(old(Abs()), i) else AppendFailed(old(Abs()), i, Abs())
    {
      hide Database.Valid, Table.Valid, Table.Stored, TouchedRows, FramesFor;
      Apart(i);
      assert forall k :: 0 <= k < |rows| ==> rows[k] in rows;
      ghost var w := Abs();
      ghost var m: nat, tear: bool, cut: bool;
      ok, m, tear, cut := AppendWal(i, rows);
      assert View() == old(View()) && AbsLog() == old(AbsLog()) && Latched() == old(Latched());
      assert rows[..|rows|] == rows;
      if !ok && !cut {
        NoteDiverged({i}, {});
        TornHere(w, i, m, tear, Abs());
      }
      return;
    }

    /** The share of the table of entry k, if no earlier entry was of that table. */
    method CommitEntry(k: nat, ghost w: World) returns (ok: bool)
      requires Valid() && k < |log| && w.log == AbsLog() && w.db == View() && Committing(w, k, Abs())
      modifies this`files, this`torn, this`diverged
      ensures Valid() && View() == old(View()) && AbsLog() == old(AbsLog())
      ensures if ok then Committing(w, k + 1, Abs())
        else w.log[k].table !in TouchedTables(w.log[..k]) && AppendFailed(old(Abs()), w.log[k].table, Abs())
    {
      hide Database.Valid, Table.Valid, Table.Stored, Committing, AppendTable, AppendFailed, TouchedTables, TouchedRows;
      var seen := SeenBefore(k);
      if seen {
        CommitSkips(w, k, Abs());
        return true;
      }
      ghost var v := Abs();
      var rows := RowsTouched(k);
      TouchedRowsExist(k);
      ok := AppendShare(log[k].table, rows);
      assert w.log[k].table == log[k].table && w.log[k].table !in TouchedTables(w.log[..k]);
      if ok {
        CommitAdvances(w, k, v, Abs());
      }
      return;
    }

    /** Appends the changed rows of each touched table to its log, one table after the other. */
    method CommitLog() returns (ok: bool)
      requires Valid()
      modifies this`files, this`torn, this`log, this`active, this`partial, this`diverged
      ensures Valid() && CommitStep(old(Abs()), Abs(), if ok then Done(0) else CommitFailed)
    {
      hide Database.Valid, Table.Valid, Table.Stored, Committing, CommitStep, AppendFailed, TouchedTables;
      ghost var w := Abs();
      CommitStarts(w);
      var k := 0;
      while k < |log|
        invariant k <= |log| && Valid() && AbsLog() == w.log && View() == w.db && Committing(w, k, Abs()) && partial == w.partial
      {
        ghost var v := Abs();
        ok := CommitEntry(k, w);
        if !ok {
          ghost var v' := Abs();
          CommitBreaks(w, k, v, v');
          NotePartial(w, TouchedTables(w.log[..k]));
          return;
        }
        k := k + 1;
      }
      CommitEnds(w, Abs());
      EndTransaction();
      return true;
    }

    ghost method NotePartial(w: World, ts: seq<nat>)
      requires Valid() && w.partial == partial
      modifies this`partial
      ensures Valid() && Abs() == old(Abs()).(partial := w.partial + Written(w, ts))
    {
      hide Table.Valid, Table.Stored, Written, Database.View, Database.AbsLog, Database.Latched;
      partial := partial + Written(w, ts);
    }

    method EndTransaction()
      requires Valid()
      modifies this`log, this`active, this`partial
      ensures Valid() && Abs() == old(Abs()).(log := [], active := false, partial := map[])
    {
      hide Table.Valid, Table.Stored;
      log, active, partial := [], false, map[];
    }

    /******* Transactions *******/

    method BeginTransaction()
      requires Valid() && !active
      modifies this`log, this`active
      ensures Valid() && Abs() == Opened(old(Abs()))
    {
      hide Table.Valid, Table.Stored;
      log, active := [], true;
    }

    /** txn_rollback. */
    method RollbackAll()
      requires Valid()
      modifies Repr
      ensures Kept() && RollbackStep(old(Abs()), Abs())
    {
      hide Database.Valid, Table.Valid, Table.Stored, Database.View, Database.AbsLog, Database.Latched, UndoTo, TakenBack;
      OwnFields();
      NoteTakenBack();
      assert Kept();
      RollbackTo(0);
      assert Kept();
      EndTransaction();
      assert Kept();
      return;
    }

    ghost method NoteTakenBack()
      requires Valid()
      modifies this`diverged
      ensures Valid() && Abs() == old(Abs()).(diverged := old(diverged) + TakenBack(old(Abs())))
    {
      hide Table.Valid, Table.Stored, TakenBack;
      diverged := diverged + TakenBack(Abs());
    }

    lemma OwnFields()
      requires Valid()
      ensures this in Repr && |paths| == |tables|
    {
    }

    /** A statement outside a transaction: begun, performed, then committed or rolled back. */
    method Autocommit(s: Dml, env: Env) returns (reply: Reply)
      requires Valid() && !active
      modifies Repr
      ensures Kept() && Step(old(Abs()), Query(s, env), Abs(), reply)
    {
      hide Database.Valid, Table.Valid, Table.Stored, Database.View, Database.AbsLog, Database.Latched, QueryStep, CommitStep, RollbackStep;
      OwnFields();
      ghost var w := Abs();
      BeginTransaction();
      assert Kept();
      reply := Perform(s, env);
      assert Kept();
      ghost var mid, r := Abs(), reply;
      if reply.Done? {
        var ok := CommitLog();
        if ok {
          CommitAnyCount(mid, Abs(), reply.changes);
        } else {
          reply := CommitFailed;
        }
      } else {
        RollbackAll();
      }
      assert Kept();
      assert AutoStep(w, s, env, mid, r, Abs(), reply);
      return;
    }

    /******* CREATE TABLE *******/

    method ReferenceOk(name: string, d: ColumnDef) returns (ok: bool)
      requires Valid()
      ensures ok <==> GoodReference(View(), name, d)
    {
      hide Table.Valid, Table.Stored;
      if d.fk.None? {
        return true;
      }
      var j := FindFrom(names, d.fk.value.table, 0);
      if d.fk.value.table == name || j.None? {
        return false;
      }
      var s := tables[j.value].schema;
      var k := s.FindColumn(d.fk.value.column);
      return k.Some? && s.IsPk(k.value) && k.value < |s.types| && s.types[k.value] == d.kind;
    }

    /** The checks of CREATE TABLE, in order. */
    method CheckDefinition(name: string, defs: seq<ColumnDef>) returns (e: Option<Error>)
      requires Valid()
      ensures var r := CreateTable(View(), name, defs); if e.Some? then r == Err(e.value) else r.Ok?
    {
      hide Database.Valid, Table.Valid, Table.Stored, GoodReference;
      if FindFrom(names, name, 0).Some? {
        return Some(TableExists);
      }
      if |defs| == 0 {
        return Some(NoColumns);
      }
      if exists a, b :: 0 <= a < b < |defs| && defs[a].name == defs[b].name {
        return Some(DuplicateColumn);
      }
      if exists a, b :: 0 <= a < b < |defs| && defs[a].primary && defs[b].primary {
        return Some(TwoKeys);
      }
      var c := 0;
      while c < |defs|
        invariant c <= |defs| && forall d :: 0 <= d < c ==> GoodReference(View(), name, defs[d])
      {
        var ok := ReferenceOk(name, defs[c]);
        if !ok {
          return Some(BadReference);
        }
        c := c + 1;
      }
      return None;
    }

    twostate lemma LogOutlivesNewTable(new t: Table)
      requires old(Valid()) && log == old(log) && tables == old(tables) + [t]
      requires forall j :: 0 <= j < |old(tables)| ==> unchanged(old(tables)[j])
      ensures LogStored() && AbsLog() == old(AbsLog())
    {
      hide Table.Valid, Table.State, Table.Stored;
      forall k | 0 <= k < |log| ensures EntryStored(log[k], tables) && AbsEntry(log[k], tables) == old(AbsEntry(log[k], tables)) {
        assert old(EntryStored(log[k], tables));
        assert tables[log[k].table] == old(tables)[log[k].table];
      }
    }

    twostate lemma ViewWithNewTable(name: string, new t: Table)
      requires old(Valid()) && names == old(names) + [name] && tables == old(tables) + [t] && t.Stored()
      requires forall j :: 0 <= j < |old(tables)| ==> unchanged(old(tables)[j])
      ensures AllStored() && View() == old(View()).Add(name, t.State())
      ensures Latched() == if t.failed then old(Latched()) + {old(|tables|)} else old(Latched())
    {
      hide Table.Valid, Table.State, Table.Stored;
      forall j | 0 <= j < |old(tables)| ensures tables[j].Stored() && old(tables[j].Stored()) {
        assert tables[j] == old(tables)[j];
      }
      assert View().tables == old(View()).tables + [t.State()];
    }

    /** A new table at the end of the catalog; every other table keeps its number. */
    method AddTable(name: string, t: Table, path: Option<Path>)
      requires Valid() && t.Valid() && t.mix == mix && t.Repr() !! Repr
      modifies this`names, this`tables, this`paths, this`Repr
      ensures Valid() && Repr == old(Repr) + t.Repr()
      ensures Abs() == old(Abs()).(db := old(View()).Add(name, t.State()), paths := old(paths) + [path],
                                   latched := if t.failed then old(Latched()) + {old(|tables|)} else old(Latched()))
    {
      hide Table.Valid, Table.State, Table.Stored, Database.View, Database.AbsLog, Database.Latched, Database.EntriesStored;
      OwnFields();
      names, tables, paths := names + [name], tables + [t], paths + [path];
      Repr := Repr + t.Repr();
      LogOutlivesNewTable(t);
      ViewWithNewTable(name, t);
      forall j | 0 <= j < |tables|
        ensures tables[j].Valid() && tables[j].mix == mix && tables[j] in Repr && tables[j].pkIndex in Repr && tables[j].Repr() <= Repr
        ensures this !in tables[j].Repr() && (j < |tables| - 1 ==> tables[j].Repr() !! t.Repr()) {
        assert j < |tables| - 1 ==> tables[j] == old(tables)[j];
      }
      return;
    }

    twostate lemma ViewWithOtherTable(i: nat, new t: Table)
      requires old(Valid()) && i < |old(tables)| && names == old(names) && tables == old(tables)[i := t] && t.Stored()
      requires forall j :: 0 <= j < |old(tables)| ==> unchanged(old(tables)[j])
      ensures AllStored() && View() == old(View()).With(i, t.State())
      ensures Latched() == if t.failed then old(Latched()) + {i} else old(Latched()) - {i}
    {
      hide Table.Valid, Table.State, Table.Stored;
      forall j | 0 <= j < |tables| ensures tables[j].Stored() && old(tables[j].Stored()) {
        assert j != i ==> tables[j] == old(tables)[j];
      }
      assert View().tables == old(View()).tables[i := t.State()];
    }

    /** Another table under the number of an old one, while no undo entry refers to its rows. */
    method ReplaceTable(i: nat, t: Table, path: Option<Path>)
      requires Valid() && i < |tables| && log == [] && t.Valid() && t.mix == mix && t.Repr() !! Repr
      modifies this`tables, this`paths, this`Repr
      ensures Valid() && Repr == old(Repr) + t.Repr()
      ensures Abs() == old(Abs()).(db := old(View()).With(i, t.State()), paths := old(paths)[i := path],
                                   latched := if t.failed then old(Latched()) + {i} else old(Latched()) - {i})
    {
      hide Table.Valid, Table.State, Table.Stored, Database.View, Database.Latched;
      OwnFields();
      tables, paths := tables[i := t], paths[i := path];
      Repr := Repr + t.Repr();
      ViewWithOtherTable(i, t);
      forall j | 0 <= j < |tables|
        ensures tables[j].Valid() && tables[j].mix == mix && tables[j] in Repr && tables[j].pkIndex in Repr && tables[j].Repr() <= Repr
        ensures this !in tables[j].Repr() && (j != i ==> tables[j].Repr() !! t.Repr()) {
        assert j != i ==> tables[j] == old(tables)[j];
      }
      return;
    }

    /** catalog_put, for a table just read. */
    method InstallTable(name: string, t: Table, path: Path)
      requires Valid() && path in files && t.Valid() && t.mix == mix && t.Repr() !! Repr && (name in names ==> log == [])
      modifies this`names, this`tables, this`paths, this`Repr, this`diverged
      ensures Valid() && Repr == old(Repr) + t.Repr()
      ensures Abs() == LoadedWorld(old(Abs()), name, t.State(), path, t.failed)
    {
      hide Database.Valid, Table.Valid, Table.Stored, Table.State, Database.View, Database.AbsLog, Database.Latched, Synced;
      OwnFields();
      LatchesBelow();
      ghost var w := Abs();
      var i := FindFrom(names, name, 0);
      if i.Some? {
        ReplaceTable(i.value, t, Some(path));
      } else {
        AddTable(name, t, Some(path));
      }
      ghost var n := FkGraphs.PutAt(w.db, name);
      NoteDiverged(Sharers(w, n) + if Synced(t.State(), files[path]) then {} else {n}, {n});
      IsLoadedWorld(w, name, t.State(), path, t.failed, Abs());
      return;
    }

    lemma LatchesBelow()
      requires Valid()
      ensures forall i :: i in Latched() ==> i < |tables|
      ensures View().names == names && |View().tables| == |tables| == |names| == |paths|
    {
    }

    /** The tables that part from their files, and those that are brought together again. */
    ghost method NoteDiverged(apart: set<nat>, together: set<nat>)
      requires Valid()
      modifies this`diverged
      ensures Valid() && Abs() == old(Abs()).(diverged := old(diverged) - together + apart)
    {
      hide Table.Valid, Table.Stored;
      diverged := diverged - together + apart;
    }

    method CreateNewTable(name: string, defs: seq<ColumnDef>) returns (reply: Reply)
      requires Valid()
      modifies this`names, this`tables, this`paths, this`Repr
      ensures Valid() && fresh(Repr - old(Repr)) && Step(old(Abs()), Create(name, defs), Abs(), reply)
    {
      hide Database.Valid, Table.Valid, Table.Stored, Table.State, Database.View, Database.AbsLog, Database.Latched, CreateTable, SchemaOf, Step;
      var e := CheckDefinition(name, defs);
      if e.Some? {
        NoTableIsStep(Abs(), name, defs, e.value);
        return Rejected(e.value);
      }
      var memory: bool := *;
      if !memory {
        NoTableIsStep(Abs(), name, defs, OutOfMemory);
        return Rejected(OutOfMemory);
      }
      var t := new Table(SchemaOf(defs), mix);
      AddTable(name, t, None);
      NewTableIsStep(old(Abs()), name, defs, Abs());
      return Done(0);
    }

    /******* .load *******/

    method CheckHeader(schema: Schema) returns (ok: bool)
      ensures ok <==> HeaderOk(schema)
    {
      var c := 0;
      while c < |schema.names|
        invariant c <= |schema.names| && forall d :: 0 <= d < c ==> |schema.names[d]| < MAX_COL_NAME_LEN
        invariant forall a, d :: 0 <= a < c && a < d < |schema.names| ==> schema.names[a] != schema.names[d]
      {
        if |schema.names[c]| >= MAX_COL_NAME_LEN {
          return false;
        }
        var d := c + 1;
        while d < |schema.names|
          invariant c < d <= |schema.names| && forall b :: c < b < d ==> schema.names[c] != schema.names[b]
        {
          if schema.names[c] == schema.names[d] {
            return false;
          }
          d := d + 1;
        }
        c := c + 1;
      }
      return true;
    }

    /** fk_chain_reaches. */
    method FkChainReaches(j: nat, target: string, fuel: nat) returns (reached: bool)
      requires Valid() && j < |tables|
      ensures reached == FkGraphs.ChainReaches(View(), j, target, fuel)
      decreases fuel
    {
      hide Database.Valid, Table.Valid, Table.Stored;
      if fuel == 0 {
        return true;
      }
      Apart(j);
      var fks := tables[j].schema.fks;
      var c := 0;
      while c < |fks|
        invariant c <= |fks| && FkGraphs.ColumnsReach(View(), j, 0, target, fuel) == FkGraphs.ColumnsReach(View(), j, c, target, fuel)
      {
        if fks[c].Some? {
          if fks[c].value.table == target {
            return true;
          }
          var k := FindFrom(names, fks[c].value.table, 0);
          if k.Some? {
            reached := FkChainReaches(k.value, target, fuel - 1);
            if reached {
              return;
            }
          }
        }
        c := c + 1;
      }
      return false;
    }

    method CheckLoadedReference(name: string, schema: Schema, c: nat) returns (ok: bool)
      requires Valid() && c < |schema.fks| && schema.fks[c].Some?
      ensures ok <==> FkGraphs.ReferenceAllowed(View(), name, schema, c)
    {
      hide Table.Valid, Table.Stored, FkGraphs.ChainReaches;
      var fk := schema.fks[c].value;
      var j := FindFrom(names, fk.table, 0);
      if fk.table == name || j.None? {
        return false;
      }
      var cycle := FkChainReaches(j.value, name, |tables|);
      if cycle {
        return false;
      }
      Apart(j.value);
      var target := tables[j.value].schema;
      var k := target.FindColumn(fk.column);
      return k.Some? && target.IsPk(k.value) && k.value < |target.types| && c < |schema.types| && target.types[k.value] == schema.types[c];
    }

    method CheckLoadedReferences(name: string, schema: Schema) returns (ok: bool)
      requires Valid()
      ensures ok <==> FkGraphs.ReferencesAllowed(View(), name, schema)
    {
      hide Database.Valid, Table.Valid, Table.Stored, FkGraphs.ReferenceAllowed;
      var c := 0;
      while c < |schema.fks|
        invariant c <= |schema.fks|
        invariant forall d :: 0 <= d < c && schema.fks[d].Some? ==> FkGraphs.ReferenceAllowed(View(), name, schema, d)
      {
        if schema.fks[c].Some? {
          ok := CheckLoadedReference(name, schema, c);
          if !ok {
            return;
          }
        }
        c := c + 1;
      }
      return true;
    }

    /** Where a foreign key of a schema points in the catalog. */
    method ResolveTarget(schema: Schema, c: nat) returns (target: Option<Target>)
      requires Valid() && c < |schema.fks|
      ensures target == FkTarget(View(), schema, c)
    {
      var fk := schema.fks[c];
      if fk.None? {
        return None;
      }
      var j := FindFrom(names, fk.value.table, 0);
      if j.None? {
        return None;
      }
      Apart(j.value);
      var k := tables[j.value].schema.FindColumn(fk.value.column);
      return if k.None? then None else Some(Target(j.value, k.value));
    }

    method CheckLoadedCell(t: Table, row: nat, c: nat) returns (ok: bool)
      requires Valid() && t.Valid() && row < |t.dead| && c < |t.schema.types|
      ensures row < |t.State().rows| && (ok <==> LoadedCellViolation(View(), t.State(), row, c).None?)
    {
      hide Database.Valid, Table.Valid, Table.Stored, TableState.HasDuplicate, TableState.HasMatch, FkTarget;
      TableShape(t);
      var v := t.ReadColumn(row, c);
      if t.schema.IsPk(c) {
        if v.Null? {
          return false;
        }
        var duplicate := t.ColumnHasDuplicate(c, row);
        if duplicate {
          return false;
        }
      }
      var target := ResolveTarget(t.schema, c);
      if target.None? || v.Null? {
        return true;
      }
      Apart(target.value.table);
      ok := tables[target.value.table].HasMatchingValue(target.value.col, v);
      return;
    }

    static lemma TableShape(t: Table)
      requires t.Valid()
      ensures t.State().Valid() && t.State().schema == t.schema && |t.State().rows| == |t.dead| && |t.schema.fks| == |t.schema.types|
    {
    }

    /** check_row_constraints of load.c: the row is in a table that is not in the catalog yet. */
    method CheckLoadedRow(t: Table, row: nat) returns (ok: bool)
      requires Valid() && t.Valid() && row < |t.dead|
      ensures row < |t.State().rows| && (ok <==> LoadedRowViolation(View(), t.State(), row, 0).None?)
    {
      hide Database.Valid, Table.Valid, Table.Stored, LoadedCellViolation;
      TableShape(t);
      var c := 0;
      while c < |t.schema.types|
        invariant c <= |t.schema.types|
        invariant LoadedRowViolation(View(), t.State(), row, 0).None? <==> LoadedRowViolation(View(), t.State(), row, c).None?
      {
        ok := CheckLoadedCell(t, row, c);
        if !ok {
          return;
        }
        c := c + 1;
      }
      return true;
    }

    /** A row into a table that is not in the catalog yet. */
    method LoadBaseRow(t: Table, base: seq<Row>, k: nat)
      requires Valid() && t.Valid() && t.Repr() !! Repr && k < |base| && t.State() == Loaded(t.schema, base[..k]) && RowFits(t.schema.types, base[k])
      modifies t, t.pkIndex, t.pkIndex.slots
      ensures Valid() && Abs() == old(Abs()) && View() == old(View())
      ensures t.Valid() && t.Repr() !! Repr && (t.pkIndex.slots == old(t.pkIndex.slots) || fresh(t.pkIndex.slots))
      ensures (old(t.failed) ==> t.failed) && (t.failed || t.State() == Loaded(t.schema, base[..k + 1]))
      ensures DistinctPairs(old(t.pkIndex.Pairs())) ==> DistinctPairs(t.pkIndex.Pairs())
    {
      hide Table.Valid, Table.Stored, RowFits, DistinctPairs;
      label before:
      ghost var w, v := Abs(), View();
      WalFiles.LoadRow(t, base, k);
      assert forall j :: 0 <= j < |tables| ==> unchanged@before(tables[j]);
      return;
    }

    /** The rows of the base file, each checked as it is loaded; not accepted: a row failed, or memory did. */
    method ReadBase(t: Table, base: seq<Row>) returns (accepted: bool)
      requires Valid() && t.Valid() && t.Repr() !! Repr && t.State() == TableState(t.schema, [], []) && BaseFits(t.schema, base)
      modifies t, t.pkIndex, t.pkIndex.slots
      ensures Valid() && Abs() == old(Abs()) && t.Valid() && (t.pkIndex.slots == old(t.pkIndex.slots) || fresh(t.pkIndex.slots))
      ensures accepted ==> !t.failed && t.State() == Loaded(t.schema, base) && BaseAccepted(View(), t.schema, base)
      ensures !accepted && !t.failed ==> !BaseAccepted(View(), t.schema, base)
      ensures DistinctPairs(old(t.pkIndex.Pairs())) ==> DistinctPairs(t.pkIndex.Pairs())
    {
      hide Database.Valid, Table.Valid, Table.Stored, Database.View, Database.AbsLog, Database.Latched, RowFits, DistinctPairs, LoadedRowViolation, Loaded;
      OwnFields();
      NothingLoaded(t.schema, base);
      var k := 0;
      while k < |base|
        invariant k <= |base| && Valid() && Abs() == old(Abs()) && View() == old(View())
        invariant t.Valid() && t.Repr() !! Repr && (t.pkIndex.slots == old(t.pkIndex.slots) || fresh(t.pkIndex.slots))
        invariant t.State() == Loaded(t.schema, base[..k]) && (k > 0 ==> !t.failed)
        invariant forall j :: 0 <= j < k ==> RowAccepted(View(), t.schema, base, j)
        invariant DistinctPairs(old(t.pkIndex.Pairs())) ==> DistinctPairs(t.pkIndex.Pairs())
      {
        LoadBaseRow(t, base, k);
        if t.failed {
          return false;
        }
        LoadedShape(t.schema, base[..k + 1]);
        TableShape(t);
        accepted := CheckLoadedRow(t, k);
        if !accepted {
          assert !RowAccepted(View(), t.schema, base, k);
          return;
        }
        k := k + 1;
      }
      assert base[..k] == base;
      return !t.failed;
    }

    static lemma NothingLoaded(schema: Schema, base: seq<Row>)
      ensures Loaded(schema, base[..0]) == TableState(schema, [], [])
    {
    }

    static lemma LoadedShape(schema: Schema, rows: seq<Row>)
      ensures Loaded(schema, rows).rows == rows && |Loaded(schema, rows).dead| == |rows|
    {
    }

    /** Base rows, then the log. A failure among the base rows gives up; one in the log does not. */
    method ReadTable(schema: Schema, disk: Disk) returns (t: Table, loaded: bool, complete: bool)
      requires Valid() && schema.Valid() && DiskFits(schema.types, disk)
      ensures fresh(t) && fresh(t.Repr()) && t.Valid() && t.mix == mix && Valid()
      ensures BaseFits(schema, disk.base) && (loaded ==> BaseAccepted(View(), schema, disk.base))
      ensures !loaded && !t.failed ==> !BaseAccepted(View(), schema, disk.base)
      ensures loaded ==> ReplayedInPart(schema, disk, t.State()) && (complete && !t.failed ==> t.State() == Recover(schema, disk))
    {
      hide Database.Valid, Table.Valid, Table.Stored, Table.State, Replay, RowFits, Recover, ReplayedInPart, BaseAccepted;
      t := new Table(schema, mix);
      loaded := ReadBase(t, disk.base);
      if !loaded {
        return t, false, false;
      }
      complete := WalFiles.ReplayList(t, disk.base, disk.frames);
      assert Disk(disk.base, disk.frames) == disk;
      return;
    }

    /**
     .load. It is refused for a name in use while a transaction is open, for a header, a reference or a base row
     that fails its check, for a file without a row or for want of memory among the base rows; when
     the replay of the log runs out of memory the table is installed all the same.
     */
    method LoadTable(name: string, schema: Schema, path: Path) returns (reply: Reply)
      requires Valid() && Idle(Abs())
      modifies this`names, this`tables, this`paths, this`Repr, this`diverged
      ensures Valid() && fresh(Repr - old(Repr)) && Step(old(Abs()), Load(name, schema, path), Abs(), reply)
    {
      hide Database.Valid, Table.Valid, Table.Stored, Table.State, Database.View, Database.AbsLog, Database.Latched,
           Recover, ReplayedInPart, RowFits, FramesFit, Step, BaseAccepted, HeaderOk, FkGraphs.ReferencesAllowed, LoadedWorld;
      var readable: bool := *;
      if !readable {
        NoLoadIsStep(Abs(), name, schema, path, Unavailable);
        return Unavailable;
      }
      var taken := FindFrom(names, name, 0).Some?;
      if (active && taken) || path !in files || !schema.Valid() || !DiskFits(schema.types, files[path]) || files[path].base == [] {
        NoLoadIsStep(Abs(), name, schema, path, Refused);
        return Refused;
      }
      var header := CheckHeader(schema);
      var references := CheckLoadedReferences(name, schema);
      if !header || !references {
        NoLoadIsStep(Abs(), name, schema, path, Refused);
        return Refused;
      }
      var t, loaded, complete := ReadTable(schema, files[path]);
      if !loaded {
        reply := if t.failed then Unavailable else Refused;
        NoLoadIsStep(Abs(), name, schema, path, reply);
        return;
      }
      var whole := complete && !t.failed;
      InstallTable(name, t, path);
      LoadIsStep(old(Abs()), name, schema, path, t.State(), whole, t.failed);
      return if whole then Done(0) else LoadedInPart;
    }

    /******* Checkpoint *******/

    /** table_compact, then table_compact_heap; a heap past 32-bit offsets would lose text. */
    static method CompactTable(t: Table)
      requires t.Valid()
      modifies t, t.pkIndex
      ensures fresh(t.pkIndex.slots) && (old(t.failed) ==> t.failed) && DistinctPairs(t.pkIndex.Pairs())
      ensures |t.heap| <= TWO_32 ==> t.Valid() && t.State() == Compacted(old(t.State()))
    {
      hide Table.Valid, Table.Stored;
      t.Compact();
      t.CompactHeap();
    }

    /** With no undo entry to refer to its rows, one table may be renumbered. */
    twostate lemma OneTableRenumbered(i: nat)
      requires old(Valid()) && SameSession() && log == [] && i < |tables|
      requires forall j :: 0 <= j < |tables| && j != i ==>
        unchanged(tables[j]) && unchanged(tables[j].pkIndex) && unchanged(tables[j].pkIndex.slots)
      requires tables[i].Valid() && fresh(tables[i].Repr() - old(tables[i].Repr())) && Repr == old(Repr) + tables[i].Repr()
      requires old(tables[i].failed) ==> tables[i].failed
      ensures OnlyTablesChanged() && View() == old(View()).With(i, tables[i].State())
    {
      hide Table.Valid, Table.Stored, Table.State;
      forall j | 0 <= j < |tables| ensures tables[j].Valid() && old(tables[j].Valid()) {
      }
      assert AllStored();
      assert AbsLog() == old(AbsLog());
      assert View().tables == old(View()).tables[i := tables[i].State()];
    }

    method Renumber(i: nat)
      requires Valid() && i < |tables| && log == []
      modifies Repr
      ensures tables == old(tables) && paths == old(paths) && files == old(files)
      ensures |tables[i].heap| <= TWO_32 ==>
        && Kept() && Moved(old(Abs()), Abs()) && AbsLog() == old(AbsLog())
        && old(View()).tables[i].Valid() && View() == old(View()).With(i, Compacted(old(View()).tables[i]))
    {
      hide Database.Valid, Table.Valid, Table.Stored, Database.OnlyTablesChanged, Compacted;
      Apart(i);
      CompactTable(tables[i]);
      Repr := Repr + tables[i].Repr();
      if |tables[i].heap| <= TWO_32 {
        OneTableRenumbered(i);
        TablesMove();
      }
      return;
    }

    method WriteDisk(i: nat, disk: Disk)
      requires Valid() && FileOf(i).Some?
      modifies this`files
      ensures Valid() && old(DiskOf(Abs(), i)).Some? && Abs() == WithDisk(old(Abs()), i, disk) && FileOf(i) == Some(disk)
    {
      hide Table.Valid, Table.Stored;
      files := files[paths[i].value := disk];
    }

    /** The log file goes, and any torn end with it. */
    method RemoveLog(i: nat)
      requires Valid() && FileOf(i).Some?
      modifies this`files, this`torn
      ensures Valid() && old(DiskOf(Abs(), i)) == old(FileOf(i))
      ensures Abs() == WithDisk(old(Abs()), i, Disk(old(FileOf(i)).value.base, [])).(torn := old(torn) - {paths[i].value})
    {
      hide Table.Valid, Table.Stored;
      files := files[paths[i].value := Disk(files[paths[i].value].base, [])];
      torn := torn - {paths[i].value};
    }

    static method ReadRow(t: Table, r: nat) returns (row: Row)
      requires t.Valid() && r < |t.dead|
      ensures r < |t.State().rows| && row == t.State().rows[r]
    {
      hide Table.Valid;
      row := t.Contents().Row(r);
    }

    /** What write_csv_body writes of the rows the cursor visits, as the next load reads it. */
    static method DumpTable(t: Table) returns (rows: seq<Row>)
      requires t.Valid()
      ensures |t.State().rows| == |t.State().dead| && rows == DumpedBase(t.State())
    {
      hide Table.Valid, Table.Stored, Skipped, DumpedRow, LiveRows, DumpedRows;
      ghost var s := t.State();
      DumpOfNone(s.rows, s.dead);
      rows := [];
      var r := 0;
      while r < |t.dead|
        invariant r <= |t.dead| == |s.rows| == |s.dead|
        invariant rows == DumpedRows(LiveRows(s.rows[..r], s.dead[..r]))
      {
        DumpOneMore(s.rows, s.dead, r);
        if !t.dead[r] {
          var row := ReadRow(t, r);
          if !Skipped(row) {
            rows := rows + [DumpedRow(row)];
          }
        }
        r := r + 1;
      }
      assert s.rows[..r] == s.rows && s.dead[..r] == s.dead;
    }

    /** dump_csv, the removal of the log and the new generation number; each may fail. */
    method WriteCheckpoint(i: nat) returns (done: bool, ghost left: Disk, ghost removed: bool)
      requires Valid() && i < |tables| && FileOf(i).Some?
      modifies this`files, this`torn
      ensures Valid() && old(DiskOf(Abs(), i)) == old(FileOf(i))
      ensures Abs() == WithDisk(old(Abs()), i, left).(torn := if removed then old(torn) - {paths[i].value} else old(torn))
      ensures |View().tables[i].rows| == |View().tables[i].dead| && (removed ==> left == Disk(DumpedBase(View().tables[i]), []))
      ensures if done then removed else LeftByFailedCheckpoint(View().tables[i], old(FileOf(i)).value, left)
    {
      hide Database.Valid, Table.Valid, Table.Stored, DumpedBase;
      Apart(i);
      left, removed := FileOf(i).value, false;
      var failed := tables[i].failed;
      var dumped: bool, gone: bool, renumbered: bool := *, *, *;
      assert files == files[paths[i].value := left];
      if failed || !dumped {
        return false, left, false;
      }
      var frames := FileOf(i).value.frames;
      var rows := DumpTable(tables[i]);
      WriteDisk(i, Disk(rows, frames));
      left := Disk(rows, frames);
      if !gone {
        return false, left, false;
      }
      RemoveLog(i);
      left := Disk(rows, []);
      return renumbered, left, true;
    }

    /** A checkpoint of a table by number. What a heap beyond 32-bit offsets leads to is not modelled. */
    method CheckpointTable(i: nat) returns (reply: Reply)
      requires Valid() && Idle(Abs()) && i < |tables|
      modifies Repr
      ensures tables == old(tables)
      ensures |tables[i].heap| <= TWO_32 ==> Kept() && Step(old(Abs()), Checkpoint(i), Abs(), reply)
    {
      hide Database.Valid, Table.Valid, Table.Stored, Database.View, Database.AbsLog, Database.Latched, Compacted, Step, LiveRows, NoGaps, Serves, DumpedBase;
      OwnFields();
      ghost var w := Abs();
      if active || FileOf(i).None? {
        NoCheckpointIsStep(w, i, Refused);
        return Refused;
      }
      var locked: bool := *;
      if !locked {
        NoCheckpointIsStep(w, i, Unavailable);
        return Unavailable;
      }
      Renumber(i);
      if |tables[i].heap| > TWO_32 {
        return CheckpointFailed;
      }
      assert Kept();
      reply := FinishCheckpoint(i, w);
      assert Kept();
      return;
    }

    /** The files, once memory is compacted. */
    method FinishCheckpoint(i: nat, ghost w: World) returns (reply: Reply)
      requires Valid() && w.db.Valid() && !w.active && i < |tables| && i < |w.db.tables| && FileOf(i).Some? && DiskOf(w, i) == FileOf(i)
      requires w.latched <= Latched() && Abs() == w.(db := w.db.With(i, Compacted(w.db.tables[i])), latched := Latched())
      modifies this`files, this`torn, this`diverged
      ensures Valid() && Step(w, Checkpoint(i), Abs(), reply)
    {
      hide Database.Valid, Table.Valid, Table.Stored, Database.View, Database.AbsLog, Database.Latched, Compacted, Step, LiveRows, NoGaps, Serves, DumpedBase;
      CompactedIsLive(w.db.tables[i]);
      var done: bool;
      ghost var left: Disk, removed: bool;
      done, left, removed := WriteCheckpoint(i);
      ghost var t, was := w.db.tables[i], DiskOf(w, i).value;
      NoteDiverged(if left == Disk(Compacted(t).rows, []) || (Serves(t, was, left) && w.paths[i].value !in w.torn) then {} else {i},
                   if left == Disk(Compacted(t).rows, []) then {i} else {});
      CheckpointIsStep(w, i, Abs(), left, removed, done);
      return if done then Done(0) else CheckpointFailed;
    }

    /** A reload of any tracked table's file shows its visible rows and the phantoms. */
    ghost predicate MatchesFiles()
      requires Valid()
      reads this, Repr
    {
      forall i :: 0 <= i < |tables| && Tracked(Abs(), i) ==> Agrees(View().tables[i], DiskOf(Abs(), i).value)
    }

    lemma FilesMatch(start: map<Path, Disk>, run: seq<Event>)
      requires Valid() && !active && IsRun(Fresh(start), run) && Abs() == StateAfter(Fresh(start), run)
      ensures MatchesFiles()
    {
      hide Database.Valid, IsRun, Agrees, Sole;
      forall i | 0 <= i < |tables| && Tracked(Abs(), i) ensures Agrees(View().tables[i], DiskOf(Abs(), i).value) {
        Durability.Durability(start, run, i);
      }
    }

    /**
     One statement of the session. A checkpoint may find more text in its table than 32-bit offsets
     reach; then fits is false and nothing is promised.
     */
    method Execute(s: Stmt) returns (reply: Reply, fits: bool)
      requires Valid() && Idle(Abs())
      modifies Repr
      ensures fits ==> Valid() && fresh(Repr - old(Repr)) && Idle(Abs()) && Step(old(Abs()), s, Abs(), reply)
      ensures !fits ==> s.Checkpoint? && s.table < |tables| && |tables[s.table].heap| > TWO_32
    {
      hide Database.Valid, Table.Valid, Table.Stored, Database.View, Database.AbsLog, Database.Latched, QueryStep, CommitStep, RollbackStep, AutoStep, CreateTable,
           LoadStep, CheckpointStep;
      OwnFields();
      ghost var w := Abs();
      fits := true;
      match s {
        case Query(dml, env) =>
          if active {
            reply := Perform(dml, env);
          } else {
            reply := Autocommit(dml, env);
          }
        case Create(name, defs) =>
          reply := CreateNewTable(name, defs);
        case Load(name, schema, path) =>
          reply := LoadTable(name, schema, path);
        case Begin =>
          if active {
            return AlreadyActive, true;
          }
          BeginTransaction();
          reply := Done(0);
        case Commit =>
          if !active {
            return NoTransaction, true;
          }
          var ok := CommitLog();
          reply := if ok then Done(0) else CommitFailed;
        case Rollback =>
          if !active {
            return NoTransaction, true;
          }
          RollbackAll();
          reply := Done(0);
        case Checkpoint(i) =>
          reply, fits := CheckpointIfAny(i);
          if !fits {
            return;
          }
      }
      StepKeepsIdle(w, s, Abs(), reply);
      return;
    }

    method CheckpointIfAny(i: nat) returns (reply: Reply, fits: bool)
      requires Valid() && Idle(Abs())
      modifies Repr
      ensures fits ==> Kept() && Step(old(Abs()), Checkpoint(i), Abs(), reply)
      ensures !fits ==> i < |tables| && |tables[i].heap| > TWO_32
    {
      hide Database.Valid, Table.Valid, Table.Stored, Database.View, Database.AbsLog, Database.Latched, Step;
      OwnFields();
      if i >= |tables| {
        NoCheckpointIsStep(Abs(), i, Refused);
        return Refused, true;
      }
      reply := CheckpointTable(i);
      fits := |tables[i].heap| <= TWO_32;
    }
  }

  /** The run answers the first statements with these replies. */
  ghost predicate Answered(stmts: seq<Stmt>, replies: seq<Reply>, run: seq<Event>) {
    |replies| == |run| <= |stmts| && forall k :: 0 <= k < |run| ==> run[k].stmt == stmts[k] && run[k].reply == replies[k]
  }

  lemma AnsweredOneMore(stmts: seq<Stmt>, replies: seq<Reply>, run: seq<Event>, e: Event)
    requires Answered(stmts, replies, run) && |run| < |stmts| && e.stmt == stmts[|run|]
    ensures Answered(stmts, replies + [e.reply], run + [e])
  {
  }

  /**
   A session on an empty catalog and these files: what the objects hold at its end is where a run of
   Sessions ends. So outside a transaction a reload of a tracked table shows what memory shows, phantom
   rows aside; and keys are unique and references matched, unless a load brought in unchecked rows
   or an INSERT hit a latched table. It ends early at a checkpoint that would lose text.
   */
  method RunSession(mix: Mixer, files: map<Path, Disk>, stmts: seq<Stmt>) returns (database: Database, replies: seq<Reply>, ghost run: seq<Event>, fits: bool)
    ensures |replies| == |run| <= |stmts| && Answered(stmts, replies, run) && IsRun(Fresh(files), run)
    ensures fits ==> |run| == |stmts| && fresh(database) && database.Valid() && database.Abs() == StateAfter(Fresh(files), run)
    ensures fits && PlainRun(Fresh(files), run) ==> Integrity(database.View())
    ensures fits && !database.active ==> database.MatchesFiles()
    ensures !fits ==> |run| < |stmts| && TooMuchText(database, stmts[|run|])
  {
    hide Database.Valid, Database.View, Database.AbsLog, Database.Latched, Idle, Step, StateAfter, Integrity, PlainRun, IsRun, Database.MatchesFiles, Answered;
    database := new Database(mix, files);
    replies, run, fits := [], [], true;
    NothingRun(files, stmts);
    var k := 0;
    while k < |stmts|
      invariant k <= |stmts| && |replies| == |run| == k && Answered(stmts, replies, run)
      invariant fresh(database) && database.Valid() && fresh(database.Repr) && Idle(database.Abs())
      invariant IsRun(Fresh(files), run) && database.Abs() == StateAfter(Fresh(files), run)
    {
      var reply: Reply;
      reply, fits := database.Execute(stmts[k]);
      if !fits {
        return;
      }
      ghost var e := Event(stmts[k], reply, database.Abs());
      RunExtended(Fresh(files), run, e);
      AnsweredOneMore(stmts, replies, run, e);
      replies, run, k := replies + [reply], run + [e], k + 1;
    }
    fits := true;
    if PlainRun(Fresh(files), run) {
      RunsKeepIntegrity(files, run);
    }
    if !database.active {
      database.FilesMatch(files, run);
    }
    return;
  }

  /** The statement is a checkpoint of a table whose texts take more than 2^32 bytes. */
  predicate TooMuchText(database: Database, s: Stmt)
    reads database, database.tables
  {
    s.Checkpoint? && s.table < |database.tables| && |database.tables[s.table].heap| > TWO_32
  }

  lemma NothingRun(files: map<Path, Disk>, stmts: seq<Stmt>)
    ensures IsRun(Fresh(files), []) && StateAfter(Fresh(files), []) == Fresh(files) && Idle(Fresh(files)) && Answered(stmts, [], [])
  {
  }
}
