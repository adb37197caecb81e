/**
 The storage engine: typed columns, null and tombstone flags, an append-only text heap
 and the primary-key index, changed in place. Every method is specified on the abstract
 TableState; the index invariant is part of Valid.
 */
module Tables {
  import opened Values
  import opened RowIndexes
  import opened TableStates

  /** One stored cell. A text cell is a reference into the heap. */
  datatype Raw =
    | RawInt(i: int64)
    | RawDouble(d: Double)
    | RawBool(b: bool)
    | RawText(offset: nat, len: nat)

  predicate RawFits(kind: FieldType, raw: Raw, heapLen: nat) {
    match kind
    case FtInt => raw.RawInt?
    case FtDouble => raw.RawDouble?
    case FtBool => raw.RawBool?
    case FtText => raw.RawText? && raw.offset + raw.len <= heapLen
  }

  function ZeroRaw(kind: FieldType): (raw: Raw)
    ensures RawFits(kind, raw, 0)
  {
    match kind
    case FtInt => RawInt(0)
    case FtDouble => RawDouble(0)
    case FtBool => RawBool(false)
    case FtText => RawText(0, 0)
  }

  function Resolve(raw: Raw, heap: Bytes): (v: Value)
    requires raw.RawText? ==> raw.offset + raw.len <= |heap|
    ensures !v.Null?
  {
    match raw
    case RawInt(i) => Int(i)
    case RawDouble(d) => Dbl(d)
    case RawBool(b) => Bool(b)
    case RawText(o, n) => Text(heap[o..o + n])
  }

  /** The column arrays, the null flags and the heap of a table with n rows. */
  datatype Store = Store(types: seq<FieldType>, columns: seq<seq<Raw>>, colNull: seq<seq<bool>>, heap: Bytes, n: nat)
  {
    ghost predicate Valid() {
      && |columns| == |colNull| == |types|
      && (forall c :: 0 <= c < |columns| ==> |columns[c]| == n && |colNull[c]| == n)
      && (forall c, r :: 0 <= c < |columns| && 0 <= r < n ==> RawFits(types[c], columns[c][r], |heap|))
    }

    /** read_column: null first, then the typed cell. */
    function Cell(r: nat, c: nat): (v: Value)
      requires Valid() && r < n && c < |types|
      ensures v.Kind() == types[c]
    {
      if colNull[c][r] then Null(types[c]) else Resolve(columns[c][r], heap)
    }

    function Row(r: nat): (row: Row)
      requires Valid() && r < n
      ensures RowFits(types, row)
    {
      seq(|types|, c requires 0 <= c < |types| && this.Valid() && r < n => Cell(r, c))
    }

    function Rows(): (rows: seq<Row>)
      requires Valid()
      ensures |rows| == n && forall r :: 0 <= r < n ==> rows[r] == Row(r)
    {
      seq(n, r requires 0 <= r < n && this.Valid() => Row(r))
    }

    function Put(r: nat, c: nat, isNull: bool, raw: Raw): Store
      requires Valid() && r < n && c < |types|
    {
      this.(columns := columns[c := columns[c][r := raw]], colNull := colNull[c := colNull[c][r := isNull]])
    }

    lemma PutValid(r: nat, c: nat, isNull: bool, raw: Raw)
      requires Valid() && r < n && c < |types| && RawFits(types[c], raw, |heap|)
      ensures Put(r, c, isNull, raw).Valid()
    {
      var st := Put(r, c, isNull, raw);
      forall d, q | 0 <= d < |st.columns| && 0 <= q < n ensures RawFits(types[d], st.columns[d][q], |heap|) {
        if d != c {
          assert st.columns[d] == columns[d];
        }
      }
    }

    /** Writing one cell changes that cell only. */
    lemma PutRows(r: nat, c: nat, isNull: bool, raw: Raw)
      requires Valid() && r < n && c < |types| && RawFits(types[c], raw, |heap|)
      ensures var v := if isNull then Null(types[c]) else Resolve(raw, heap);
        var st := Put(r, c, isNull, raw);
        st.Valid() && st.Rows() == Rows()[r := Rows()[r][c := v]]
    {
      PutValid(r, c, isNull, raw);
      var v := if isNull then Null(types[c]) else Resolve(raw, heap);
      var st := Put(r, c, isNull, raw);
      forall q | 0 <= q < n ensures st.Row(q) == if q == r then Row(q)[c := v] else Row(q) {
        forall d | 0 <= d < |types| ensures st.Cell(q, d) == if q == r && d == c then v else Cell(q, d) {
        }
      }
    }

    lemma SetNullRows(r: nat, c: nat)
      requires Valid() && r < n && c < |types|
      ensures var st := this.(colNull := colNull[c := colNull[c][r := true]]);
        st.Valid() && st.Rows() == Rows()[r := Rows()[r][c := Null(types[c])]]
    {
      var st := Put(r, c, true, columns[c][r]);
      assert st.columns[c] == columns[c];
      assert st.columns == columns;
      PutRows(r, c, true, columns[c][r]);
    }

    /** Bytes appended to the heap change no cell. */
    lemma HeapGrowthKeepsRows(more: Bytes)
      requires Valid()
      ensures this.(heap := heap + more).Valid() && this.(heap := heap + more).Rows() == Rows()
    {
      var st := this.(heap := heap + more);
      forall r | 0 <= r < n ensures st.Row(r) == Row(r) {
        forall c | 0 <= c < |types| ensures st.Cell(r, c) == Cell(r, c) {
          var raw := columns[c][r];
          if raw.RawText? {
            assert (heap + more)[raw.offset..raw.offset + raw.len] == heap[raw.offset..raw.offset + raw.len];
          }
        }
      }
    }

    lemma MovedRows(st: Store)
      requires Valid() && st.types == types && st.colNull == colNull && st.n == n && |st.columns| == |types|
      requires forall c :: 0 <= c < |types| ==> ColumnMoved(types[c], st.columns[c], columns[c], st.heap, heap)
      ensures st.Valid() && (|st.heap| <= TWO_32 ==> st.Rows() == Rows())
    {
      forall c, r | 0 <= c < |types| && 0 <= r < n
        ensures RawMoved(types[c], st.columns[c][r], columns[c][r], st.heap, heap) {
        assert ColumnMoved(types[c], st.columns[c], columns[c], st.heap, heap);
      }
      if |st.heap| <= TWO_32 {
        forall r | 0 <= r < n ensures st.Row(r) == Row(r) {
          forall c | 0 <= c < |types| ensures st.Cell(r, c) == Cell(r, c) {
            assert RawMoved(types[c], st.columns[c][r], columns[c][r], st.heap, heap);
          }
        }
      }
    }

    lemma TruncateRows(st: Store, k: nat)
      requires Valid() && k <= n && st.types == types && st.heap == heap && st.n == k
      requires |st.columns| == |st.colNull| == |types|
      requires forall c :: 0 <= c < |types| ==> st.columns[c] == columns[c][..k] && st.colNull[c] == colNull[c][..k]
      ensures st.Valid() && st.Rows() == Rows()[..k]
    {
      forall r | 0 <= r < k ensures st.Row(r) == Row(r) {
        assert forall c :: 0 <= c < |types| ==> st.Cell(r, c) == Cell(r, c);
      }
    }

    lemma AppendRows(st: Store)
      requires Valid() && st.types == types && st.heap == heap && st.n == n + 1
      requires |st.columns| == |st.colNull| == |types|
      requires forall c :: 0 <= c < |types| ==> st.columns[c] == columns[c] + [ZeroRaw(types[c])] && st.colNull[c] == colNull[c] + [true]
      ensures st.Valid() && st.Rows() == Rows() + [NullRow(types)]
    {
      forall r | 0 <= r < n ensures st.Row(r) == Row(r) {
        assert forall c :: 0 <= c < |types| ==> st.Cell(r, c) == Cell(r, c);
      }
      assert st.Row(n) == NullRow(types);
    }
  }

  class Table {
    const schema: Schema
    const mix: Mixer
    const pkIndex: RowIndex

    var columns: seq<seq<Raw>>
    var colNull: seq<seq<bool>>
    var dead: seq<bool>
    var nDead: nat
    var heap: Bytes
    var failed: bool

    function Contents(): Store
      reads this
    {
      Store(schema.types, columns, colNull, heap, |dead|)
    }

    ghost predicate Stored()
      reads this
    {
      schema.Valid() && Contents().Valid()
    }

    function ReadColumn(r: nat, c: nat): (v: Value)
      requires Stored() && r < |dead| && c < |schema.types|
      reads this
      ensures v == State().rows[r][c]
    {
      Contents().Cell(r, c)
    }

    function State(): (s: TableState)
      requires Stored()
      reads this
      ensures s.Valid() && s.schema == schema && |s.rows| == |dead|
    {
      TableState(schema, Contents().Rows(), dead)
    }

    /** Index completeness: stale pairs are allowed, missing ones are not, and no pair points past the last row. */
    ghost predicate Indexed(rows: seq<Row>)
      reads pkIndex, pkIndex.slots
    {
      && (forall h, r :: pkIndex.Pairs()[Entry(h, r)] > 0 ==> r < |rows|)
      && (schema.pk.Some? && pkIndex.Usable() ==>
            forall r :: 0 <= r < |rows| ==> CellIndexed(r, rows[r]))
    }

    ghost predicate CellIndexed(r: nat, row: Row)
      requires schema.pk.Some?
      reads pkIndex, pkIndex.slots
    {
      schema.pk.value < |row| && !row[schema.pk.value].Null? ==>
        pkIndex.Pairs()[Entry(ValueHash(mix, row[schema.pk.value]), r)] > 0
    }

    /** The index stays complete over a cell write that puts no key it does not hold into the key column. */
    lemma PutKeepsIndexed(rows: seq<Row>, r: nat, c: nat, v: Value)
      requires Indexed(rows) && r < |rows| && c < |rows[r]|
      requires schema.IsPk(c) && pkIndex.Usable() ==> v.Null? || pkIndex.Pairs()[Entry(ValueHash(mix, v), r)] > 0
      ensures Indexed(rows[r := rows[r][c := v]])
    {
      if schema.pk.Some? && pkIndex.Usable() {
        var after := rows[r := rows[r][c := v]];
        forall q | 0 <= q < |after| ensures CellIndexed(q, after[q]) {
          assert CellIndexed(q, rows[q]);
        }
      }
    }

    lemma AppendKeepsIndexed(rows: seq<Row>)
      requires Indexed(rows)
      ensures Indexed(rows + [NullRow(schema.types)])
    {
      if schema.pk.Some? && pkIndex.Usable() {
        forall q | 0 <= q < |rows| ensures CellIndexed(q, (rows + [NullRow(schema.types)])[q]) {
          assert CellIndexed(q, rows[q]);
        }
      }
    }

    ghost predicate Valid()
      reads this, pkIndex, pkIndex.slots
      ensures Valid() ==> Stored()
    {
      && Stored()
      && nDead == CountDead(dead)
      && pkIndex.Valid()
      && Indexed(Contents().Rows())
    }

    ghost function Repr(): set<object>
      reads pkIndex
    {
      {this, pkIndex, pkIndex.slots}
    }

    constructor (schema: Schema, mix: Mixer)
      requires schema.Valid()
      ensures Valid() && fresh(Repr()) && !failed && pkIndex.Pairs() == multiset{}
      ensures State() == TableState(schema, [], []) && this.mix == mix
    {
      this.schema := schema;
      this.mix := mix;
      pkIndex := new RowIndex();
      columns := seq(|schema.types|, _ => []);
      colNull := seq(|schema.types|, _ => []);
      dead := [];
      nDead := 0;
      heap := [];
      failed := false;
    }

    /** No pair points past the last row. */
    lemma NextRowUnnamed()
      requires Valid()
      ensures Unnamed(pkIndex.Pairs(), |dead|)
    {
    }

    /** Adds an all-NULL live row, unless the arena cannot grow. */
    method AppendRow() returns (row: Option<nat>)
      requires Valid()
      modifies this
      ensures Valid() && heap == old(heap)
      ensures row.Some? ==> row == Some(old(|dead|)) && State() == old(State()).AppendNull() && failed == old(failed)
      ensures row.None? ==> State() == old(State()) && failed
    {
      hide Table.Indexed, RowIndex.Valid, CountDead;
      var memory: bool := *;
      if !memory {
        failed := true;
        return None;
      }
      CountDeadAlive(dead);
      row := Some(|dead|);
      ghost var before := Contents();
      columns := seq(|columns|, c requires 0 <= c < |columns| && |columns| == |schema.types| reads this => columns[c] + [ZeroRaw(schema.types[c])]);
      colNull := seq(|colNull|, c requires 0 <= c < |colNull| reads this => colNull[c] + [true]);
      dead := dead + [false];
      before.AppendRows(Contents());
      AppendKeepsIndexed(before.Rows());
      assert dead[..|dead| - 1] == old(dead);
    }

    method DeleteRow(r: nat)
      requires Valid() && r < |dead|
      modifies this`dead, this`nDead
      ensures Valid() && State() == old(State()).SetDead(r, true)
    {
      if dead[r] {
        assert dead[r := true] == dead;
        return;
      }
      CountDeadUpdate(dead, r, true);
      dead := dead[r := true];
      nDead := nDead + 1;
    }

    method UndeleteRow(r: nat)
      requires Valid() && r < |dead|
      modifies this`dead, this`nDead
      ensures Valid() && State() == old(State()).SetDead(r, false)
    {
      if !dead[r] {
        assert dead[r := false] == dead;
        return;
      }
      CountDeadUpdate(dead, r, false);
      dead := dead[r := false];
      nDead := nDead - 1;
    }

    /******* Typed setters *******/

    method SetNull(r: nat, c: nat)
      requires Valid() && r < |dead| && c < |schema.types|
      modifies this`colNull
      ensures Valid() && State() == old(State()).PutCell(r, c, Null(schema.types[c]))
    {
      Contents().SetNullRows(r, c);
      PutKeepsIndexed(Contents().Rows(), r, c, Null(schema.types[c]));
      colNull := colNull[c := colNull[c][r := true]];
    }

    method SetInt(r: nat, c: nat, i: int64)
      requires Valid() && r < |dead| && c < |schema.types| && schema.types[c] == FtInt
      modifies this`columns, this`colNull, this`failed, pkIndex, pkIndex.slots
      ensures Valid() && State() == old(State()).PutCell(r, c, Int(i))
      ensures PairWritten(old(pkIndex.Pairs()), pkIndex.Pairs(), ValueHash(mix, Int(i)), r, schema.IsPk(c), pkIndex.degraded)
      ensures (old(failed) ==> failed) && (pkIndex.slots == old(pkIndex.slots) || fresh(pkIndex.slots))
    {
      StoreCell(r, c, RawInt(i));
    }

    method SetDouble(r: nat, c: nat, d: Double)
      requires Valid() && r < |dead| && c < |schema.types| && schema.types[c] == FtDouble
      modifies this`columns, this`colNull, this`failed, pkIndex, pkIndex.slots
      ensures Valid() && State() == old(State()).PutCell(r, c, Dbl(d))
      ensures PairWritten(old(pkIndex.Pairs()), pkIndex.Pairs(), ValueHash(mix, Dbl(d)), r, schema.IsPk(c), pkIndex.degraded)
      ensures (old(failed) ==> failed) && (pkIndex.slots == old(pkIndex.slots) || fresh(pkIndex.slots))
    {
      StoreCell(r, c, RawDouble(d));
    }

    method SetBool(r: nat, c: nat, b: bool)
      requires Valid() && r < |dead| && c < |schema.types| && schema.types[c] == FtBool
      modifies this`columns, this`colNull, this`failed, pkIndex, pkIndex.slots
      ensures Valid() && State() == old(State()).PutCell(r, c, Bool(b))
      ensures PairWritten(old(pkIndex.Pairs()), pkIndex.Pairs(), ValueHash(mix, Bool(b)), r, schema.IsPk(c), pkIndex.degraded)
      ensures (old(failed) ==> failed) && (pkIndex.slots == old(pkIndex.slots) || fresh(pkIndex.slots))
    {
      StoreCell(r, c, RawBool(b));
    }

    /** Appends the text to the heap. It fails, setting nothing, when the text or the heap outgrows 32 bits or memory runs out. */
    method SetText(r: nat, c: nat, s: Bytes)
      requires Valid() && r < |dead| && c < |schema.types| && schema.types[c] == FtText
      modifies this`columns, this`colNull, this`heap, this`failed, pkIndex, pkIndex.slots
      ensures Valid() && old(heap) <= heap
      ensures State() == old(State()).PutCell(r, c, Text(s)) || (failed && State() == old(State()))
      ensures pkIndex.Pairs() == old(pkIndex.Pairs())
           || PairWritten(old(pkIndex.Pairs()), pkIndex.Pairs(), ValueHash(mix, Text(s)), r, schema.IsPk(c), pkIndex.degraded)
      ensures (old(failed) ==> failed) && (pkIndex.slots == old(pkIndex.slots) || fresh(pkIndex.slots))
    {
      hide Table.Valid, Table.Stored, Store.Valid, Table.State, RowIndex.Valid, RowIndex.Pairs;
      var offset := HeapAppend(s);
      if offset.Some? {
        StoreCell(r, c, RawText(offset.value, |s|));
      }
    }

    /** Where the text landed, unless it or the heap is too long or memory runs out. */
    method HeapAppend(s: Bytes) returns (offset: Option<nat>)
      requires Valid()
      modifies this`heap, this`failed
      ensures Valid() && old(heap) <= heap && State() == old(State())
      ensures offset.Some? ==> failed == old(failed) && offset.value + |s| <= |heap| && heap[offset.value..offset.value + |s|] == s
      ensures offset.None? ==> failed
    {
      hide Table.Indexed;
      var memory: bool := *;
      if |s| >= TWO_32 || !memory {
        failed := true;
        return None;
      }
      offset := Some(|heap|);
      Contents().HeapGrowthKeepsRows(s);
      heap := heap + s;
      if offset.value >= TWO_32 {
        failed := true;
        offset := None;
      }
    }

    /** Restores a reference captured earlier; the heap only grows, so it still denotes the same text. */
    method SetTextRef(r: nat, c: nat, offset: nat, len: nat)
      requires Valid() && r < |dead| && c < |schema.types| && schema.types[c] == FtText
      requires offset + len <= |heap|
      modifies this`columns, this`colNull, this`failed, pkIndex, pkIndex.slots
      ensures Valid() && State() == old(State()).PutCell(r, c, Text(heap[offset..offset + len]))
      ensures PairWritten(old(pkIndex.Pairs()), pkIndex.Pairs(), ValueHash(mix, Text(heap[offset..offset + len])), r, schema.IsPk(c), pkIndex.degraded)
      ensures (old(failed) ==> failed) && (pkIndex.slots == old(pkIndex.slots) || fresh(pkIndex.slots))
    {
      StoreCell(r, c, RawText(offset, len));
    }

    /** Writes a non-null cell and, in the primary-key column, adds its pair to the index. */
    method StoreCell(r: nat, c: nat, raw: Raw)
      requires Valid() && r < |dead| && c < |schema.types| && RawFits(schema.types[c], raw, |heap|)
      modifies this`columns, this`colNull, this`failed, pkIndex, pkIndex.slots
      ensures Valid() && State() == old(State()).PutCell(r, c, Resolve(raw, heap))
      ensures PairWritten(old(pkIndex.Pairs()), pkIndex.Pairs(), ValueHash(mix, Resolve(raw, heap)), r, schema.IsPk(c), pkIndex.degraded)
      ensures (old(failed) ==> failed) && (pkIndex.slots == old(pkIndex.slots) || fresh(pkIndex.slots))
    {
      hide Table.Indexed;
      ghost var rows := Contents().Rows();
      Contents().PutRows(r, c, false, raw);
      columns := columns[c := columns[c][r := raw]];
      colNull := colNull[c := colNull[c][r := false]];
      if schema.IsPk(c) {
        IndexCell(r, c, rows);
      }
      PutKeepsIndexed(rows, r, c, Resolve(raw, heap));
    }

    method IndexCell(r: nat, c: nat, ghost rows: seq<Row>)
      requires Stored() && pkIndex.Valid() && r < |dead| && schema.IsPk(c) && !colNull[c][r]
      modifies this`failed, pkIndex, pkIndex.slots
      ensures pkIndex.Valid() && (pkIndex.slots == old(pkIndex.slots) || fresh(pkIndex.slots))
      ensures old(failed) ==> failed
      ensures old(pkIndex.degraded) ==> pkIndex.degraded
      ensures old(Indexed(rows)) && r < |rows| ==> Indexed(rows)
      ensures var e := Entry(ValueHash(mix, Contents().Cell(r, c)), r);
        pkIndex.Pairs() == old(pkIndex.Pairs()) + multiset{e} || (pkIndex.Pairs() == old(pkIndex.Pairs()) && pkIndex.degraded)
    {
      var memory: bool := *;
      pkIndex.Insert(ValueHash(mix, ReadColumn(r, c)), r, memory);
      if !memory {
        failed := true;
      }
    }

    /******* The checks and lookups the index serves *******/

    /** No missed match: an index that is usable shows every row whose key equals v. */
    lemma MatchIsVisited(c: nat, v: Value, r: nat)
      requires Valid() && schema.IsPk(c) && pkIndex.Usable()
      requires State().Holds(r, c, v)
      ensures !v.Null? && r in Visits(pkIndex.slots[..], ValueHash(mix, v))
    {
      var cell := State().Cell(r, c);
      EqualCellsHashAlike(mix, v, cell);
      assert CellIndexed(r, Contents().Rows()[r]);
      VisitsRefineBag(pkIndex.slots[..], ValueHash(mix, v), r);
    }

    method ColumnHasDuplicate(c: nat, row: nat) returns (found: bool)
      requires Valid() && row < |dead| && c < |schema.types|
      ensures found <==> State().HasDuplicate(c, row)
    {
      hide Table.Indexed, RowIndex.Valid;
      var s := State();
      var v := ReadColumn(row, c);
      assert s.HasCell(row, c) && v == s.Cell(row, c);
      if v.Null? {
        return false;
      }
      if schema.IsPk(c) && pkIndex.Usable() {
        var stop := (r: nat) => r != row && s.Holds(r, c, v);
        var visited := pkIndex.Find(ValueHash(mix, v), stop);
        VisitsUntilFindsAny(pkIndex.slots[..], ValueHash(mix, v), stop);
        if r :| r != row && s.Holds(r, c, v) {
          MatchIsVisited(c, v, r);
          assert stop(r);
        }
        return EndsIn(visited, stop);
      }
      var r := 0;
      while r < |dead|
        invariant r <= |dead|
        invariant forall q :: 0 <= q < r && q != row ==> !s.Holds(q, c, v)
      {
        if r != row && s.Holds(r, c, v) {
          return true;
        }
        r := r + 1;
      }
      return false;
    }

    /** Used with a referencing cell v, which its callers have checked not to be null. */
    method HasMatchingValue(c: nat, v: Value) returns (found: bool)
      requires Valid() && c < |schema.types| && !v.Null?
      ensures found <==> State().HasMatch(c, v)
    {
      hide Table.Indexed, RowIndex.Valid;
      var s := State();
      if schema.types[c] != v.Kind() {
        assert forall r :: s.Live(r) ==> s.rows[r][c].Kind() == schema.types[c];
        return false;
      }
      if schema.IsPk(c) && pkIndex.Usable() {
        var stop := (r: nat) => s.Holds(r, c, v);
        var visited := pkIndex.Find(ValueHash(mix, v), stop);
        VisitsUntilFindsAny(pkIndex.slots[..], ValueHash(mix, v), stop);
        if r :| s.Holds(r, c, v) {
          MatchIsVisited(c, v, r);
        }
        return EndsIn(visited, stop);
      }
      var r := 0;
      while r < |dead|
        invariant r <= |dead|
        invariant forall q :: 0 <= q < r ==> !s.Holds(q, c, v)
      {
        if s.Holds(r, c, v) {
          return true;
        }
        r := r + 1;
      }
      return false;
    }

    /** Candidate rows for a key hash, in probe order, stale and repeated pairs included. */
    method FindByPkHash(hash: nat) returns (rows: seq<nat>)
      requires Valid()
      ensures rows == Visits(pkIndex.slots[..], hash)
      ensures forall r :: r in rows ==> r < |dead|
    {
      var never := (r: nat) => false;
      rows := pkIndex.Find(hash, never);
      VisitsUntilFindsAny(pkIndex.slots[..], hash, never);
      forall r | r in rows ensures r < |dead| {
        VisitsRefineBag(pkIndex.slots[..], hash, r);
      }
    }

    /******* Compaction *******/

    /** Slides the live rows down over the tombstones and rebuilds the index from nothing. */
    method Compact()
      requires Valid()
      modifies this`columns, this`colNull, this`dead, this`nDead, this`failed, pkIndex
      ensures Valid() && nDead == 0 && fresh(pkIndex.slots) && (old(failed) ==> failed) && DistinctPairs(pkIndex.Pairs())
      ensures var live := LiveRows(old(State()).rows, old(dead));
        State() == TableState(schema, live, seq(|live|, _ => false))
    {
      hide Store.Valid, Table.Indexed, RowIndex.Valid, LiveRows;
      ghost var rows := Contents().Rows();
      LiveRowsOfNone(rows, dead);
      var dest, row := 0, 0;
      while row < |dead|
        invariant dest <= row <= |dead| && dead == old(dead) && Stored() && failed == old(failed)
        invariant Contents().Rows()[..dest] == LiveRows(rows[..row], dead[..row])
        invariant Contents().Rows()[row..] == rows[row..]
      {
        LiveRowsStep(rows, dead, row);
        SlideStep(Contents().Rows(), rows, row, dest);
        if !dead[row] {
          MoveRow(row, dest);
          dest := dest + 1;
        }
        row := row + 1;
      }
      assert rows[..row] == rows && dead[..row] == dead;
      Truncate(dest);
      RebuildIndex();
    }

    method MoveRow(from: nat, to: nat)
      requires Stored() && to <= from < |dead|
      modifies this`columns, this`colNull
      ensures Stored() && Contents().Rows() == old(Contents().Rows())[to := old(Contents().Rows())[from]]
    {
      hide Store.Valid, Blend;
      ghost var rows := Contents().Rows();
      if from == to {
        return;
      }
      BlendEnds(rows[from], rows[to]);
      var c := 0;
      while c < |schema.types|
        invariant c <= |schema.types| && Stored()
        invariant Contents().Rows() == rows[to := Blend(rows[from], rows[to], c)]
      {
        CopyCell(from, to, c);
        BlendStep(rows[from], rows[to], c);
        c := c + 1;
      }
    }

    method CopyCell(from: nat, to: nat, c: nat)
      requires Stored() && to < |dead| && from < |dead| && c < |schema.types|
      modifies this`columns, this`colNull
      ensures Stored()
      ensures var rows := old(Contents().Rows()); Contents().Rows() == rows[to := rows[to][c := rows[from][c]]]
    {
      Contents().PutRows(to, c, colNull[c][from], columns[c][from]);
      assert Contents().Rows()[from][c] == Contents().Cell(from, c);
      columns, colNull := columns[c := columns[c][to := columns[c][from]]], colNull[c := colNull[c][to := colNull[c][from]]];
    }

    method Truncate(k: nat)
      requires Stored() && k <= |dead|
      modifies this`columns, this`colNull, this`dead, this`nDead
      ensures Stored() && nDead == CountDead(dead) == 0 && dead == seq(k, _ => false)
      ensures Contents().Rows() == old(Contents().Rows())[..k]
    {
      ghost var before := Contents();
      columns := seq(|columns|, c requires 0 <= c < |columns| && k <= |columns[c]| reads this => columns[c][..k]);
      colNull := seq(|colNull|, c requires 0 <= c < |colNull| && k <= |colNull[c]| reads this => colNull[c][..k]);
      dead := seq(k, _ => false);
      nDead := 0;
      NoneDead(dead);
      before.TruncateRows(Contents(), k);
    }

    method RebuildIndex()
      requires Stored() && nDead == CountDead(dead)
      modifies this`failed, pkIndex
      ensures Valid() && fresh(pkIndex.slots) && (old(failed) ==> failed) && DistinctPairs(pkIndex.Pairs())
    {
      hide Store.Valid;
      pkIndex.Clear();
      if schema.pk.None? {
        return;
      }
      ghost var rows := Contents().Rows();
      var r := 0;
      while r < |dead|
        invariant r <= |dead| && pkIndex.Valid() && fresh(pkIndex.slots)
        invariant DistinctPairs(pkIndex.Pairs()) && forall h, q :: pkIndex.Pairs()[Entry(h, q)] > 0 ==> q < r
        invariant pkIndex.Usable() ==> forall q :: 0 <= q < r ==> CellIndexed(q, rows[q])
        invariant old(failed) ==> failed
      {
        IndexRow(r);
        r := r + 1;
      }
    }

    method IndexRow(r: nat)
      requires Stored() && pkIndex.Valid() && r < |dead| && schema.pk.Some?
      modifies this`failed, pkIndex, pkIndex.slots
      ensures pkIndex.Valid() && (pkIndex.slots == old(pkIndex.slots) || fresh(pkIndex.slots))
      ensures (old(failed) ==> failed) && (old(pkIndex.degraded) ==> pkIndex.degraded)
      ensures pkIndex.Usable() ==> CellIndexed(r, Contents().Rows()[r])
      ensures forall e :: old(pkIndex.Pairs())[e] <= pkIndex.Pairs()[e]
      ensures forall h, q :: pkIndex.Pairs()[Entry(h, q)] > 0 ==> q == r || old(pkIndex.Pairs())[Entry(h, q)] > 0
      ensures DistinctPairs(old(pkIndex.Pairs())) && Unnamed(old(pkIndex.Pairs()), r) ==> DistinctPairs(pkIndex.Pairs())
    {
      if !colNull[schema.pk.value][r] {
        IndexCell(r, schema.pk.value, Contents().Rows());
      }
    }

    /**
     Copies every text into a fresh heap, back to back, and redirects the references. Offsets
     are stored in 32 bits, so only a heap of at most 2^32 bytes keeps all its text.
     */
    method CompactHeap()
      requires Valid() && nDead == 0
      modifies this`columns, this`heap, this`failed
      ensures Valid() || |heap| > TWO_32
      ensures Stored() && (|heap| <= TWO_32 ==> State() == old(State()))
      ensures failed || |heap| == AllText(old(columns))
      ensures old(failed) ==> failed
    {
      hide Table.Indexed;
      var memory: bool := *;
      if !memory {
        failed := true;
        return;
      }
      ghost var was := Contents();
      var newData := RedirectText();
      heap := newData;
      was.MovedRows(Contents());
    }

    method RedirectText() returns (newData: Bytes)
      requires Stored()
      modifies this`columns
      ensures |columns| == |schema.types| && |newData| == AllText(old(columns))
      ensures forall c :: 0 <= c < |columns| ==> ColumnMoved(schema.types[c], columns[c], old(columns[c]), newData, heap)
    {
      ghost var was := Contents();
      newData := [];
      var c := 0;
      while c < |schema.types|
        invariant c <= |schema.types| == |columns|
        invariant forall d :: 0 <= d < c ==> ColumnMoved(schema.types[d], columns[d], was.columns[d], newData, heap)
        invariant forall d :: c <= d < |columns| ==> columns[d] == was.columns[d]
        invariant |newData| == AllText(was.columns[..c])
      {
        ghost var before := newData;
        assert was.columns[..c + 1][..c] == was.columns[..c];
        assert forall r :: 0 <= r < |dead| ==> RawFits(was.types[c], was.columns[c][r], |heap|);
        if schema.types[c] == FtText {
          var refs: seq<Raw>;
          refs, newData := MoveColumn(columns[c], newData);
          columns := columns[c := refs];
          forall d | 0 <= d < c {
            ColumnMovedExtends(schema.types[d], columns[d], was.columns[d], before, newData, heap);
          }
        } else {
          NoText(schema.types[c], columns[c], |heap|);
        }
        c := c + 1;
      }
      assert was.columns[..c] == was.columns;
    }

    /** Appends one column's texts to data and returns the column pointing at them. */
    method MoveColumn(column: seq<Raw>, data: Bytes) returns (refs: seq<Raw>, newData: Bytes)
      requires forall r :: 0 <= r < |column| ==> RawFits(FtText, column[r], |heap|)
      ensures data <= newData && |newData| == |data| + ColumnText(column)
      ensures ColumnMoved(FtText, refs, column, newData, heap)
    {
      hide ColumnMoved, ColumnText, RawMoved;
      newData, refs := data, column;
      NothingMoved(column, newData, heap);
      var r := 0;
      while r < |refs|
        invariant r <= |refs| == |column| && refs[r..] == column[r..]
        invariant data <= newData && |newData| == |data| + ColumnText(column[..r])
        invariant ColumnMoved(FtText, refs[..r], column[..r], newData, heap)
      {
        var ref := refs[r];
        assert ref == refs[r..][0] == column[r..][0] == column[r];
        OneMoreMoved(refs, column, r, newData, heap);
        refs := refs[r := RawText(|newData| % TWO_32, ref.len)];
        newData := newData + heap[ref.offset..ref.offset + ref.len];
        r := r + 1;
      }
      assert column[..r] == column && refs[..r] == refs;
    }
  }

  lemma NothingMoved(column: seq<Raw>, data: Bytes, heap: Bytes)
    ensures ColumnMoved(FtText, column[..0], column[..0], data, heap) && ColumnText(column[..0]) == 0
  {
  }

  lemma OneMoreMoved(refs: seq<Raw>, column: seq<Raw>, r: nat, data: Bytes, heap: Bytes)
    requires r < |refs| == |column| && refs[r..] == column[r..] && RawFits(FtText, column[r], |heap|)
    requires ColumnMoved(FtText, refs[..r], column[..r], data, heap)
    ensures var ref := column[r];
      var moved, grown := refs[r := RawText(|data| % TWO_32, ref.len)], data + heap[ref.offset..ref.offset + ref.len];
      && ColumnMoved(FtText, moved[..r + 1], column[..r + 1], grown, heap)
      && moved[r + 1..] == column[r + 1..] && ColumnText(column[..r + 1]) == ColumnText(column[..r]) + ref.len
  {
    var ref := column[r];
    var grown, to := data + heap[ref.offset..ref.offset + ref.len], RawText(|data| % TWO_32, ref.len);
    ColumnMovedExtends(FtText, refs[..r], column[..r], data, grown, heap);
    assert grown[|data|..] == heap[ref.offset..ref.offset + ref.len];
    assert RawMoved(FtText, to, ref, grown, heap);
    assert column[..r + 1][..r] == column[..r];
    assert refs[r := to][..r + 1] == refs[..r] + [to];
    assert refs[r := to][r + 1..] == refs[r..][1..] == column[r..][1..];
  }

  lemma SlideStep(now: seq<Row>, rows: seq<Row>, row: nat, dest: nat)
    requires dest <= row < |now| == |rows| && now[row..] == rows[row..]
    ensures now[row] == rows[row] && now[row + 1..] == rows[row + 1..]
    ensures now[dest := now[row]][row + 1..] == rows[row + 1..]
    ensures now[dest := now[row]][..dest + 1] == now[..dest] + [rows[row]]
  {
    assert now[row..][0] == rows[row..][0];
    assert now[row..][1..] == now[row + 1..] && rows[row..][1..] == rows[row + 1..];
  }

  /** The first c cells of a, then the rest of b. */
  function Blend(a: Row, b: Row, c: nat): Row
    requires c <= |a| == |b|
  {
    a[..c] + b[c..]
  }

  lemma BlendEnds(a: Row, b: Row)
    requires |a| == |b|
    ensures Blend(a, b, 0) == b && Blend(a, b, |a|) == a
  {
  }

  lemma BlendStep(a: Row, b: Row, c: nat)
    requires c < |a| == |b|
    ensures Blend(a, b, c)[c := a[c]] == Blend(a, b, c + 1)
  {
  }

  /** A cell redirected into data reads as before, as long as data fits 32-bit offsets. */
  ghost predicate RawMoved(kind: FieldType, raw: Raw, was: Raw, data: Bytes, heap: Bytes) {
    && RawFits(kind, raw, |data|)
    && RawFits(kind, was, |heap|)
    && (|data| <= TWO_32 ==> Resolve(raw, data) == Resolve(was, heap))
  }

  ghost predicate ColumnMoved(kind: FieldType, column: seq<Raw>, was: seq<Raw>, data: Bytes, heap: Bytes) {
    |column| == |was| && forall r :: 0 <= r < |column| ==> RawMoved(kind, column[r], was[r], data, heap)
  }

  lemma ColumnMovedExtends(kind: FieldType, column: seq<Raw>, was: seq<Raw>, data: Bytes, grown: Bytes, heap: Bytes)
    requires ColumnMoved(kind, column, was, data, heap) && data <= grown
    ensures ColumnMoved(kind, column, was, grown, heap)
  {
    forall r | 0 <= r < |column| ensures RawMoved(kind, column[r], was[r], grown, heap) {
      assert RawMoved(kind, column[r], was[r], data, heap);
      var raw := column[r];
      if raw.RawText? {
        assert grown[raw.offset..raw.offset + raw.len] == data[raw.offset..raw.offset + raw.len];
      }
    }
  }

  function TextLen(raw: Raw): nat {
    if raw.RawText? then raw.len else 0
  }

  function ColumnText(column: seq<Raw>): nat {
    if column == [] then 0 else ColumnText(column[..|column| - 1]) + TextLen(column[|column| - 1])
  }

  function AllText(columns: seq<seq<Raw>>): nat {
    if columns == [] then 0 else AllText(columns[..|columns| - 1]) + ColumnText(columns[|columns| - 1])
  }

  lemma {:induction false} NoText(kind: FieldType, column: seq<Raw>, heapLen: nat)
    requires kind != FtText && forall r :: 0 <= r < |column| ==> RawFits(kind, column[r], heapLen)
    ensures ColumnText(column) == 0
  {
    if column != [] {
      NoText(kind, column[..|column| - 1], heapLen);
    }
  }
}
