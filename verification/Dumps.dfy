/**
 What a table's rows become when a checkpoint writes them to the base file and a later load reads
 them: cell by cell, and as the bytes of the CSV file between.
 */
module Dumps {
  import opened Values
  import opened TableStates
  import Csv

  /******* Rows *******/

  predicate IsFinite(d: Double) {
    d % TWO_63 < INFINITY
  }

  /** An empty text without quotes is read as NULL, a text ends at its first NUL, and inf and nan are no numbers to the reader. */
  function DumpedCell(v: Value): (r: Value)
    ensures r.Kind() == v.Kind()
  {
    match v
    case Dbl(d) => if IsFinite(d) then v else Null(FtDouble)
    case Text(s) =>
      var text := Csv.CString(s);
      if text == [] && !Csv.NeedsQuotes(s) then Null(FtText) else Text(text)
    case _ => v
  }

  function DumpedRow(row: Row): (r: Row)
    ensures |r| == |row| && forall c :: 0 <= c < |row| ==> r[c] == DumpedCell(row[c])
  {
    seq(|row|, c requires 0 <= c < |row| => DumpedCell(row[c]))
  }

  predicate TooLong(v: Value) {
    v.Text? && |v.s| > Csv.MAX_FIELD
  }

  /** The reader skips a row with a field over its limit. */
  predicate Skipped(row: Row) {
    exists c :: 0 <= c < |row| && TooLong(row[c])
  }

  function DumpedRows(rows: seq<Row>): (r: seq<Row>)
    ensures |r| <= |rows|
  {
    if rows == [] then []
    else
      var rest, last := DumpedRows(rows[..|rows| - 1]), rows[|rows| - 1];
      if Skipped(last) then rest else rest + [DumpedRow(last)]
  }

  /** Cells that come back as they were. */
  predicate Storable(v: Value) {
    match v
    case Dbl(d) => IsFinite(d)
    case Text(s) => s != [] && 0 !in s && |s| <= Csv.MAX_FIELD
    case _ => true
  }

  predicate StorableRow(row: Row) {
    forall c :: 0 <= c < |row| ==> Storable(row[c])
  }

  lemma {:induction false} CStringEndsAtNul(s: Bytes)
    ensures 0 !in Csv.CString(s) && (Csv.CString(s) == s <==> 0 !in s)
  {
    if s != [] && s[0] != 0 {
      CStringEndsAtNul(s[1..]);
    }
  }

  lemma StorableExactly(v: Value)
    ensures Storable(v) <==> DumpedCell(v) == v && !TooLong(v)
  {
    if v.Text? {
      CStringEndsAtNul(v.s);
    }
  }

  lemma StorableRowExactly(row: Row)
    ensures StorableRow(row) <==> DumpedRow(row) == row && !Skipped(row)
  {
    forall c | 0 <= c < |row| ensures Storable(row[c]) <==> DumpedRow(row)[c] == row[c] && !TooLong(row[c]) {
      StorableExactly(row[c]);
    }
  }

  /** Rows survive a dump exactly if each of their cells does. */
  lemma {:induction false} DumpKeepsExactly(rows: seq<Row>)
    ensures DumpedRows(rows) == rows <==> forall k :: 0 <= k < |rows| ==> StorableRow(rows[k])
  {
    hide StorableRow, Skipped, DumpedRow;
    if rows != [] {
      var rest, last := rows[..|rows| - 1], rows[|rows| - 1];
      DumpKeepsExactly(rest);
      StorableRowExactly(last);
      assert rows == rest + [last];
      assert |DumpedRows(rest)| <= |rest|;
      if DumpedRows(rows) == rows {
        assert DumpedRows(rest) + [DumpedRow(last)] == rest + [last];
        assert DumpedRows(rest) == (rest + [last])[..|rest|] == rest;
      }
    }
  }

  lemma DumpOneMore(rows: seq<Row>, dead: seq<bool>, r: nat)
    requires r < |rows| == |dead|
    ensures DumpedRows(LiveRows(rows[..r + 1], dead[..r + 1])) == DumpedRows(LiveRows(rows[..r], dead[..r])) +
      if dead[r] || Skipped(rows[r]) then [] else [DumpedRow(rows[r])]
  {
    hide Skipped, DumpedRow, DumpedRows, LiveRows;
    var kept := LiveRows(rows[..r], dead[..r]);
    LiveRowsStep(rows, dead, r);
    DumpSnoc(kept, rows[r]);
    assert kept + [] == kept && DumpedRows(kept) + [] == DumpedRows(kept);
  }

  lemma DumpOfNone(rows: seq<Row>, dead: seq<bool>)
    requires |rows| == |dead|
    ensures DumpedRows(LiveRows(rows[..0], dead[..0])) == []
  {
  }

  lemma DumpSnoc(rows: seq<Row>, last: Row)
    ensures DumpedRows(rows + [last]) == DumpedRows(rows) + if Skipped(last) then [] else [DumpedRow(last)]
  {
    hide Skipped, DumpedRow;
    assert (rows + [last])[..|rows|] == rows;
  }

  lemma {:induction false} DumpFits(types: seq<FieldType>, rows: seq<Row>)
    requires forall k :: 0 <= k < |rows| ==> RowFits(types, rows[k])
    ensures forall k :: 0 <= k < |DumpedRows(rows)| ==> RowFits(types, DumpedRows(rows)[k])
  {
    if rows != [] {
      DumpFits(types, rows[..|rows| - 1]);
    }
  }

  lemma {:induction false} DumpIsEmptyExactly(rows: seq<Row>)
    ensures DumpedRows(rows) == [] <==> forall k :: 0 <= k < |rows| ==> Skipped(rows[k])
  {
    hide Skipped;
    if rows != [] {
      DumpIsEmptyExactly(rows[..|rows| - 1]);
      assert rows == rows[..|rows| - 1] + [rows[|rows| - 1]];
    }
  }

  /******* The bytes between *******/

  /** How a number is printed and how the reader converts a field; None for a field that does not validate. */
  datatype Format = Format(digits: Value -> Bytes, parse: (Bytes, FieldType) -> Option<Value>)

  predicate Bare(s: Bytes) {
    s != [] && 0 !in s && !Csv.NeedsQuotes(s) && Csv.Carried(s)
  }

  /** What is assumed of number formats: digits bring an INT and a finite DOUBLE back, inf and nan do not validate. */
  ghost predicate Faithful(f: Format) {
    && (forall v: Value :: v.Int? || v.Dbl? ==> Bare(f.digits(v)))
    && (forall i: int64 :: f.parse(f.digits(Int(i)), FtInt) == Some(Int(i)))
    && (forall d: Double :: f.parse(f.digits(Dbl(d)), FtDouble) == if IsFinite(d) then Some(Dbl(d)) else None)
  }

  const TRUE: Bytes := [116, 114, 117, 101]
  const FALSE: Bytes := [102, 97, 108, 115, 101]

  function Lower(s: Bytes): Bytes {
    seq(|s|, k requires 0 <= k < |s| => if 65 <= s[k] <= 90 then s[k] + 32 else s[k])
  }

  /** dump_cell. */
  function FieldOf(f: Format, v: Value): Bytes {
    match v
    case Null(_) => []
    case Bool(b) => if b then TRUE else FALSE
    case Text(s) => s
    case _ => f.digits(v)
  }

  function FieldsOf(f: Format, row: Row): (fields: seq<Bytes>)
    ensures |fields| == |row| && forall c :: 0 <= c < |row| ==> fields[c] == FieldOf(f, row[c])
  {
    seq(|row|, c requires 0 <= c < |row| => FieldOf(f, row[c]))
  }

  /** set_cell, for a field that load_row does not pass over as NULL. */
  function LoadedCell(f: Format, kind: FieldType, field: Csv.Field): Value {
    if field.text == [] && !field.quoted then Null(kind)
    else
      match kind
      case FtText => Text(field.text)
      case FtBool => if Lower(field.text) == TRUE then Bool(true) else if Lower(field.text) == FALSE then Bool(false) else Null(FtBool)
      case _ =>
        var v := f.parse(field.text, kind);
        if v.Some? && v.value.Kind() == kind then v.value else Null(kind)
  }

  /** load_row. */
  function LoadedRow(f: Format, types: seq<FieldType>, fields: seq<Csv.Field>): (row: Row)
    ensures |row| == |types|
  {
    seq(|types|, c requires 0 <= c < |types| => if c < |fields| then LoadedCell(f, types[c], fields[c]) else Null(types[c]))
  }

  function LoadedRows(f: Format, types: seq<FieldType>, records: seq<seq<Csv.Field>>): (rows: seq<Row>)
    ensures |rows| == |records|
  {
    seq(|records|, k requires 0 <= k < |records| => LoadedRow(f, types, records[k]))
  }

  function Records(f: Format, rows: seq<Row>): (records: seq<seq<Bytes>>)
    ensures |records| == |rows| && forall k :: 0 <= k < |rows| ==> records[k] == FieldsOf(f, rows[k])
  {
    seq(|rows|, k requires 0 <= k < |rows| => FieldsOf(f, rows[k]))
  }

  lemma BareIsRead(s: Bytes)
    requires Bare(s)
    ensures Csv.FieldAsRead(s) == Csv.Field(s, false)
  {
    CStringEndsAtNul(s);
  }

  lemma CellComesBack(f: Format, v: Value)
    requires Faithful(f)
    ensures LoadedCell(f, v.Kind(), Csv.FieldAsRead(FieldOf(f, v))) == DumpedCell(v)
    ensures Csv.Carried(FieldOf(f, v)) <==> !TooLong(v)
  {
    match v {
      case Bool(b) =>
        BoolComesBack(f, b);
      case Int(_) =>
        BareIsRead(f.digits(v));
      case Dbl(_) =>
        BareIsRead(f.digits(v));
      case _ =>
    }
  }

  lemma WordIsBare(b: bool)
    ensures Bare(if b then TRUE else FALSE)
  {
  }

  lemma BoolComesBack(f: Format, b: bool)
    ensures LoadedCell(f, FtBool, Csv.FieldAsRead(FieldOf(f, Bool(b)))) == Bool(b) && Csv.Carried(FieldOf(f, Bool(b)))
  {
    hide Csv.CString, Csv.NeedsQuotes;
    WordIsBare(b);
    BareIsRead(FieldOf(f, Bool(b)));
    assert Lower(TRUE) == TRUE && Lower(FALSE) == FALSE && TRUE[0] != FALSE[0];
  }

  lemma RowComesBack(f: Format, types: seq<FieldType>, row: Row)
    requires Faithful(f) && RowFits(types, row)
    ensures LoadedRow(f, types, Csv.AsRead(FieldsOf(f, row))) == DumpedRow(row)
    ensures Csv.AllCarried(FieldsOf(f, row)) <==> !Skipped(row)
  {
    hide Faithful, LoadedCell, DumpedCell, FieldOf, TooLong, Csv.Carried, Csv.FieldAsRead;
    forall c | 0 <= c < |row|
      ensures LoadedCell(f, types[c], Csv.FieldAsRead(FieldsOf(f, row)[c])) == DumpedCell(row[c])
      ensures Csv.Carried(FieldsOf(f, row)[c]) <==> !TooLong(row[c]) {
      CellComesBack(f, row[c]);
    }
  }

  lemma {:induction false} ReadableSnoc(records: seq<seq<Bytes>>, last: seq<Bytes>)
    ensures Csv.Readable(records + [last]) == Csv.Readable(records) + if Csv.AllCarried(last) then [Csv.AsRead(last)] else []
  {
    hide Csv.AllCarried, Csv.AsRead;
    if records == [] {
      assert records + [last] == [last] && [last][1..] == [];
    } else {
      ReadableSnoc(records[1..], last);
      assert (records + [last])[1..] == records[1..] + [last];
    }
  }

  lemma {:induction false} RowsComeBack(f: Format, types: seq<FieldType>, rows: seq<Row>)
    requires Faithful(f) && forall k :: 0 <= k < |rows| ==> RowFits(types, rows[k])
    ensures LoadedRows(f, types, Csv.Readable(Records(f, rows))) == DumpedRows(rows)
  {
    hide Faithful, RowFits, Skipped, LoadedRow, DumpedRow, Csv.AllCarried, Csv.AsRead;
    if rows == [] {
      assert Records(f, rows) == [];
      assert Csv.Readable([]) == [];
    } else {
      var rest, last := rows[..|rows| - 1], rows[|rows| - 1];
      RowsComeBack(f, types, rest);
      RowComesBack(f, types, last);
      ReadableSnoc(Records(f, rest), FieldsOf(f, last));
      assert Records(f, rows) == Records(f, rest) + [FieldsOf(f, last)];
    }
  }

  lemma RecordLengths(f: Format, header: seq<Bytes>, types: seq<FieldType>, rows: seq<Row>)
    requires |header| == |types| && forall k :: 0 <= k < |rows| ==> RowFits(types, rows[k])
    ensures var records := [header] + Records(f, rows); forall k :: 0 <= k < |records| ==> |records[k]| == |types|
  {
    var records := [header] + Records(f, rows);
    forall k | 0 <= k < |records| ensures |records[k]| == |types| {
      assert k > 0 ==> records[k] == Records(f, rows)[k - 1] && RowFits(types, rows[k - 1]);
    }
  }

  lemma HeaderIsRead(header: seq<Bytes>, records: seq<seq<Bytes>>)
    requires Csv.AllCarried(header)
    ensures Csv.Readable([header] + records) == [Csv.AsRead(header)] + Csv.Readable(records)
    ensures ([Csv.AsRead(header)] + Csv.Readable(records))[1..] == Csv.Readable(records)
  {
    hide Csv.AllCarried, Csv.AsRead;
    assert ([header] + records)[1..] == records;
  }

  /** The file a checkpoint writes is read as its header and the dumped rows. */
  lemma DumpIsRead(f: Format, header: seq<Bytes>, types: seq<FieldType>, rows: seq<Row>)
    requires Faithful(f) && |header| == |types| > 0 && Csv.AllCarried(header)
    requires forall k :: 0 <= k < |rows| ==> RowFits(types, rows[k])
    requires !Csv.HasBom(Csv.FileBytes([header] + Records(f, rows)))
    ensures var file := Csv.FileBytes([header] + Records(f, rows));
      var taken := Csv.Rows(file, Csv.Start(file), 1, 0);
      taken != [] && taken[0] == Csv.AsRead(header) && LoadedRows(f, types, taken[1..]) == DumpedRows(rows)
  {
    hide Faithful, Csv.FileBytes, Csv.Rows, Csv.AsRead, Csv.AllCarried, LoadedRow, Csv.Readable, DumpedRows, RowFits;
    var records := [header] + Records(f, rows);
    var file := Csv.FileBytes(records);
    assert file[0..] == file;
    RecordLengths(f, header, types, rows);
    Csv.WrittenRows(file, Csv.Start(file), 1, records, |types|, 0);
    RowsComeBack(f, types, rows);
    HeaderIsRead(header, Records(f, rows));
  }
}
