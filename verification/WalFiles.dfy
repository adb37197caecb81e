/**
 The log file: appended to row by row and truncated back when an append fails, replayed
 onto a table in place.
 */
module WalFiles {
  import opened Values
  import opened RowIndexes
  import opened TableStates
  import opened Tables
  import opened Frames
  import opened WalBytes

  /** Header magic, then the fingerprint of the column layout. */
  function Header(fingerprint: int): (b: Bytes)
    requires 0 <= fingerprint < TWO_32
    ensures |b| == 8
  {
    Number32(WAL_HEADER_MAGIC) + Number32(fingerprint)
  }

  datatype Replayed = Replayed(t: TableState, accepted: bool)

  /** wal_replay on a whole file: no file or less than a magic is an empty log, a foreign header is refused. */
  function ReplayFile(t: TableState, file: Bytes, fingerprint: int, check: Checksum): Replayed
    requires t.Valid()
  {
    if |file| < 4 then Replayed(t, true)
    else if ReadNumber32(file[..4]) != WAL_HEADER_MAGIC || |file| < 8 || ReadNumber32(file[4..8]) != fingerprint then Replayed(t, false)
    else Replayed(ReplayBytes(t, file[8..], check), true)
  }

  /** What the appends that succeeded wrote. */
  ghost function LogFile(frames: seq<Frame>, fingerprint: int, check: Checksum): Bytes
    requires 0 <= fingerprint < TWO_32 && AllEncodable(frames) && ChecksumFits(check)
  {
    if frames == [] then [] else Header(fingerprint) + FramesBytes(frames, check)
  }

  lemma HeaderFields(fingerprint: int, file: Bytes)
    requires 0 <= fingerprint < TWO_32 && |file| >= 8 && file[..8] == Header(fingerprint)
    ensures ReadNumber32(file[..4]) == WAL_HEADER_MAGIC && ReadNumber32(file[4..8]) == fingerprint
  {
    hide Number32, ReadNumber32;
    var h := file[..8];
    NumbersRoundTrip(WAL_HEADER_MAGIC);
    NumbersRoundTrip(fingerprint);
    assert h[..4] == Number32(WAL_HEADER_MAGIC) && h[4..8] == Number32(fingerprint);
    assert file[..4] == h[..4] && file[4..8] == h[4..8];
  }

  /** A log file cut at any byte brings back exactly the frames that survived whole, and cut inside its header none. */
  lemma TornFileReplaysWholeFrames(t: TableState, frames: seq<Frame>, fingerprint: int, check: Checksum, n: nat)
    requires 0 <= fingerprint < TWO_32 && t.Valid() && AllEncodable(frames) && FramesFit(t.schema.types, frames) && ChecksumFits(check)
    requires n <= |LogFile(frames, fingerprint, check)|
    ensures ReplayFile(t, LogFile(frames, fingerprint, check)[..n], fingerprint, check).t ==
      if n < 8 then t else Replay(t, frames[..Whole(frames, check, n - 8)])
  {
    hide FramesBytes, ReplayBytes, Replay, Number32, ReadNumber32, FramesFit, AllEncodable, ChecksumFits;
    if n >= 8 {
      var file := LogFile(frames, fingerprint, check)[..n];
      HeaderFields(fingerprint, file);
      assert file[8..] == FramesBytes(frames, check)[..n - 8];
      TornLogReplaysWholeFrames(t, frames, check, n - 8);
    }
  }

  lemma Associative(a: Bytes, b: Bytes, c: Bytes)
    ensures (a + b) + c == a + (b + c)
  {
  }

  lemma TailOfConcat(a: seq<Frame>, b: seq<Frame>)
    requires a != []
    ensures (a + b)[1..] == a[1..] + b && (a + b)[0] == a[0]
  {
  }

  lemma EncodableConcat(a: seq<Frame>, b: seq<Frame>)
    requires AllEncodable(a) && AllEncodable(b)
    ensures AllEncodable(a + b) && (a != [] ==> AllEncodable(a[1..]))
  {
    hide EncodableFrame;
  }

  lemma {:induction false} FramesBytesConcat(a: seq<Frame>, b: seq<Frame>, check: Checksum)
    requires AllEncodable(a) && AllEncodable(b) && ChecksumFits(check)
    ensures AllEncodable(a + b) && FramesBytes(a + b, check) == FramesBytes(a, check) + FramesBytes(b, check)
    decreases |a|
  {
    hide FrameBytes, EncodableFrame, ChecksumFits, AllEncodable, FramesBytes;
    EncodableConcat(a, b);
    if a == [] {
      NoFramesNoBytes(a, check);
      assert a + b == b;
    } else {
      var rest := a[1..];
      FramesBytesConcat(rest, b, check);
      EncodableConcat(rest, b);
      FirstFrameBytes(a, check);
      TailOfConcat(a, b);
      FirstFrameBytes(a + b, check);
      Associative(FrameBytes(a[0], check), FramesBytes(rest, check), FramesBytes(b, check));
    }
  }

  lemma FirstFrameBytes(frames: seq<Frame>, check: Checksum)
    requires AllEncodable(frames) && ChecksumFits(check) && frames != []
    ensures AllEncodable(frames[1..]) && EncodableFrame(frames[0])
    ensures FramesBytes(frames, check) == FrameBytes(frames[0], check) + FramesBytes(frames[1..], check)
  {
  }

  /** encode_row. */
  method EncodeStoredRow(table: Table, r: nat) returns (payload: Bytes)
    requires table.Valid() && r < |table.dead| && EncodableRow(table.State().rows[r])
    ensures payload == EncodeRow(table.State().rows[r])
  {
    hide Table.Valid, Table.Stored, EncodeCell, Encodable;
    ghost var row := table.State().rows[r];
    payload := [];
    var c := 0;
    assert row[0..] == row;
    while c < |table.schema.types|
      invariant c <= |table.schema.types| == |row| && EncodableRow(row[c..])
      invariant payload + EncodeRow(row[c..]) == EncodeRow(row)
    {
      assert row[c..][0] == row[c] && row[c..][1..] == row[c + 1..];
      payload := payload + EncodeCell(table.ReadColumn(r, c));
      c := c + 1;
    }
  }

  class LogOnDisk {
    var file: Bytes

    constructor ()
      ensures file == []
    {
      file := [];
    }

    /** fwrite: all of it, or a part and a failure. */
    method Write(bytes: Bytes) returns (ok: bool)
      modifies this
      ensures if ok then file == old(file) + bytes else old(file) <= file <= old(file) + bytes
    {
      var n :| 0 <= n <= |bytes|;
      if n < |bytes| {
        file := file + bytes[..n];
        return false;
      }
      file := file + bytes;
      return true;
    }

    method WriteRow(table: Table, r: nat, check: Checksum) returns (ok: bool)
      requires table.Valid() && r < |table.dead| && ChecksumFits(check) && EncodableFrame(FrameFor(table.State(), r))
      modifies this
      ensures var b := FrameBytes(FrameFor(table.State(), r), check);
        if ok then file == old(file) + b else old(file) <= file <= old(file) + b
    {
      hide Table.Valid, EncodeRow, FrameBytes, ChecksumFits;
      var frame: Frame;
      if table.dead[r] {
        frame := Tombstone(r);
      } else {
        frame := Put(r, table.Contents().Row(r));
      }
      ok := Write(FrameBytes(frame, check));
    }

    method WriteRows(table: Table, rows: seq<nat>, check: Checksum) returns (ok: bool)
      requires table.Valid() && ChecksumFits(check) && AllEncodable(FramesFor(table.State(), rows))
      requires forall k :: 0 <= k < |rows| ==> rows[k] < |table.dead|
      modifies this
      ensures var b := FramesBytes(FramesFor(table.State(), rows), check);
        if ok then file == old(file) + b else old(file) <= file <= old(file) + b
    {
      hide Table.Valid, Table.Stored, EncodableFrame, FrameBytes, FrameFor, ChecksumFits, FramesBytes;
      ghost var added := FramesFor(table.State(), rows);
      NoFramesNoBytes(added, check);
      var k := 0;
      while k < |rows|
        invariant k <= |rows| && file == old(file) + FramesBytes(added[..k], check)
      {
        FramesBytesSnoc(added, k, check);
        FramesBytesPrefix(added, k + 1, check);
        Associative(old(file), FramesBytes(added[..k], check), FrameBytes(added[k], check));
        ok := WriteRow(table, rows[k], check);
        if !ok {
          return;
        }
        k := k + 1;
      }
      assert added[..k] == added;
      ok := *;
    }

    /**
     wal_append: a header first if the file is empty, then the frames. After a failure the file is cut
     back to its old size, if that works; if not it is torn, and holds a part of what was to be written.
     */
    method Append(table: Table, rows: seq<nat>, fingerprint: int, check: Checksum, ghost frames: seq<Frame>) returns (ok: bool, ghost torn: bool)
      requires table.Valid() && 0 <= fingerprint < TWO_32 && ChecksumFits(check) && AllEncodable(frames)
      requires forall k :: 0 <= k < |rows| ==> rows[k] < |table.dead|
      requires AllEncodable(FramesFor(table.State(), rows))
      requires file == LogFile(frames, fingerprint, check)
      modifies this
      ensures AllEncodable(frames + FramesFor(table.State(), rows)) && (torn ==> !ok)
      ensures var whole := LogFile(frames + FramesFor(table.State(), rows), fingerprint, check);
        if ok then file == whole else if torn then old(file) <= file <= whole else file == old(file)
    {
      hide Table.Valid, Table.Stored, EncodableFrame, FrameFor, ChecksumFits, FramesBytes;
      ghost var added := FramesFor(table.State(), rows);
      FramesBytesConcat(frames, added, check);
      NoFramesNoBytes(frames, check);
      if rows == [] {
        assert frames + added == frames;
        return true, false;
      }
      var start := |file|;
      ok := true;
      if start == 0 {
        ok := Write(Header(fingerprint));
      }
      Associative(Header(fingerprint), FramesBytes(frames, check), FramesBytes(added, check));
      if ok {
        ok := WriteRows(table, rows, check);
      }
      torn := false;
      var truncated: bool := *;
      if !ok {
        if truncated {
          file := file[..start];
        } else {
          torn := true;
        }
      }
      return;
    }
  }

  lemma FramesBytesPrefix(frames: seq<Frame>, k: nat, check: Checksum)
    requires AllEncodable(frames) && ChecksumFits(check) && k <= |frames|
    ensures FramesBytes(frames[..k], check) <= FramesBytes(frames, check)
  {
    hide EncodableFrame;
    assert frames == frames[..k] + frames[k..];
    FramesBytesConcat(frames[..k], frames[k..], check);
  }

  lemma NoFramesNoBytes(frames: seq<Frame>, check: Checksum)
    requires AllEncodable(frames) && ChecksumFits(check)
    ensures AllEncodable(frames[..0]) && FramesBytes(frames[..0], check) == []
    ensures frames == [] ==> FramesBytes(frames, check) == []
  {
  }

  lemma FramesBytesSnoc(frames: seq<Frame>, k: nat, check: Checksum)
    requires AllEncodable(frames) && ChecksumFits(check) && k < |frames|
    ensures FramesBytes(frames[..k + 1], check) == FramesBytes(frames[..k], check) + FrameBytes(frames[k], check)
  {
    assert frames[..k + 1] == frames[..k] + [frames[k]];
    FramesBytesConcat(frames[..k], [frames[k]], check);
    assert FramesBytes([frames[k]], check) == FrameBytes(frames[k], check) by {
      assert [frames[k]][1..] == [];
    }
  }

  /******* Replay onto a table *******/

  /** A decoded cell through its typed setter; a text may find no room. */
  method StoreCell(table: Table, r: nat, c: nat, v: Value)
    requires table.Valid() && r < |table.dead| && c < |table.schema.types| && v.Kind() == table.schema.types[c]
    modifies table, table.pkIndex, table.pkIndex.slots
    ensures table.Valid() && (table.pkIndex.slots == old(table.pkIndex.slots) || fresh(table.pkIndex.slots))
    ensures |table.dead| == old(|table.dead|) && (old(table.failed) ==> table.failed)
    ensures table.State() == old(table.State()).PutCell(r, c, v) || (table.failed && table.State() == old(table.State()))
    ensures OneMoreAtMost(old(table.pkIndex.Pairs()), table.pkIndex.Pairs(), r, table.schema.IsPk(c))
  {
    hide Table.Valid, Table.Stored;
    match v {
      case Null(_) => table.SetNull(r, c);
      case Int(i) => table.SetInt(r, c, i);
      case Dbl(d) => table.SetDouble(r, c, d);
      case Bool(b) => table.SetBool(r, c, b);
      case Text(s) => table.SetText(r, c, s);
    }
  }

  /** t with row r alive and holding these cells. */
  function WithRow(t: TableState, r: nat, row: Row): TableState
    requires r < |t.rows|
  {
    t.SetDead(r, false).(rows := t.rows[r := row])
  }

  lemma WithRowPut(t: TableState, r: nat, row: Row, c: nat, v: Value)
    requires r < |t.rows| && c < |row|
    ensures WithRow(t, r, row).PutCell(r, c, v) == WithRow(t, r, row[c := v])
  {
  }

  /** apply_row_payload. Whatever happens only the frame's row changes; its cells end up as in cells. */
  method ApplyPayload(table: Table, r: nat, p: Bytes) returns (more: bool, ghost cells: Row)
    requires table.Valid() && r < |table.dead|
    modifies table, table.pkIndex, table.pkIndex.slots
    ensures table.Valid() && (table.pkIndex.slots == old(table.pkIndex.slots) || fresh(table.pkIndex.slots))
    ensures old(table.failed) ==> table.failed
    ensures r < |old(table.State()).rows| && table.State() == WithRow(old(table.State()), r, cells)
    ensures !table.failed ==>
      var d := DecodeCells(table.schema.types, 0, p, 0, old(table.State()).rows[r]);
      more == d.ok && cells == d.row
  {
    hide Table.Valid, Table.Stored, ReadCell, WithRow;
    ghost var start := table.State();
    cells := start.rows[r];
    Revived(start, r);
    table.UndeleteRow(r);
    var c: nat, off: nat := 0, 0;
    while c < |table.schema.types| && off < |p|
      invariant c <= |table.schema.types| == |cells| && off <= |p|
      invariant table.Valid() && (table.pkIndex.slots == old(table.pkIndex.slots) || fresh(table.pkIndex.slots))
      invariant |table.dead| == old(|table.dead|) && (old(table.failed) ==> table.failed)
      invariant table.State() == WithRow(start, r, cells)
      invariant table.failed || DecodeCells(table.schema.types, 0, p, 0, start.rows[r]) == DecodeCells(table.schema.types, c, p, off, cells)
    {
      var v := Null(table.schema.types[c]);
      var next: nat := off + 1;
      if p[off] == 0 {
        var cell := ReadCell(table.schema.types[c], p, off + 1);
        if cell.None? {
          return false, cells;
        }
        v, next := cell.value.v, cell.value.next;
      }
      WithRowPut(start, r, cells, c, v);
      StoreCell(table, r, c, v);
      cells := if table.State() == WithRow(start, r, cells[c := v]) then cells[c := v] else cells;
      c, off := c + 1, next;
    }
    return true, cells;
  }

  lemma Revived(t: TableState, r: nat)
    requires r < |t.rows|
    ensures t.SetDead(r, false) == WithRow(t, r, t.rows[r])
  {
  }

  /** Rows up to the frame's row number, unless memory runs out. */
  method GrowTo(table: Table, n: nat) returns (ok: bool)
    requires table.Valid()
    modifies table
    ensures table.Valid() && (old(table.failed) ==> table.failed)
    ensures |table.dead| >= old(|table.dead|) && table.State() == Grown(old(table.State()), |table.dead|)
    ensures if ok then table.State() == Grown(old(table.State()), n) && |table.dead| >= n else table.failed && |table.dead| < n
  {
    hide Table.Valid, Table.Stored, Grown;
    ghost var start := table.State();
    GrownNot(start);
    GrownNotTo(start, n);
    while |table.dead| < n
      invariant table.Valid() && (old(table.failed) ==> table.failed)
      invariant |table.dead| >= old(|table.dead|) && table.State() == Grown(start, |table.dead|)
      invariant |table.dead| <= n || |table.dead| == old(|table.dead|)
      decreases n - |table.dead|
    {
      GrownOneMore(start, |table.dead|);
      var row := table.AppendRow();
      if row.None? {
        return false;
      }
    }
    return true;
  }

  lemma GrownNot(t: TableState)
    ensures Grown(t, |t.rows|) == t
  {
  }

  lemma GrownNotTo(t: TableState, n: nat)
    ensures n <= |t.rows| ==> Grown(t, n) == t
  {
  }

  /** One parsed frame; more says whether the replay goes on, oom whether it stopped for want of memory. */
  method ApplyToTable(table: Table, f: Parsed) returns (more: bool, oom: bool)
    requires table.Valid()
    modifies table, table.pkIndex, table.pkIndex.slots
    ensures table.Valid() && (table.pkIndex.slots == old(table.pkIndex.slots) || fresh(table.pkIndex.slots))
    ensures (old(table.failed) ==> table.failed) && (oom ==> table.failed && !more)
    ensures !table.failed ==> ApplyParsed(old(table.State()), f) == Step(table.State(), more)
  {
    hide Table.Valid, Table.Stored, DecodeCells;
    ghost var start := table.State();
    GrownValid(start, f.row + 1);
    var ok := GrowTo(table, f.row + 1);
    if !ok {
      return false, true;
    }
    oom := false;
    if f.kind == 1 {
      table.DeleteRow(f.row);
      more := true;
    } else {
      ghost var cells: Row;
      more, cells := ApplyPayload(table, f.row, f.payload);
    }
    return;
  }

  /** The frames one after the other, until one does not parse, does not fit, or memory runs out. */
  method ReplayFrames(table: Table, p: Bytes, check: Checksum) returns (oom: bool)
    requires table.Valid()
    modifies table, table.pkIndex, table.pkIndex.slots
    ensures table.Valid() && (old(table.failed) ==> table.failed)
    ensures !table.failed && !oom ==> table.State() == ReplayBytes(old(table.State()), p, check)
  {
    hide Table.Valid, Table.Stored, ApplyParsed, ParseFrame;
    ghost var start := table.State();
    var off, more := 0, true;
    oom := false;
    assert p[0..] == p;
    while more && ParseFrame(p[off..], check).Some?
      invariant off <= |p| && table.Valid() && (table.pkIndex.slots == old(table.pkIndex.slots) || fresh(table.pkIndex.slots))
      invariant (old(table.failed) ==> table.failed) && (oom ==> !more)
      invariant !table.failed && !oom ==> ReplayBytes(start, p, check) == if more then ReplayBytes(table.State(), p[off..], check) else table.State()
      decreases more, |p| - off
    {
      var f := ParseFrame(p[off..], check).value;
      var memory: bool := *;
      if f.payload != [] && !memory {
        return true;
      }
      ApplyParsedValid(table.State(), f);
      assert p[off..][FRAME_HEAD + |f.payload|..] == p[off + FRAME_HEAD + |f.payload|..];
      more, oom := ApplyToTable(table, f);
      off := off + FRAME_HEAD + |f.payload|;
    }
  }

  /** wal_replay; ok is its result, oom whether memory ran out on the way. */
  method ReplayOnto(table: Table, file: Bytes, fingerprint: int, check: Checksum) returns (ok: bool, ghost oom: bool)
    requires table.Valid()
    modifies table, table.pkIndex, table.pkIndex.slots
    ensures table.Valid() && (old(table.failed) ==> table.failed) && (oom ==> !ok)
    ensures !table.failed && !oom ==> ReplayFile(old(table.State()), file, fingerprint, check) == Replayed(table.State(), ok)
  {
    hide Table.Valid, Table.Stored, ReplayBytes;
    if |file| < 4 {
      return true, false;
    }
    if ReadNumber32(file[..4]) != WAL_HEADER_MAGIC || |file| < 8 || ReadNumber32(file[4..8]) != fingerprint {
      return false, false;
    }
    var out := ReplayFrames(table, file[8..], check);
    return !out, out;
  }

  /******* Loading a table *******/

  /** Cell by cell; a row that was dead comes back to life. A text that finds no room leaves its cell. */
  method PutRow(table: Table, r: nat, row: Row) returns (ghost cells: Row)
    requires table.Valid() && r < |table.dead| && RowFits(table.schema.types, row)
    modifies table, table.pkIndex, table.pkIndex.slots
    ensures table.Valid() && (table.pkIndex.slots == old(table.pkIndex.slots) || fresh(table.pkIndex.slots))
    ensures |table.dead| == old(|table.dead|) && (old(table.failed) ==> table.failed) && r < |old(table.State()).rows|
    ensures table.State() == WithRow(old(table.State()), r, cells) && Mixes(cells, old(table.State()).rows[r], row)
    ensures table.failed || cells == row
    ensures DistinctPairs(old(table.pkIndex.Pairs())) && Unnamed(old(table.pkIndex.Pairs()), r) ==> DistinctPairs(table.pkIndex.Pairs())
  {
    hide Table.Valid, Table.Stored, WithRow, Mixes, DistinctPairs, Unnamed, OneMoreAtMost;
    ghost var start := table.State();
    cells := start.rows[r];
    Unmixed(cells, row);
    Revived(start, r);
    table.UndeleteRow(r);
    var c := 0;
    while c < |row|
      invariant c <= |row| == |cells| == |table.schema.types| && (table.failed || cells[..c] == row[..c])
      invariant table.Valid() && (table.pkIndex.slots == old(table.pkIndex.slots) || fresh(table.pkIndex.slots))
      invariant |table.dead| == old(|table.dead|) && (old(table.failed) ==> table.failed)
      invariant table.State() == WithRow(start, r, cells) && Mixes(cells, start.rows[r], row)
      invariant DistinctPairs(old(table.pkIndex.Pairs())) && Unnamed(old(table.pkIndex.Pairs()), r) ==>
        DistinctPairs(table.pkIndex.Pairs()) && ((table.schema.pk.Some? ==> c <= table.schema.pk.value) ==> Unnamed(table.pkIndex.Pairs(), r))
    {
      WithRowPut(start, r, cells, c, row[c]);
      MixedMore(cells, start.rows[r], row, c);
      ghost var pairs := table.pkIndex.Pairs();
      StoreCell(table, r, c, row[c]);
      if DistinctPairs(pairs) {
        OnePairPerRow(pairs, table.pkIndex.Pairs(), r, table.schema.IsPk(c));
      }
      cells := if table.State() == WithRow(start, r, cells[c := row[c]]) then cells[c := row[c]] else cells;
      c := c + 1;
    }
    assert table.failed || cells == row;
    return;
  }

  /** Every cell is the old one or the new one. */
  predicate Mixes(cells: Row, was: Row, row: Row) {
    |cells| == |was| == |row| && forall c :: 0 <= c < |cells| ==> cells[c] == was[c] || cells[c] == row[c]
  }

  lemma Unmixed(was: Row, row: Row)
    ensures |was| == |row| ==> Mixes(was, was, row)
  {
  }

  lemma MixedMore(cells: Row, was: Row, row: Row, c: nat)
    requires Mixes(cells, was, row) && c < |row|
    ensures Mixes(cells[c := row[c]], was, row)
  {
  }

  lemma LoadedMore(schema: Schema, base: seq<Row>, k: nat)
    requires k < |base|
    ensures var t := Loaded(schema, base[..k]).AppendNull();
      k < |t.rows| && WithRow(t, k, base[k]) == Loaded(schema, base[..k + 1])
  {
    var t := Loaded(schema, base[..k]).AppendNull();
    assert t.dead == Loaded(schema, base[..k + 1]).dead;
    assert t.dead[k := false] == t.dead;
    assert t.rows[k := base[k]] == base[..k + 1];
  }

  /** load_row: base row k, on top of those before it. */
  method LoadRow(table: Table, base: seq<Row>, k: nat)
    requires table.Valid() && k < |base| && table.State() == Loaded(table.schema, base[..k]) && RowFits(table.schema.types, base[k])
    modifies table, table.pkIndex, table.pkIndex.slots
    ensures table.Valid() && (table.pkIndex.slots == old(table.pkIndex.slots) || fresh(table.pkIndex.slots))
    ensures (old(table.failed) ==> table.failed) && (table.failed || table.State() == Loaded(table.schema, base[..k + 1]))
    ensures DistinctPairs(old(table.pkIndex.Pairs())) ==> DistinctPairs(table.pkIndex.Pairs())
  {
    hide Table.Valid, Table.Stored, WithRow, RowFits, DistinctPairs, Unnamed;
    LoadedMore(table.schema, base, k);
    table.NextRowUnnamed();
    var row := table.AppendRow();
    if row.None? {
      return;
    }
    ghost var cells := PutRow(table, row.value, base[k]);
    return;
  }

  lemma {:induction false} GrownCells(t: TableState, n: nat)
    requires t.Valid()
    ensures forall r, c :: Grown(t, n).HasCell(r, c) ==> (c < |t.schema.types| &&
      (if r < |t.rows| then t.HasCell(r, c) && Grown(t, n).rows[r][c] == t.rows[r][c] else Grown(t, n).rows[r][c] == Null(t.schema.types[c])))
    decreases n - |t.rows|
  {
    if n > |t.rows| {
      GrownCells(t.AppendNull(), n);
      var a := t.AppendNull();
      assert forall r :: 0 <= r < |t.rows| ==> a.rows[r] == t.rows[r];
    }
  }

  lemma GrownInPart(t: TableState, f: Frame, n: nat)
    requires t.Valid() && |t.rows| <= n && (n == |t.rows| || n <= f.row + 1)
    ensures AppliedInPart(t, f, Grown(t, n)) && AppliedInPart(t, f, Grown(t, n).SetDead(f.row, true))
  {
    GrownValid(t, n);
    GrownCells(t, n);
  }

  lemma PutInPart(t: TableState, f: Frame, n: nat, cells: Row)
    requires t.Valid() && |t.rows| <= n && (n == |t.rows| || n <= f.row + 1) && f.Put? && f.row < |Grown(t, n).rows|
    requires Mixes(cells, Grown(t, n).rows[f.row], f.cells) && WithRow(Grown(t, n), f.row, cells).Valid()
    ensures AppliedInPart(t, f, WithRow(Grown(t, n), f.row, cells))
  {
    GrownValid(t, n);
    GrownCells(t, n);
    var g, t' := Grown(t, n), WithRow(Grown(t, n), f.row, cells);
    forall r, c | t'.HasCell(r, c)
      ensures || (t.HasCell(r, c) && t'.rows[r][c] == t.rows[r][c]) || CellFromFrame(f, r, c, t'.rows[r][c])
              || (c < |t.schema.types| && t'.rows[r][c] == Null(t.schema.types[c])) {
      assert r != f.row ==> t'.rows[r] == g.rows[r];
      assert g.HasCell(r, c);
    }
  }

  /** A frame, decoded, onto the table. */
  method ApplyFrameTo(table: Table, f: Frame)
    requires table.Valid() && (f.Put? ==> RowFits(table.schema.types, f.cells))
    modifies table, table.pkIndex, table.pkIndex.slots
    ensures table.Valid() && (table.pkIndex.slots == old(table.pkIndex.slots) || fresh(table.pkIndex.slots))
    ensures (old(table.failed) ==> table.failed) && AppliedInPart(old(table.State()), f, table.State())
    ensures table.failed || table.State() == ApplyFrame(old(table.State()), f)
  {
    hide Table.Valid, Table.Stored, RowFits, Mixes, Grown, AppliedInPart;
    ghost var start := table.State();
    GrownValid(start, f.row + 1);
    var ok := GrowTo(table, f.row + 1);
    GrownInPart(start, f, |table.dead|);
    if !ok {
      return;
    }
    ghost var n := |table.dead|;
    match f {
      case Tombstone(r) => table.DeleteRow(r);
      case Put(r, cells) =>
        ghost var left := PutRow(table, r, cells);
        PutInPart(start, f, n, left);
    }
    return;
  }

  /**
   Base rows are in the table; now the log. An allocation that fails may stop the replay or only lose
   texts, and need not be recorded in the table.
   */
  method ReplayList(table: Table, ghost base: seq<Row>, frames: seq<Frame>) returns (complete: bool)
    requires table.Valid() && FramesFit(table.schema.types, frames) && table.State() == Loaded(table.schema, base)
    modifies table, table.pkIndex, table.pkIndex.slots
    ensures table.Valid() && (table.pkIndex.slots == old(table.pkIndex.slots) || fresh(table.pkIndex.slots))
    ensures (old(table.failed) ==> table.failed) && ReplayedInPart(table.schema, Disk(base, frames), table.State())
    ensures complete && !table.failed ==> table.State() == Recover(table.schema, Disk(base, frames))
  {
    hide Table.Valid, Table.Stored, ApplyFrame, RowFits, ReplayedInPart, AppliedInPart;
    ghost var start := table.State();
    assert frames[..0] == [] && Replay(start, []) == start;
    NoFrameReplayed(table.schema, base, frames);
    var k := 0;
    complete := true;
    while k < |frames| && complete
      invariant k <= |frames| && table.Valid() && (table.pkIndex.slots == old(table.pkIndex.slots) || fresh(table.pkIndex.slots))
      invariant (old(table.failed) ==> table.failed) && ReplayedInPart(table.schema, Disk(base, frames[..k]), table.State())
      invariant complete && !table.failed ==> table.State() == Replay(start, frames[..k])
      decreases |frames| - k, complete
    {
      complete := *;
      if complete {
        assert frames[..k + 1][..k] == frames[..k];
        ghost var before := table.State();
        ApplyFrameTo(table, frames[k]);
        ReplayedInPartStep(table.schema, base, frames, k, before, table.State());
        k := k + 1;
      }
    }
    ReplayedInPartStops(table.schema, base, frames, k, table.State());
    assert k == |frames| ==> frames[..k] == frames;
    return;
  }

  /******* Crashes *******/

  /** Reading back all that was appended is the reload of Frames. */
  lemma WholeFileRecovers(schema: Schema, base: seq<Row>, frames: seq<Frame>, fingerprint: int, check: Checksum)
    requires Loaded(schema, base).Valid() && 0 <= fingerprint < TWO_32 && ChecksumFits(check)
    requires AllEncodable(frames) && FramesFit(schema.types, frames)
    ensures ReplayFile(Loaded(schema, base), LogFile(frames, fingerprint, check), fingerprint, check).t == Recover(schema, Disk(base, frames))
  {
    hide FramesBytes, ReplayBytes, ReplayFile, ChecksumFits, FramesFit, Number32, TableState.Valid, LogFile, FrameBytes, EncodableFrame;
    assert frames + [] == frames;
    var k := CrashInsideAppend(schema, base, frames, [], fingerprint, check, |LogFile(frames, fingerprint, check)|);
    var file := LogFile(frames, fingerprint, check);
    assert file[..|file|] == file && frames + [][..k] == frames;
  }

  lemma {:induction false} WholeConcat(a: seq<Frame>, b: seq<Frame>, check: Checksum, m: nat)
    requires AllEncodable(a) && AllEncodable(b) && AllEncodable(a + b) && ChecksumFits(check)
    ensures Whole(a + b, check, |FramesBytes(a, check)| + m) == |a| + Whole(b, check, m)
    decreases |a|
  {
    hide FrameBytes, EncodableFrame, ChecksumFits, AllEncodable, FramesBytes;
    if a == [] {
      NoFramesNoBytes(a, check);
      assert a + b == b;
    } else {
      EncodableConcat(a, b);
      TailOfConcat(a, b);
      EncodableConcat(a[1..], b);
      FirstFrameBytes(a, check);
      WholeConcat(a[1..], b, check, m);
    }
  }

  /**
   A crash while a commit appends: whatever part of the new bytes reached the file, reloading
   gives the state of before plus the first k rows of the commit.
   */
  lemma CrashInsideAppend(schema: Schema, base: seq<Row>, frames: seq<Frame>, added: seq<Frame>, fingerprint: int, check: Checksum, n: nat) returns (k: nat)
    requires Loaded(schema, base).Valid() && 0 <= fingerprint < TWO_32 && ChecksumFits(check)
    requires AllEncodable(frames) && AllEncodable(added) && AllEncodable(frames + added) && FramesFit(schema.types, frames + added)
    requires |LogFile(frames, fingerprint, check)| <= n <= |LogFile(frames + added, fingerprint, check)|
    ensures k <= |added|
    ensures ReplayFile(Loaded(schema, base), LogFile(frames + added, fingerprint, check)[..n], fingerprint, check).t
      == Recover(schema, Disk(base, frames + added[..k]))
    ensures n == |LogFile(frames + added, fingerprint, check)| ==> k == |added|
  {
    hide FramesBytes, ReplayBytes, ReplayFile, Whole, AllEncodable, ChecksumFits, FramesFit, Number32, TableState.Valid;
    FramesBytesConcat(frames, added, check);
    NoFramesNoBytes(frames, check);
    TornFileReplaysWholeFrames(Loaded(schema, base), frames + added, fingerprint, check, n);
    if n < 8 {
      k := 0;
      assert frames + added[..0] == [];
    } else {
      var m: nat := n - 8 - |FramesBytes(frames, check)|;
      WholeConcat(frames, added, check, m);
      k := Whole(added, check, m);
      assert (frames + added)[..|frames| + k] == frames + added[..k];
    }
  }
}
