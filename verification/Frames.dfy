/**
 The write-ahead log as a list of frames: what replaying it over a base table gives, and
 when memory and disk agree row number by row number.
 */
module Frames {
  import opened Values
  import opened TableStates
  import opened Dumps

  /** A frame holds one row's cells as of a commit, or says that the row is gone. */
  datatype Frame = Put(row: nat, cells: Row) | Tombstone(row: nat)

  datatype Disk = Disk(base: seq<Row>, frames: seq<Frame>)

  /******* Replay *******/

  /** Live all-NULL rows up to the given row count. */
  function Grown(t: TableState, n: nat): TableState
    decreases n - |t.rows|
  {
    if n <= |t.rows| then t else Grown(t.AppendNull(), n)
  }

  function ApplyFrame(t: TableState, f: Frame): TableState {
    var g := Grown(t, f.row + 1);
    match f
    case Tombstone(r) => g.SetDead(r, true)
    case Put(r, cells) => if r < |g.rows| then g.SetDead(r, false).(rows := g.rows[r := cells]) else g
  }

  function Replay(t: TableState, frames: seq<Frame>): TableState {
    if frames == [] then t
    else ApplyFrame(Replay(t, frames[..|frames| - 1]), frames[|frames| - 1])
  }

  function Loaded(schema: Schema, base: seq<Row>): TableState {
    TableState(schema, base, seq(|base|, _ => false))
  }

  function Recover(schema: Schema, disk: Disk): TableState {
    Replay(Loaded(schema, disk.base), disk.frames)
  }

  /******* Well-typed files *******/

  predicate FramesFit(types: seq<FieldType>, frames: seq<Frame>) {
    forall k :: 0 <= k < |frames| && frames[k].Put? ==> RowFits(types, frames[k].cells)
  }

  /** Every row in the file has cells of these types. */
  predicate DiskFits(types: seq<FieldType>, disk: Disk) {
    FramesFit(types, disk.frames) && forall k :: 0 <= k < |disk.base| ==> RowFits(types, disk.base[k])
  }

  lemma {:induction false} GrownValid(t: TableState, n: nat)
    requires t.Valid()
    ensures Grown(t, n).Valid() && Grown(t, n).schema == t.schema
    ensures |Grown(t, n).rows| == if n <= |t.rows| then |t.rows| else n
    decreases n - |t.rows|
  {
    if n > |t.rows| {
      GrownValid(t.AppendNull(), n);
    }
  }

  lemma {:induction false} GrownOneMore(t: TableState, n: nat)
    requires n >= |t.rows|
    ensures Grown(t, n + 1) == Grown(t, n).AppendNull()
    decreases n - |t.rows|
  {
    if n > |t.rows| {
      GrownOneMore(t.AppendNull(), n);
    }
  }

  lemma {:induction false} ReplayFits(t: TableState, frames: seq<Frame>)
    requires t.Valid() && FramesFit(t.schema.types, frames)
    ensures Replay(t, frames).Valid() && Replay(t, frames).schema == t.schema
  {
    if frames != [] {
      var rest, f := frames[..|frames| - 1], frames[|frames| - 1];
      ReplayFits(t, rest);
      GrownValid(Replay(t, rest), f.row + 1);
    }
  }

  /******* Row by row *******/

  /** The last frame of a row. */
  function LastFrame(frames: seq<Frame>, r: nat): (f: Option<Frame>)
    ensures f.Some? ==> f.value.row == r
  {
    if frames == [] then None
    else if frames[|frames| - 1].row == r then Some(frames[|frames| - 1])
    else LastFrame(frames[..|frames| - 1], r)
  }

  /** One more than the highest row number the frames mention, or n if that is more. */
  function Height(frames: seq<Frame>, n: nat): nat {
    if frames == [] then n
    else
      var h := Height(frames[..|frames| - 1], n);
      if h <= frames[|frames| - 1].row then frames[|frames| - 1].row + 1 else h
  }

  lemma {:induction false} GrownViews(t: TableState, n: nat)
    requires |t.rows| == |t.dead|
    ensures var g := Grown(t, n);
      && g.schema == t.schema && |g.rows| == |g.dead| == (if n <= |t.rows| then |t.rows| else n)
      && forall r :: 0 <= r < |g.rows| ==>
           ViewOf(g, r) == if r < |t.rows| then ViewOf(t, r) else Present(NullRow(t.schema.types))
    decreases n - |t.rows|
  {
    if n > |t.rows| {
      GrownViews(t.AppendNull(), n);
      assert forall r :: 0 <= r < |t.rows| ==> ViewOf(t.AppendNull(), r) == ViewOf(t, r);
    }
  }

  /** Replay depends on each row's last frame and the highest row number only: the last writer wins. */
  lemma {:induction false} LastWriterWins(t: TableState, frames: seq<Frame>, r: nat)
    requires |t.rows| == |t.dead|
    ensures var p := Replay(t, frames);
      var last := LastFrame(frames, r);
      && p.schema == t.schema && |p.rows| == |p.dead| == Height(frames, |t.rows|)
      && ViewOf(p, r) ==
           (if last.Some? then (match last.value case Put(_, cells) => Present(cells) case Tombstone(_) => Gone)
            else if r < |t.rows| then ViewOf(t, r)
            else if r < Height(frames, |t.rows|) then Present(NullRow(t.schema.types))
            else Absent)
    ensures |t.rows| <= Height(frames, |t.rows|)
    ensures LastFrame(frames, r).Some? ==> r < Height(frames, |t.rows|)
    decreases |frames|
  {
    if frames != [] {
      var rest, f := frames[..|frames| - 1], frames[|frames| - 1];
      LastWriterWins(t, rest, r);
      GrownViews(Replay(t, rest), f.row + 1);
    }
  }

  lemma {:induction false} LastFrameConcat(a: seq<Frame>, b: seq<Frame>, r: nat)
    ensures LastFrame(a + b, r) == if LastFrame(b, r).Some? then LastFrame(b, r) else LastFrame(a, r)
    decreases |b|
  {
    if b == [] {
      assert a + b == a;
    } else {
      assert (a + b)[..|a + b| - 1] == a + b[..|b| - 1];
      LastFrameConcat(a, b[..|b| - 1], r);
    }
  }

  lemma {:induction false} HeightConcat(a: seq<Frame>, b: seq<Frame>, n: nat)
    ensures Height(a + b, n) == Height(b, Height(a, n))
    decreases |b|
  {
    if b == [] {
      assert a + b == a;
    } else {
      assert (a + b)[..|a + b| - 1] == a + b[..|b| - 1];
      HeightConcat(a, b[..|b| - 1], n);
    }
  }

  lemma {:induction false} HeightStable(frames: seq<Frame>, n: nat, m: nat)
    requires Height(frames, n) <= m
    ensures Height(frames, m) == m && n <= Height(frames, n)
  {
    if frames != [] {
      HeightStable(frames[..|frames| - 1], n, m);
    }
  }

  /** Replaying a log a second time changes nothing anyone can see, nor any tombstone or row number. */
  lemma ReplayTwiceIsOnce(t: TableState, frames: seq<Frame>, r: nat)
    requires |t.rows| == |t.dead|
    ensures ViewOf(Replay(Replay(t, frames), frames), r) == ViewOf(Replay(t, frames), r)
    ensures |Replay(Replay(t, frames), frames).rows| == |Replay(t, frames).rows|
  {
    var once := Replay(t, frames);
    LastWriterWins(t, frames, r);
    LastWriterWins(once, frames, r);
    HeightStable(frames, |t.rows|, Height(frames, |t.rows|));
  }

  /******* Agreement of memory and disk *******/

  /** What a reload shows of one row number: its last frame, its base row, or an all-NULL row below the highest logged one. */
  function ReloadedView(schema: Schema, disk: Disk, r: nat): RowView {
    var last := LastFrame(disk.frames, r);
    if last.Some? then (match last.value case Put(_, cells) => Present(cells) case Tombstone(_) => Gone)
    else if r < |disk.base| then Present(disk.base[r])
    else if r < Height(disk.frames, |disk.base|) then Present(NullRow(schema.types))
    else Absent
  }

  lemma ReloadShows(schema: Schema, disk: Disk, r: nat)
    ensures ViewOf(Recover(schema, disk), r) == ReloadedView(schema, disk, r)
    ensures OnDisk(disk, r) ==> r < Height(disk.frames, |disk.base|)
  {
    LastWriterWins(Loaded(schema, disk.base), disk.frames, r);
  }

  /** The row exists in the base file or has a frame. */
  predicate OnDisk(disk: Disk, r: nat) {
    r < |disk.base| || LastFrame(disk.frames, r).Some?
  }

  /** A row shows the same in memory as after a reload, or it never reached the disk and is invisible in memory. */
  ghost predicate RowSynced(mem: TableState, disk: Disk, r: nat) {
    SameShown(ViewOf(mem, r), ViewOf(Recover(mem.schema, disk), r)) || (!OnDisk(disk, r) && !ViewOf(mem, r).Present?)
  }

  /** Among the row numbers the disk does not know, the visible ones come first: a reload made them, later INSERTs go above. */
  ghost predicate UnloggedInOrder(mem: TableState, disk: Disk) {
    forall p: nat, q: nat :: p < q && !OnDisk(disk, p) && !OnDisk(disk, q) && ViewOf(mem, q).Present? ==> ViewOf(mem, p).Present?
  }

  ghost predicate Synced(mem: TableState, disk: Disk) {
    && |mem.rows| == |mem.dead| && UnloggedInOrder(mem, disk)
    && forall r :: RowSynced(mem, disk, r)
  }

  /** Row numbers below the highest logged one that no base row, no frame and no visible row accounts for. */
  function Phantoms(mem: TableState, disk: Disk): map<nat, Row> {
    map r: nat | r < Height(disk.frames, |disk.base|) && !OnDisk(disk, r) && !ViewOf(mem, r).Present? :: NullRow(mem.schema.types)
  }

  /** A reload gives exactly the visible memory state plus one live all-NULL row per phantom number. */
  ghost predicate Agrees(mem: TableState, disk: Disk) {
    && Visible(Recover(mem.schema, disk)) == Visible(mem) + Phantoms(mem, disk)
    && Visible(mem).Keys !! Phantoms(mem, disk).Keys
  }

  lemma AgreesRowByRow(mem: TableState, disk: Disk)
    ensures Agrees(mem, disk) <==> forall r :: RowSynced(mem, disk, r)
  {
    var rec, phantoms := Recover(mem.schema, disk), Phantoms(mem, disk);
    if Agrees(mem, disk) {
      forall r: nat ensures RowSynced(mem, disk, r) {
        ReloadShows(mem.schema, disk, r);
        assert r in Visible(rec) <==> r in Visible(mem) || r in phantoms;
        assert r in Visible(mem) ==> Visible(rec)[r] == Visible(mem)[r];
      }
    }
    if forall r :: RowSynced(mem, disk, r) {
      forall r: nat
        ensures r in Visible(rec) <==> r in Visible(mem) || r in phantoms
        ensures r in Visible(rec) ==> Visible(rec)[r] == (Visible(mem) + phantoms)[r]
        ensures !(r in Visible(mem) && r in phantoms) {
        ReloadShows(mem.schema, disk, r);
        assert RowSynced(mem, disk, r);
      }
    }
  }

  lemma SyncedRecovery(mem: TableState, disk: Disk)
    requires Synced(mem, disk)
    ensures Agrees(mem, disk)
  {
    AgreesRowByRow(mem, disk);
  }

  /** Agreement is about what a reader sees. */
  lemma SyncedShown(s: TableState, t: TableState, disk: Disk, r: nat)
    requires t.schema == s.schema && SameShown(ViewOf(s, r), ViewOf(t, r)) && RowSynced(s, disk, r)
    ensures RowSynced(t, disk, r)
  {
  }

  lemma SyncedAllShown(s: TableState, t: TableState, disk: Disk)
    requires t.schema == s.schema && |t.rows| == |t.dead| && Synced(s, disk)
    requires forall r: nat :: SameShown(ViewOf(s, r), ViewOf(t, r))
    ensures Synced(t, disk)
  {
    forall r: nat ensures RowSynced(t, disk, r) {
      SyncedShown(s, t, disk, r);
    }
    forall p: nat, q: nat | p < q && !OnDisk(disk, p) && !OnDisk(disk, q) && ViewOf(t, q).Present? ensures ViewOf(t, p).Present? {
      assert SameShown(ViewOf(s, p), ViewOf(t, p)) && SameShown(ViewOf(s, q), ViewOf(t, q));
    }
  }

  /** A load puts memory in sync with the disk it was read from. */
  lemma LoadSyncs(schema: Schema, disk: Disk)
    ensures Synced(Recover(schema, disk), disk)
  {
    var rec := Recover(schema, disk);
    LastWriterWins(Loaded(schema, disk.base), disk.frames, 0);
    forall p: nat, q: nat | p < q && !OnDisk(disk, p) && !OnDisk(disk, q) && ViewOf(rec, q).Present? ensures ViewOf(rec, p).Present? {
      ReloadShows(schema, disk, p);
      ReloadShows(schema, disk, q);
    }
  }

  /******* A replay that ran out of memory *******/

  /** The cell is the base row's, one that a frame of the row carries, or NULL. */
  ghost predicate CellFromDisk(types: seq<FieldType>, disk: Disk, r: nat, c: nat, v: Value) {
    || (r < |disk.base| && c < |disk.base[r]| && v == disk.base[r][c])
    || (exists k :: 0 <= k < |disk.frames| && CellFromFrame(disk.frames[k], r, c, v))
    || (c < |types| && v == Null(types[c]))
  }

  predicate CellFromFrame(f: Frame, r: nat, c: nat, v: Value) {
    f.Put? && f.row == r && c < |f.cells| && v == f.cells[c]
  }

  /**
   What a replay that met a failed allocation may leave: it stops at some frame, or goes on
   without the texts that found no room. No row is lost from the base, none is added beyond the
   frames, and no cell is made up.
   */
  ghost predicate ReplayedInPart(schema: Schema, disk: Disk, t: TableState) {
    && t.Valid() && t.schema == schema
    && |disk.base| <= |t.rows| <= Height(disk.frames, |disk.base|)
    && forall r, c :: t.HasCell(r, c) ==> CellFromDisk(schema.types, disk, r, c, t.rows[r][c])
  }

  /** One frame of such a replay: rows may be missing below its number, cells of its row may be as they were. */
  ghost predicate AppliedInPart(t: TableState, f: Frame, t': TableState) {
    && t'.Valid() && t'.schema == t.schema && |t.rows| <= |t'.rows| && (|t'.rows| == |t.rows| || |t'.rows| <= f.row + 1)
    && forall r, c :: t'.HasCell(r, c) ==>
         || (t.HasCell(r, c) && t'.rows[r][c] == t.rows[r][c])
         || CellFromFrame(f, r, c, t'.rows[r][c])
         || (c < |t.schema.types| && t'.rows[r][c] == Null(t.schema.types[c]))
  }

  lemma ReplayedInPartStep(schema: Schema, base: seq<Row>, frames: seq<Frame>, k: nat, t: TableState, t': TableState)
    requires k < |frames| && ReplayedInPart(schema, Disk(base, frames[..k]), t) && AppliedInPart(t, frames[k], t')
    ensures ReplayedInPart(schema, Disk(base, frames[..k + 1]), t')
  {
    var shorter, longer := Disk(base, frames[..k]), Disk(base, frames[..k + 1]);
    assert longer.frames[..k] == shorter.frames && longer.frames[k] == frames[k];
    forall r, c | t'.HasCell(r, c) ensures CellFromDisk(schema.types, longer, r, c, t'.rows[r][c]) {
      var v := t'.rows[r][c];
      if t.HasCell(r, c) && v == t.rows[r][c] {
        assert CellFromDisk(schema.types, shorter, r, c, v);
        if j :| 0 <= j < k && CellFromFrame(shorter.frames[j], r, c, v) {
          assert CellFromFrame(longer.frames[j], r, c, v);
        }
      } else if CellFromFrame(frames[k], r, c, v) {
        assert CellFromFrame(longer.frames[k], r, c, v);
      }
    }
  }

  lemma {:induction false} ReplayedInPartStops(schema: Schema, base: seq<Row>, frames: seq<Frame>, k: nat, t: TableState)
    requires k <= |frames| && ReplayedInPart(schema, Disk(base, frames[..k]), t)
    ensures ReplayedInPart(schema, Disk(base, frames), t)
  {
    var shorter, longer := Disk(base, frames[..k]), Disk(base, frames);
    assert frames == frames[..k] + frames[k..];
    HeightConcat(frames[..k], frames[k..], |base|);
    HeightStable(frames[k..], Height(frames[..k], |base|), Height(frames, |base|));
    forall r, c | t.HasCell(r, c) ensures CellFromDisk(schema.types, longer, r, c, t.rows[r][c]) {
      assert CellFromDisk(schema.types, shorter, r, c, t.rows[r][c]);
      if j :| 0 <= j < k && CellFromFrame(shorter.frames[j], r, c, t.rows[r][c]) {
        assert CellFromFrame(longer.frames[j], r, c, t.rows[r][c]);
      }
    }
  }

  /**
   A replay that stops after k frames, exactly: it shows what a whole one would, phantoms aside, if every row
   that the other frames mention shows the last of them already.
   */
  lemma StoppedReplayExactly(schema: Schema, base: seq<Row>, frames: seq<Frame>, k: nat)
    requires k <= |frames|
    ensures var mem, disk := Recover(schema, Disk(base, frames[..k])), Disk(base, frames);
      Agrees(mem, disk) <==> forall r: nat :: LastFrame(frames[k..], r).Some? ==> SameShown(ViewOf(mem, r), ReloadedView(schema, disk, r))
  {
    var mem, disk, shorter := Recover(schema, Disk(base, frames[..k])), Disk(base, frames), Disk(base, frames[..k]);
    AgreesRowByRow(mem, disk);
    LoadSyncs(schema, shorter);
    assert mem.schema == schema by {
      LastWriterWins(Loaded(schema, base), frames[..k], 0);
    }
    assert frames == frames[..k] + frames[k..];
    HeightConcat(frames[..k], frames[k..], |base|);
    HeightStable(frames[k..], Height(frames[..k], |base|), Height(frames, |base|));
    forall r: nat
      ensures RowSynced(mem, disk, r) <==> LastFrame(frames[k..], r).Some? ==> SameShown(ViewOf(mem, r), ReloadedView(schema, disk, r)) {
      LastFrameConcat(frames[..k], frames[k..], r);
      ReloadShows(schema, shorter, r);
      ReloadShows(schema, disk, r);
    }
  }

  lemma NoFrameReplayed(schema: Schema, base: seq<Row>, frames: seq<Frame>)
    requires Loaded(schema, base).Valid()
    ensures ReplayedInPart(schema, Disk(base, frames[..0]), Loaded(schema, base))
  {
  }

  /**
   A live all-NULL row that memory gains and no frame records, exactly: memory and file still agree if a reload
   makes up the same row, which is so if the number was never logged and lies below one that was.
   */
  lemma UnloggedRowExactly(mem: TableState, disk: Disk)
    requires Synced(mem, disk)
    ensures var n := |mem.rows|;
      Agrees(mem.AppendNull(), disk) <==> !OnDisk(disk, n) && n < Height(disk.frames, |disk.base|)
  {
    var n, more := |mem.rows|, mem.AppendNull();
    AgreesRowByRow(more, disk);
    ReloadShows(mem.schema, disk, n);
    assert RowSynced(mem, disk, n);
    forall r: nat | r != n ensures RowSynced(more, disk, r) {
      assert ViewOf(more, r) == ViewOf(mem, r) && RowSynced(mem, disk, r);
    }
    assert ViewOf(more, n) == Present(NullRow(mem.schema.types));
    assert RowSynced(more, disk, n) <==> !OnDisk(disk, n) && n < Height(disk.frames, |disk.base|);
  }

  /******* Commit *******/

  /** The frame a commit writes for a row: its cells as they are now, or a tombstone. */
  function FrameFor(t: TableState, r: nat): Frame {
    if t.Live(r) && r < |t.rows| then Put(r, t.rows[r]) else Tombstone(r)
  }

  function FramesFor(t: TableState, rows: seq<nat>): seq<Frame> {
    seq(|rows|, k requires 0 <= k < |rows| => FrameFor(t, rows[k]))
  }

  lemma {:induction false} FramesForLast(t: TableState, rows: seq<nat>, r: nat)
    ensures LastFrame(FramesFor(t, rows), r) == if r in rows then Some(FrameFor(t, r)) else None
  {
    if rows != [] {
      var rest, last := rows[..|rows| - 1], rows[|rows| - 1];
      assert FramesFor(t, rows)[..|rows| - 1] == FramesFor(t, rest);
      FramesForLast(t, rest, r);
      assert rows == rest + [last];
    }
  }

  lemma {:induction false} FramesForHeight(t: TableState, rows: seq<nat>, n: nat)
    requires forall r :: r in rows ==> r < |t.rows|
    requires n <= |t.rows|
    ensures Height(FramesFor(t, rows), n) <= |t.rows|
  {
    if rows != [] {
      assert FramesFor(t, rows)[..|rows| - 1] == FramesFor(t, rows[..|rows| - 1]);
      var rest := rows[..|rows| - 1];
      assert rows[|rows| - 1] in rows && forall r :: r in rest ==> r in rows;
      FramesForHeight(t, rest, n);
    }
  }

  lemma AppendedFits(mem: TableState, disk: Disk, rows: seq<nat>)
    requires mem.Valid() && DiskFits(mem.schema.types, disk)
    ensures DiskFits(mem.schema.types, disk.(frames := disk.frames + FramesFor(mem, rows)))
  {
  }

  /** After the frames of some rows of a table are appended, a reload shows those rows as the table has them. */
  lemma AppendedRows(mem: TableState, disk: Disk, rows: seq<nat>, schema: Schema, r: nat)
    ensures var disk' := disk.(frames := disk.frames + FramesFor(mem, rows));
      && (OnDisk(disk', r) <==> OnDisk(disk, r) || r in rows)
      && (r in rows && |mem.rows| == |mem.dead| ==> SameShown(ReloadedView(schema, disk', r), ViewOf(mem, r)))
      && (r !in rows ==> ReloadedView(schema, disk', r) == ReloadedView(schema, disk, r)
                         || (!OnDisk(disk, r) && ReloadedView(schema, disk, r).Absent?))
  {
    var fs := FramesFor(mem, rows);
    HeightConcat(disk.frames, fs, |disk.base|);
    HeightStable(fs, Height(disk.frames, |disk.base|), Height(fs, Height(disk.frames, |disk.base|)));
    LastFrameConcat(disk.frames, fs, r);
    FramesForLast(mem, rows, r);
  }

  /** Appending the frames of some rows syncs those rows and leaves the agreement of the others alone. */
  lemma CommitSyncs(mem: TableState, disk: Disk, rows: seq<nat>, r: nat)
    requires |mem.rows| == |mem.dead| && (r !in rows ==> RowSynced(mem, disk, r))
    ensures RowSynced(mem, disk.(frames := disk.frames + FramesFor(mem, rows)), r)
  {
    AppendedRows(mem, disk, rows, mem.schema, r);
    ReloadShows(mem.schema, disk, r);
    ReloadShows(mem.schema, disk.(frames := disk.frames + FramesFor(mem, rows)), r);
  }

  /**
   Two tables on one file: after a commit of the first, the file agrees with the second exactly
   if the second shows each row written as the first does.
   */
  lemma SharedFileExactly(writer: TableState, other: TableState, disk: Disk, rows: seq<nat>)
    requires |writer.rows| == |writer.dead| && Agrees(other, disk)
    ensures Agrees(other, disk.(frames := disk.frames + FramesFor(writer, rows)))
      <==> forall r :: r in rows ==> SameShown(ViewOf(other, r), ViewOf(writer, r))
  {
    var disk' := disk.(frames := disk.frames + FramesFor(writer, rows));
    AgreesRowByRow(other, disk);
    AgreesRowByRow(other, disk');
    forall r: nat ensures RowSynced(other, disk', r) <==> r in rows ==> SameShown(ViewOf(other, r), ViewOf(writer, r)) {
      AppendedRows(writer, disk, rows, other.schema, r);
      ReloadShows(other.schema, disk, r);
      ReloadShows(other.schema, disk', r);
      assert RowSynced(other, disk, r);
    }
  }

  /******* Checkpoint *******/

  /** The table checkpoint leaves in memory: live rows renumbered from zero. */
  function Compacted(t: TableState): TableState
    requires |t.rows| == |t.dead|
  {
    Loaded(t.schema, LiveRows(t.rows, t.dead))
  }

  /** The base file it writes, as the next load reads it. */
  function DumpedBase(t: TableState): seq<Row>
    requires |t.rows| == |t.dead|
  {
    DumpedRows(LiveRows(t.rows, t.dead))
  }

  /** Untouched, or the new base with the old log, or the new base with no log but the old generation. */
  predicate LeftByFailedCheckpoint(t: TableState, was: Disk, disk: Disk)
    requires |t.rows| == |t.dead|
  {
    disk == was || disk == Disk(DumpedBase(t), was.frames) || disk == Disk(DumpedBase(t), [])
  }

  lemma NewBaseSyncs(t: TableState)
    requires |t.rows| == |t.dead|
    ensures Synced(Compacted(t), Disk(Compacted(t).rows, []))
  {
    LoadSyncs(t.schema, Disk(Compacted(t).rows, []));
  }

  lemma AgreeingRow(schema: Schema, rows: seq<Row>, base: seq<Row>, r: nat)
    requires RowSynced(Loaded(schema, rows), Disk(base, []), r)
    ensures (r < |rows| <==> r < |base|) && (r < |rows| ==> base[r] == rows[r])
  {
    ReloadShows(schema, Disk(base, []), r);
  }

  lemma AgreeingBase(schema: Schema, rows: seq<Row>, base: seq<Row>)
    requires Agrees(Loaded(schema, rows), Disk(base, []))
    ensures base == rows
  {
    AgreesRowByRow(Loaded(schema, rows), Disk(base, []));
    AgreeingRow(schema, rows, base, |rows|);
    AgreeingRow(schema, rows, base, |base|);
    forall r | 0 <= r < |rows| ensures base[r] == rows[r] {
      AgreeingRow(schema, rows, base, r);
    }
  }

  /** A completed checkpoint, exactly: memory and file agree if every live cell survives the dump, and only then. */
  lemma CheckpointExactly(t: TableState)
    requires |t.rows| == |t.dead|
    ensures Agrees(Compacted(t), Disk(DumpedBase(t), [])) <==> forall r: nat :: ViewOf(t, r).Present? ==> StorableRow(t.rows[r])
    ensures Agrees(Compacted(t), Disk(DumpedBase(t), [])) <==> DumpedBase(t) == Compacted(t).rows
    ensures DumpedBase(t) == Compacted(t).rows ==> Synced(Compacted(t), Disk(DumpedBase(t), []))
  {
    hide StorableRow;
    var rows := Compacted(t).rows;
    if Agrees(Compacted(t), Disk(DumpedBase(t), [])) {
      AgreeingBase(t.schema, rows, DumpedBase(t));
    }
    DumpKeepsExactly(rows);
    LiveRowsAre(t.rows, t.dead, row => StorableRow(row));
    if DumpedBase(t) == rows {
      NewBaseSyncs(t);
      SyncedRecovery(Compacted(t), Disk(rows, []));
    }
  }

  /** Without gaps memory shows after compaction what it showed before. */
  lemma CompactionWithoutGaps(mem: TableState)
    requires |mem.rows| == |mem.dead| && NoGaps(mem.dead)
    ensures forall r: nat :: SameShown(ViewOf(mem, r), ViewOf(Compacted(mem), r))
  {
    LiveRowsWithoutGaps(mem.rows, mem.dead);
  }

  /** Row r comes back from this base under these frames: a frame has it, or the base, or it is all NULL and below the highest logged number. */
  predicate KeptOrLogged(types: seq<FieldType>, rows: seq<Row>, disk: Disk, r: nat)
    requires r < |rows|
  {
    || LastFrame(disk.frames, r).Some?
    || (if r < |disk.base| then disk.base[r] == rows[r] else rows[r] == NullRow(types) && r < Height(disk.frames, |disk.base|))
  }

  predicate AllKeptOrLogged(t: TableState, disk: Disk) {
    forall r :: 0 <= r < |t.rows| ==> KeptOrLogged(t.schema.types, t.rows, disk, r)
  }

  /** Without gaps the new base takes the old log without harm, as far as the dump kept the rows that are not in the log. */
  lemma OldLogOnNewBase(mem: TableState, was: Disk)
    requires Synced(mem, was) && NoGaps(mem.dead)
    ensures var disk := Disk(DumpedBase(mem), was.frames);
      && (Agrees(Compacted(mem), disk) <==> AllKeptOrLogged(Compacted(mem), disk))
      && (Agrees(Compacted(mem), disk) ==> Synced(Compacted(mem), disk))
  {
    var c := Compacted(mem);
    var disk := Disk(DumpedBase(mem), was.frames);
    AgreesRowByRow(c, disk);
    forall r: nat ensures RowSynced(c, disk, r) <==> (r < |c.rows| ==> KeptOrLogged(c.schema.types, c.rows, disk, r)) {
      NewBaseRow(mem, was, r);
    }
  }

  lemma NewBaseRow(mem: TableState, was: Disk, r: nat)
    requires Synced(mem, was) && NoGaps(mem.dead)
    ensures var c, disk := Compacted(mem), Disk(DumpedBase(mem), was.frames);
      RowSynced(c, disk, r) <==> (r < |c.rows| ==> KeptOrLogged(c.schema.types, c.rows, disk, r))
  {
    var disk := Disk(DumpedBase(mem), was.frames);
    LiveRowsWithoutGaps(mem.rows, mem.dead);
    ReloadShows(mem.schema, was, r);
    ReloadShows(mem.schema, disk, r);
    assert RowSynced(mem, was, r);
  }

  /** With a gap neither the old base nor a new one shows, under the old log, what compaction left in memory. */
  lemma OldLogWithGap(mem: TableState, was: Disk, disk: Disk)
    requires Synced(mem, was) && !NoGaps(mem.dead) && disk.frames == was.frames
    requires disk.base == was.base || |disk.base| <= |Compacted(mem).rows|
    ensures exists r :: !RowSynced(Compacted(mem), disk, r)
  {
    var c := Compacted(mem);
    var d, l := CompactionClosesGap(mem.rows, mem.dead);
    assert RowSynced(mem, was, d) && RowSynced(mem, was, l);
    ReloadShows(mem.schema, was, d);
    ReloadShows(mem.schema, was, l);
    ReloadShows(mem.schema, disk, d);
    ReloadShows(mem.schema, disk, l);
    if OnDisk(was, d) {
      assert LastFrame(was.frames, d) == Some(Tombstone(d));
      assert !RowSynced(c, disk, d);
    } else {
      assert OnDisk(was, l);
      assert !RowSynced(c, disk, l);
    }
  }

  /**
   Memory shows after a checkpoint what a reload of this disk would: the log is gone and the dump kept every
   row, or no live row lay above a tombstone and base or log has each row.
   */
  predicate Serves(t: TableState, was: Disk, disk: Disk)
    requires |t.rows| == |t.dead|
  {
    || disk == Disk(Compacted(t).rows, [])
    || (NoGaps(t.dead) && (disk == was || (disk == Disk(DumpedBase(t), was.frames) && AllKeptOrLogged(Compacted(t), disk))))
  }

  /** A checkpoint that fails, or a crash inside one, exactly. */
  lemma FailedCheckpointExactly(mem: TableState, was: Disk, disk: Disk)
    requires Synced(mem, was) && LeftByFailedCheckpoint(mem, was, disk)
    ensures Agrees(Compacted(mem), disk) <==> Serves(mem, was, disk)
    ensures Agrees(Compacted(mem), disk) ==> Synced(Compacted(mem), disk)
  {
    hide AllKeptOrLogged, DumpedBase, Agrees;
    var c := Compacted(mem);
    CheckpointExactly(mem);
    if disk == was && NoGaps(mem.dead) {
      UntouchedServes(mem, was);
    } else if disk == Disk(DumpedBase(mem), was.frames) && NoGaps(mem.dead) {
      OldLogOnNewBase(mem, was);
    } else if disk.frames == was.frames && !NoGaps(mem.dead) {
      DumpIsShorter(mem);
      OldLogWithGap(mem, was, disk);
      AgreesRowByRow(c, disk);
      NewBaseSyncs(mem);
      SyncedRecovery(c, Disk(c.rows, []));
    }
  }

  lemma DumpIsShorter(mem: TableState)
    requires |mem.rows| == |mem.dead|
    ensures |DumpedBase(mem)| <= |Compacted(mem).rows|
  {
  }

  lemma UntouchedServes(mem: TableState, was: Disk)
    requires Synced(mem, was) && NoGaps(mem.dead)
    ensures Agrees(Compacted(mem), was) && Synced(Compacted(mem), was)
  {
    CompactionWithoutGaps(mem);
    SyncedAllShown(mem, Compacted(mem), was);
    SyncedRecovery(Compacted(mem), was);
  }

  /** The base file a checkpoint writes has no row to read exactly if every live row has a text over the reader's limit. */
  lemma CheckpointEmptiesBase(t: TableState)
    requires |t.rows| == |t.dead|
    ensures DumpedBase(t) == [] <==> forall r: nat :: ViewOf(t, r).Present? ==> Skipped(t.rows[r])
  {
    hide Skipped;
    DumpIsEmptyExactly(LiveRows(t.rows, t.dead));
    LiveRowsAre(t.rows, t.dead, row => Skipped(row));
  }
}
