/**
 A table's two files as bytes. The bytes that commits and checkpoints write stand for the rows and frames
 that Sessions speaks of, so what a reload reads back from them is what its theorems say.
 */
module StoredFiles {
  import opened Values
  import opened TableStates
  import opened Dumps
  import opened Catalogs
  import opened Frames
  import opened Loads
  import opened Sessions
  import opened Durability
  import opened WalBytes
  import opened WalFiles
  import Csv

  /** What the bytes depend on: number formats, the log's checksum, the fingerprint of the column layout and the header line. */
  datatype Coding = Coding(format: Format, check: Checksum, fingerprint: int, header: seq<Bytes>)

  ghost predicate Works(c: Coding, types: seq<FieldType>) {
    && Faithful(c.format) && ChecksumFits(c.check) && 0 <= c.fingerprint < TWO_32
    && |c.header| == |types| > 0 && Csv.AllCarried(c.header)
  }

  /** The base file and its log. */
  datatype Files = Files(base: Bytes, log: Bytes)

  /** The rows a load takes from a base file, behind its header. */
  function BaseRows(c: Coding, types: seq<FieldType>, base: Bytes): seq<Row> {
    var taken := Csv.Rows(base, Csv.Start(base), 1, 0);
    if taken == [] then [] else LoadedRows(c.format, types, taken[1..])
  }

  ghost predicate StandFor(c: Coding, types: seq<FieldType>, files: Files, disk: Disk)
    requires Works(c, types)
  {
    && BaseRows(c, types, files.base) == disk.base
    && AllEncodable(disk.frames) && files.log == LogFile(disk.frames, c.fingerprint, c.check)
  }

  /** The table that .load reads from these bytes. */
  function ReadBack(c: Coding, schema: Schema, files: Files): TableState
    requires Loaded(schema, BaseRows(c, schema.types, files.base)).Valid()
  {
    ReplayFile(Loaded(schema, BaseRows(c, schema.types, files.base)), files.log, c.fingerprint, c.check).t
  }

  lemma ReadBackRecovers(c: Coding, schema: Schema, files: Files, disk: Disk)
    requires Works(c, schema.types) && StandFor(c, schema.types, files, disk) && schema.Valid() && DiskFits(schema.types, disk)
    ensures Loaded(schema, BaseRows(c, schema.types, files.base)).Valid() && ReadBack(c, schema, files) == Recover(schema, disk)
  {
    hide ReplayFile, Recover, LogFile, Faithful, ChecksumFits, BaseRows, FramesFit;
    assert Disk(disk.base, disk.frames) == disk;
    WholeFileRecovers(schema, disk.base, disk.frames, c.fingerprint, c.check);
  }

  /** The bytes of a dump. */
  function DumpBytes(c: Coding, t: TableState): Bytes
    requires |t.rows| == |t.dead|
  {
    Csv.FileBytes([c.header] + Records(c.format, LiveRows(t.rows, t.dead)))
  }

  /** What a completed checkpoint writes stands for the dumped base without a log. */
  lemma CheckpointStands(c: Coding, t: TableState)
    requires t.Valid() && Works(c, t.schema.types) && !Csv.HasBom(DumpBytes(c, t))
    ensures StandFor(c, t.schema.types, Files(DumpBytes(c, t), []), Disk(DumpedBase(t), []))
  {
    hide Csv.FileBytes, Csv.Rows, Faithful, ChecksumFits, DumpedRows, RowFits;
    LiveRowsFit(t.schema.types, t.rows, t.dead);
    DumpIsRead(c.format, c.header, t.schema.types, LiveRows(t.rows, t.dead));
  }

  /** What a commit appends stands for the frames of its rows, and leaves what was there. */
  lemma CommitStands(c: Coding, types: seq<FieldType>, files: Files, disk: Disk, added: seq<Frame>)
    requires Works(c, types) && StandFor(c, types, files, disk) && AllEncodable(added)
    ensures AllEncodable(disk.frames + added)
    ensures var log := LogFile(disk.frames + added, c.fingerprint, c.check);
      files.log <= log && StandFor(c, types, files.(log := log), disk.(frames := disk.frames + added))
  {
    hide BaseRows, Faithful, ChecksumFits, EncodableFrame, FramesBytes;
    FramesBytesConcat(disk.frames, added, c.check);
    var before, after := FramesBytes(disk.frames, c.check), FramesBytes(added, c.check);
    Associative(Header(c.fingerprint), before, after);
    if disk.frames != [] {
      assert LogFile(disk.frames + added, c.fingerprint, c.check) == files.log + after;
    }
  }

  /**
   At every point of every run, from the bytes: what .load reads back of a tracked table shows what
   ROLLBACK would leave and the phantoms, exactly unless ROLLBACK takes back rows that a failed COMMIT wrote.
   */
  lemma BytesShowRolledBack(start: map<Path, Disk>, run: seq<Event>, i: nat, c: Coding, files: Files)
    requires IsRun(Fresh(start), run)
    requires var w := StateAfter(Fresh(start), run);
      && i < |w.db.tables| && Tracked(w, i)
      && Works(c, w.db.tables[i].schema.types) && StandFor(c, w.db.tables[i].schema.types, files, DiskOf(w, i).value)
    ensures var w := StateAfter(Fresh(start), run);
      && i < |RolledBack(w).db.tables|
      && Loaded(w.db.tables[i].schema, BaseRows(c, w.db.tables[i].schema.types, files.base)).Valid()
      && ShownAfterRestart(w, i, ReadBack(c, w.db.tables[i].schema, files))
  {
    hide IsRun, StandFor, Works, BaseRows, ReplayFile, UndoTo, Visible, Phantoms, Recover, Sole, HeaderOk;
    var w := StateAfter(Fresh(start), run);
    ReloadExactly(start, run, i);
    TrackedFits(start, run, i);
    ReadBackRecovers(c, w.db.tables[i].schema, files, DiskOf(w, i).value);
    PhantomsAreNew(RolledBack(w).db.tables[i], DiskOf(w, i).value);
  }
}
