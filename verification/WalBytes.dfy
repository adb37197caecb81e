/**
 The write-ahead log as bytes: little-endian numbers, rows, checksummed frames, the file
 header. Replay applies exactly the frames that lie wholly inside what is left of a file.
 */
module WalBytes {
  import opened Values
  import opened TableStates
  import opened Tables
  import opened Frames

  const WAL_MAGIC: int := 0x314C4157
  const WAL_HEADER_MAGIC: int := 0x48344C57
  const FRAME_HEAD: int := 17

  /******* Little-endian numbers *******/

  function Pow256(k: nat): (p: int)
    ensures p > 0
  {
    if k == 0 then 1 else 256 * Pow256(k - 1)
  }

  function LittleEndian(n: int, k: nat): (b: Bytes)
    requires 0 <= n < Pow256(k)
    ensures |b| == k
  {
    if k == 0 then [] else [n % 256] + LittleEndian(n / 256, k - 1)
  }

  function FromLittleEndian(b: Bytes): (n: int)
    ensures 0 <= n < Pow256(|b|)
  {
    if b == [] then 0 else b[0] + 256 * FromLittleEndian(b[1..])
  }

  lemma {:induction false} NumberRoundTrip(n: int, k: nat)
    requires 0 <= n < Pow256(k)
    ensures FromLittleEndian(LittleEndian(n, k)) == n
  {
    if k > 0 {
      NumberRoundTrip(n / 256, k - 1);
      assert LittleEndian(n, k)[1..] == LittleEndian(n / 256, k - 1);
    }
  }

  lemma PowersOf256()
    ensures Pow256(4) == TWO_32 && Pow256(8) == TWO_64
  {
    assert Pow256(2) == 0x1_0000;
    assert Pow256(6) == 0x1_0000_0000_0000;
  }

  /** Two's complement. */
  function Unsigned(i: int64): (w: int)
    ensures 0 <= w < TWO_64
  {
    if i < 0 then i + TWO_64 else i
  }

  function Signed(w: int): (i: int64)
    requires 0 <= w < TWO_64
    ensures Unsigned(i) == w
  {
    if w < TWO_63 then w else w - TWO_64
  }

  function Number32(n: int): (b: Bytes)
    requires 0 <= n < TWO_32
    ensures |b| == 4
  {
    PowersOf256();
    LittleEndian(n, 4)
  }

  function Number64(n: int): (b: Bytes)
    requires 0 <= n < TWO_64
    ensures |b| == 8
  {
    PowersOf256();
    LittleEndian(n, 8)
  }

  function ReadNumber32(b: Bytes): (n: int)
    requires |b| == 4
    ensures 0 <= n < TWO_32
  {
    PowersOf256();
    FromLittleEndian(b)
  }

  function ReadNumber64(b: Bytes): (n: int)
    requires |b| == 8
    ensures 0 <= n < TWO_64
  {
    PowersOf256();
    FromLittleEndian(b)
  }

  lemma NumbersRoundTrip(n: int)
    ensures 0 <= n < TWO_32 ==> ReadNumber32(Number32(n)) == n
    ensures 0 <= n < TWO_64 ==> ReadNumber64(Number64(n)) == n
  {
    PowersOf256();
    if 0 <= n < TWO_32 {
      NumberRoundTrip(n, 4);
    }
    if 0 <= n < TWO_64 {
      NumberRoundTrip(n, 8);
    }
  }

  /******* Rows *******/

  /** A text whose length fits the 32-bit length field; the text heap holds no longer one. */
  predicate Encodable(v: Value) {
    v.Text? ==> |v.s| < TWO_32
  }

  /** A null flag, then the cell. */
  function EncodeCell(v: Value): (b: Bytes)
    requires Encodable(v)
    ensures |b| > 0
  {
    match v
    case Null(_) => [1]
    case Int(i) => [0] + Number64(Unsigned(i))
    case Dbl(d) => [0] + Number64(d)
    case Bool(x) => [0, if x then 1 else 0]
    case Text(s) => [0] + Number32(|s|) + s
  }

  predicate EncodableRow(row: Row) {
    forall c :: 0 <= c < |row| ==> Encodable(row[c])
  }

  function EncodeRow(row: Row): Bytes
    requires EncodableRow(row)
  {
    if row == [] then [] else EncodeCell(row[0]) + EncodeRow(row[1..])
  }

  datatype CellRead = CellRead(v: Value, next: nat)

  /** The cell of this kind that starts at off, and where it ends; None if the payload ends first. */
  function ReadCell(kind: FieldType, p: Bytes, off: nat): (r: Option<CellRead>)
    requires off <= |p|
    ensures r.Some? ==> off < r.value.next <= |p| && r.value.v.Kind() == kind && !r.value.v.Null?
  {
    match kind
    case FtInt =>
      if off + 8 > |p| then None else Some(CellRead(Int(Signed(ReadNumber64(p[off..off + 8]))), off + 8))
    case FtDouble =>
      if off + 8 > |p| then None else Some(CellRead(Dbl(ReadNumber64(p[off..off + 8])), off + 8))
    case FtBool =>
      if off + 1 > |p| then None else Some(CellRead(Bool(p[off] != 0), off + 1))
    case FtText =>
      if off + 4 > |p| then None
      else
        var n := ReadNumber32(p[off..off + 4]);
        if off + 4 + n > |p| then None else Some(CellRead(Text(p[off + 4..off + 4 + n]), off + 4 + n))
  }

  datatype Decoded = Decoded(row: Row, ok: bool)

  /** apply_row_payload from column c on: cells the payload does not reach keep what they held. */
  function DecodeCells(types: seq<FieldType>, c: nat, p: Bytes, off: nat, row: Row): (d: Decoded)
    requires c <= |types| == |row| && off <= |p|
    ensures |d.row| == |types|
    decreases |types| - c
  {
    if c == |types| || off == |p| then Decoded(row, true)
    else if p[off] != 0 then DecodeCells(types, c + 1, p, off + 1, row[c := Null(types[c])])
    else
      var cell := ReadCell(types[c], p, off + 1);
      if cell.None? then Decoded(row, false)
      else DecodeCells(types, c + 1, p, cell.value.next, row[c := cell.value.v])
  }

  lemma CodeInside(code: Bytes, p: Bytes, off: nat, rest: Bytes)
    requires off <= |p| && p[off..] == code + rest && code != []
    ensures off + |code| <= |p| && p[off] == code[0] && p[off + |code|..] == rest && p[off + 1..off + |code|] == code[1..]
    ensures forall k :: 0 <= k < |code| ==> p[off + k] == code[k]
  {
    assert forall k :: 0 <= k < |code| ==> p[off + k] == p[off..][k];
    assert p[off + |code|..] == p[off..][|code|..] == rest;
  }

  lemma TextRoundTrip(s: Bytes, p: Bytes, off: nat)
    requires |s| < TWO_32 && off + 4 + |s| <= |p| && p[off..off + 4 + |s|] == Number32(|s|) + s
    ensures ReadCell(FtText, p, off) == Some(CellRead(Text(s), off + 4 + |s|))
  {
    hide LittleEndian, FromLittleEndian;
    NumbersRoundTrip(|s|);
    assert p[off..off + 4] == p[off..off + 4 + |s|][..4] == Number32(|s|);
    assert p[off + 4..off + 4 + |s|] == p[off..off + 4 + |s|][4..] == s;
  }

  lemma CellRoundTrip(v: Value, p: Bytes, off: nat, rest: Bytes)
    requires Encodable(v) && off <= |p| && p[off..] == EncodeCell(v) + rest
    ensures off < |p| && (p[off] != 0 <==> v.Null?) && (v.Null? ==> |EncodeCell(v)| == 1)
    ensures !v.Null? ==> ReadCell(v.Kind(), p, off + 1) == Some(CellRead(v, off + |EncodeCell(v)|))
    ensures off + |EncodeCell(v)| <= |p| && p[off + |EncodeCell(v)|..] == rest
  {
    hide LittleEndian, FromLittleEndian;
    var code := EncodeCell(v);
    CodeInside(code, p, off, rest);
    match v {
      case Null(_) =>
      case Int(i) =>
        NumbersRoundTrip(Unsigned(i));
        assert code[1..] == Number64(Unsigned(i));
      case Dbl(d) =>
        NumbersRoundTrip(d);
        assert code[1..] == Number64(d);
      case Bool(x) =>
      case Text(s) =>
        assert code[1..] == Number32(|s|) + s;
        TextRoundTrip(s, p, off + 1);
    }
  }

  lemma {:induction false} RowRoundTripFrom(types: seq<FieldType>, row: Row, c: nat, p: Bytes, off: nat, cur: Row)
    requires RowFits(types, row) && EncodableRow(row) && c <= |types| == |cur| && off <= |p|
    requires cur[..c] == row[..c] && p[off..] == EncodeRow(row[c..])
    ensures DecodeCells(types, c, p, off, cur) == Decoded(row, true)
    decreases |types| - c
  {
    hide EncodeCell, ReadCell;
    if c < |types| {
      assert row[c..][0] == row[c] && row[c..][1..] == row[c + 1..];
      CellRoundTrip(row[c], p, off, EncodeRow(row[c + 1..]));
      RowRoundTripFrom(types, row, c + 1, p, off + |EncodeCell(row[c])|, cur[c := row[c]]);
    } else {
      assert cur == cur[..c] && row == row[..c];
    }
  }

  /** apply_row_payload undoes encode_row, whatever the row held before. */
  lemma RowRoundTrip(types: seq<FieldType>, row: Row, before: Row)
    requires RowFits(types, row) && EncodableRow(row) && |before| == |types|
    ensures DecodeCells(types, 0, EncodeRow(row), 0, before) == Decoded(row, true)
  {
    assert row[0..] == row && EncodeRow(row)[0..] == EncodeRow(row);
    RowRoundTripFrom(types, row, 0, EncodeRow(row), 0, before);
  }

  /******* Frames *******/

  /** The checksum over row, kind and payload. Nothing but its range matters to the results below. */
  type Checksum = (int, byte, Bytes) -> int

  ghost predicate ChecksumFits(check: Checksum) {
    forall row, kind, payload :: 0 <= check(row, kind, payload) < TWO_32
  }

  predicate EncodableFrame(f: Frame) {
    f.row < TWO_32 && (f.Put? ==> EncodableRow(f.cells) && |EncodeRow(f.cells)| < TWO_32)
  }

  function Payload(f: Frame): Bytes
    requires EncodableFrame(f)
  {
    if f.Put? then EncodeRow(f.cells) else []
  }

  function KindByte(f: Frame): byte {
    if f.Put? then 0 else 1
  }

  /** Magic, row, kind, payload length, checksum. */
  function FrameHead(f: Frame, check: Checksum): (b: Bytes)
    requires EncodableFrame(f) && ChecksumFits(check)
    ensures |b| == FRAME_HEAD
  {
    Number32(WAL_MAGIC) + Number32(f.row) + [KindByte(f)] + Number32(|Payload(f)|) + Number32(check(f.row, KindByte(f), Payload(f)))
  }

  function FrameBytes(f: Frame, check: Checksum): (b: Bytes)
    requires EncodableFrame(f) && ChecksumFits(check)
    ensures |b| == FRAME_HEAD + |Payload(f)|
  {
    FrameHead(f, check) + Payload(f)
  }

  ghost predicate AllEncodable(frames: seq<Frame>) {
    forall k :: 0 <= k < |frames| ==> EncodableFrame(frames[k])
  }

  ghost function FramesBytes(frames: seq<Frame>, check: Checksum): Bytes
    requires AllEncodable(frames) && ChecksumFits(check)
  {
    if frames == [] then [] else FrameBytes(frames[0], check) + FramesBytes(frames[1..], check)
  }

  datatype Parsed = Parsed(row: nat, kind: byte, payload: Bytes)

  /** The frame at the start of p; None when a read comes up short, the magic is wrong or the checksum does not match. */
  function ParseFrame(p: Bytes, check: Checksum): (r: Option<Parsed>)
    ensures r.Some? ==> FRAME_HEAD + |r.value.payload| <= |p|
  {
    if |p| < FRAME_HEAD || ReadNumber32(p[..4]) != WAL_MAGIC then None
    else
      var row, kind := ReadNumber32(p[4..8]), p[8];
      var n, checksum := ReadNumber32(p[9..13]), ReadNumber32(p[13..17]);
      if |p| < FRAME_HEAD + n || check(row, kind, p[17..17 + n]) != checksum then None
      else Some(Parsed(row, kind, p[17..17 + n]))
  }

  lemma HeadFields(f: Frame, check: Checksum)
    requires EncodableFrame(f) && ChecksumFits(check)
    ensures var h := FrameHead(f, check);
      && ReadNumber32(h[..4]) == WAL_MAGIC && ReadNumber32(h[4..8]) == f.row && h[8] == KindByte(f)
      && ReadNumber32(h[9..13]) == |Payload(f)| && ReadNumber32(h[13..17]) == check(f.row, KindByte(f), Payload(f))
  {
    hide Number32, ReadNumber32, LittleEndian, FromLittleEndian;
    var h, payload := FrameHead(f, check), Payload(f);
    NumbersRoundTrip(WAL_MAGIC);
    NumbersRoundTrip(f.row);
    NumbersRoundTrip(|payload|);
    NumbersRoundTrip(check(f.row, KindByte(f), payload));
    assert h[..4] == Number32(WAL_MAGIC) && h[4..8] == Number32(f.row);
    assert h[9..13] == Number32(|payload|) && h[13..17] == Number32(check(f.row, KindByte(f), payload));
  }

  lemma PrefixSlices(p: Bytes, h: Bytes)
    requires |h| == FRAME_HEAD <= |p| && p[..FRAME_HEAD] == h
    ensures p[..4] == h[..4] && p[4..8] == h[4..8] && p[8] == h[8] && p[9..13] == h[9..13] && p[13..17] == h[13..17]
  {
    forall k | 0 <= k < FRAME_HEAD ensures p[k] == h[k] {
      assert p[..FRAME_HEAD][k] == h[k];
    }
  }

  /** A frame cut short anywhere is not a frame; a whole one is read back. */
  lemma FrameRoundTrip(f: Frame, check: Checksum, rest: Bytes, n: nat)
    requires EncodableFrame(f) && ChecksumFits(check) && n <= |FrameBytes(f, check) + rest|
    ensures ParseFrame((FrameBytes(f, check) + rest)[..n], check) ==
      if n < |FrameBytes(f, check)| then None else Some(Parsed(f.row, KindByte(f), Payload(f)))
  {
    hide FrameHead, ReadNumber32, Payload;
    var p, h := (FrameBytes(f, check) + rest)[..n], FrameHead(f, check);
    if n >= FRAME_HEAD {
      HeadFields(f, check);
      PrefixSlices(p, h);
      if n >= FRAME_HEAD + |Payload(f)| {
        var all, m := FrameBytes(f, check) + rest, |Payload(f)|;
        assert all[17..17 + m] == Payload(f);
        assert p[17..17 + m] == all[17..17 + m];
      }
    }
  }

  /** One frame onto the table; false when its payload is too short for the schema, which ends the replay. */
  datatype Step = Step(t: TableState, more: bool)

  function ApplyParsed(t: TableState, f: Parsed): Step
    requires t.Valid()
  {
    GrownValid(t, f.row + 1);
    var g := Grown(t, f.row + 1);
    if f.kind == 1 then Step(g.SetDead(f.row, true), true)
    else
      var d := DecodeCells(t.schema.types, 0, f.payload, 0, g.rows[f.row]);
      Step(g.SetDead(f.row, false).(rows := g.rows[f.row := d.row]), d.ok)
  }

  lemma {:induction false} DecodedFits(types: seq<FieldType>, c: nat, p: Bytes, off: nat, row: Row)
    requires c <= |types| && RowFits(types, row) && off <= |p|
    ensures RowFits(types, DecodeCells(types, c, p, off, row).row)
    decreases |types| - c
  {
    if c < |types| && off < |p| {
      if p[off] != 0 {
        DecodedFits(types, c + 1, p, off + 1, row[c := Null(types[c])]);
      } else {
        var cell := ReadCell(types[c], p, off + 1);
        if cell.Some? {
          DecodedFits(types, c + 1, p, cell.value.next, row[c := cell.value.v]);
        }
      }
    }
  }

  lemma ApplyParsedValid(t: TableState, f: Parsed)
    requires t.Valid()
    ensures ApplyParsed(t, f).t.Valid() && ApplyParsed(t, f).t.schema == t.schema
  {
    GrownValid(t, f.row + 1);
    var g := Grown(t, f.row + 1);
    DecodedFits(t.schema.types, 0, f.payload, 0, g.rows[f.row]);
  }

  /** wal_replay after the header: frame by frame until one does not parse or does not fit. */
  function ReplayBytes(t: TableState, p: Bytes, check: Checksum): (r: TableState)
    requires t.Valid()
    decreases |p|
  {
    var f := ParseFrame(p, check);
    if f.None? then t
    else
      ApplyParsedValid(t, f.value);
      var s := ApplyParsed(t, f.value);
      if s.more then ReplayBytes(s.t, p[FRAME_HEAD + |f.value.payload|..], check) else s.t
  }

  /** The frames that lie wholly inside the first n bytes. */
  ghost function Whole(frames: seq<Frame>, check: Checksum, n: nat): (k: nat)
    requires AllEncodable(frames) && ChecksumFits(check)
    ensures k <= |frames|
    ensures n >= |FramesBytes(frames, check)| ==> k == |frames|
  {
    if frames == [] || n < |FrameBytes(frames[0], check)| then 0
    else 1 + Whole(frames[1..], check, n - |FrameBytes(frames[0], check)|)
  }

  lemma {:induction false} ReplayFirst(t: TableState, frames: seq<Frame>)
    requires frames != []
    ensures Replay(t, frames) == Replay(ApplyFrame(t, frames[0]), frames[1..])
  {
    if |frames| > 1 {
      var n := |frames| - 1;
      ReplayFirst(t, frames[..n]);
      assert frames[..n][1..] == frames[1..][..n - 1];
    } else {
      assert frames[..0] == [];
    }
  }

  /** A parsed frame of the table's own schema does what the frame says. */
  lemma ParsedFrameApplies(t: TableState, f: Frame)
    requires t.Valid() && EncodableFrame(f) && (f.Put? ==> RowFits(t.schema.types, f.cells))
    ensures ApplyParsed(t, Parsed(f.row, KindByte(f), Payload(f))) == Step(ApplyFrame(t, f), true)
  {
    hide DecodeCells, EncodeRow, Grown, EncodableRow;
    GrownValid(t, f.row + 1);
    if f.Put? {
      RowRoundTrip(t.schema.types, f.cells, Grown(t, f.row + 1).rows[f.row]);
    }
  }

  lemma ReplayOneFrame(t: TableState, f: Frame, check: Checksum, p: Bytes)
    requires t.Valid() && EncodableFrame(f) && (f.Put? ==> RowFits(t.schema.types, f.cells)) && ChecksumFits(check)
    requires ParseFrame(p, check) == Some(Parsed(f.row, KindByte(f), Payload(f)))
    ensures ApplyFrame(t, f).Valid() && ApplyFrame(t, f).schema == t.schema && |FrameBytes(f, check)| <= |p|
    ensures ReplayBytes(t, p, check) == ReplayBytes(ApplyFrame(t, f), p[|FrameBytes(f, check)|..], check)
  {
    hide ParseFrame, ApplyParsed, ApplyFrame, FrameBytes, Payload, KindByte, TableState.Valid, RowFits, EncodableFrame, ChecksumFits;
    ParsedFrameApplies(t, f);
    ApplyParsedValid(t, Parsed(f.row, KindByte(f), Payload(f)));
  }

  lemma ReplayNoFrame(t: TableState, check: Checksum, p: Bytes)
    requires t.Valid() && ParseFrame(p, check).None?
    ensures ReplayBytes(t, p, check) == t
  {
  }

  /** A log cut at any byte replays exactly the frames that survived whole. */
  lemma {:induction false} TornLogReplaysWholeFrames(t: TableState, frames: seq<Frame>, check: Checksum, n: nat)
    requires t.Valid() && AllEncodable(frames) && FramesFit(t.schema.types, frames) && ChecksumFits(check)
    requires n <= |FramesBytes(frames, check)|
    ensures ReplayBytes(t, FramesBytes(frames, check)[..n], check) == Replay(t, frames[..Whole(frames, check, n)])
    decreases |frames|
  {
    hide ParseFrame, ApplyFrame, FrameBytes, TableState.Valid, EncodableFrame, Replay, ReplayBytes;
    NothingReplayed(t, frames, check);
    if frames != [] {
      var f, rest := frames[0], frames[1..];
      var first, more := FrameBytes(f, check), FramesBytes(rest, check);
      var cut := (first + more)[..n];
      FrameRoundTrip(f, check, more, n);
      if n >= |first| {
        ReplayOneFrame(t, f, check, cut);
        assert cut[|first|..] == more[..n - |first|];
        TornLogReplaysWholeFrames(ApplyFrame(t, f), rest, check, n - |first|);
        ReplaySplit(t, frames, Whole(rest, check, n - |first|));
      } else {
        ReplayNoFrame(t, check, cut);
      }
    }
  }

  lemma NothingReplayed(t: TableState, frames: seq<Frame>, check: Checksum)
    requires t.Valid()
    ensures Replay(t, frames[..0]) == t && ReplayBytes(t, [], check) == t
  {
  }

  lemma ReplaySplit(t: TableState, frames: seq<Frame>, k: nat)
    requires k < |frames|
    ensures Replay(t, frames[..1 + k]) == Replay(ApplyFrame(t, frames[0]), frames[1..][..k])
  {
    ReplayFirst(t, frames[..1 + k]);
    assert frames[..1 + k][1..] == frames[1..][..k];
  }

  /******* Appends behind a torn frame *******/

  /** Whole frames are replayed, and then whatever follows them. */
  lemma {:induction false} ReplayBehindFrames(t: TableState, frames: seq<Frame>, check: Checksum, tail: Bytes)
    requires t.Valid() && AllEncodable(frames) && FramesFit(t.schema.types, frames) && ChecksumFits(check)
    ensures Replay(t, frames).Valid()
    ensures ReplayBytes(t, FramesBytes(frames, check) + tail, check) == ReplayBytes(Replay(t, frames), tail, check)
    decreases |frames|
  {
    hide ParseFrame, ApplyFrame, FrameBytes, TableState.Valid, EncodableFrame, Replay, ReplayBytes;
    ReplayFits(t, frames);
    if frames == [] {
      NothingReplayed(t, frames, check);
      assert frames[..0] == frames && FramesBytes(frames, check) + tail == tail;
    } else {
      var f, rest := frames[0], frames[1..];
      var first, more := FrameBytes(f, check), FramesBytes(rest, check);
      var all := first + (more + tail);
      assert FramesBytes(frames, check) + tail == all && all[..|all|] == all;
      FrameRoundTrip(f, check, more + tail, |all|);
      ReplayOneFrame(t, f, check, all);
      assert all[|first|..] == more + tail;
      ReplayBehindFrames(ApplyFrame(t, f), rest, check, tail);
      ReplayFirst(t, frames);
    }
  }

  /** A payload torn at this length and filled up from the bytes behind it. */
  function Filled(f: Frame, n: nat, later: Bytes): Bytes
    requires EncodableFrame(f) && n <= |Payload(f)|
  {
    Payload(f)[..n] + later
  }

  /** A torn frame with later appends behind it reads as a frame exactly if the payload so filled up has the checksum of the torn one. */
  lemma TornFrameExactly(f: Frame, check: Checksum, n: nat, later: Bytes)
    requires EncodableFrame(f) && ChecksumFits(check) && n < |Payload(f)|
    ensures var p, m := Filled(f, n, later), |Payload(f)|;
      ParseFrame(FrameBytes(f, check)[..FRAME_HEAD + n] + later, check).Some? <==>
        m <= |p| && check(f.row, KindByte(f), p[..m]) == check(f.row, KindByte(f), Payload(f))
  {
    hide FrameHead, ReadNumber32, Payload;
    var h, m := FrameHead(f, check), |Payload(f)|;
    var torn, p := FrameBytes(f, check)[..FRAME_HEAD + n] + later, Filled(f, n, later);
    HeadFields(f, check);
    assert torn == h + p;
    PrefixSlices(torn, h);
    if m <= |p| {
      assert torn[17..17 + m] == p[..m];
    }
  }

  /**
   Frames appended behind a torn one are lost with it: replay gives what lies before the tear, unless
   the bytes of the appends happen to complete the torn payload to its checksum.
   */
  lemma LostBehindTear(t: TableState, frames: seq<Frame>, f: Frame, n: nat, later: Bytes, check: Checksum)
    requires t.Valid() && AllEncodable(frames) && FramesFit(t.schema.types, frames) && ChecksumFits(check)
    requires EncodableFrame(f) && n < |Payload(f)|
    requires var p, m := Filled(f, n, later), |Payload(f)|;
      !(m <= |p| && check(f.row, KindByte(f), p[..m]) == check(f.row, KindByte(f), Payload(f)))
    ensures ReplayBytes(t, FramesBytes(frames, check) + (FrameBytes(f, check)[..FRAME_HEAD + n] + later), check) == Replay(t, frames)
  {
    hide ParseFrame, ApplyFrame, FrameBytes, TableState.Valid, EncodableFrame, Replay, ReplayBytes, FramesBytes, Payload;
    TornFrameExactly(f, check, n, later);
    ReplayBehindFrames(t, frames, check, FrameBytes(f, check)[..FRAME_HEAD + n] + later);
    ReplayNoFrame(Replay(t, frames), check, FrameBytes(f, check)[..FRAME_HEAD + n] + later);
  }
}
