/**
 Where everything lies in a frame, byte by byte, and what a payload that ends early leaves of a row.
 */
module WalLayout {
  import opened Values
  import opened TableStates
  import opened Frames
  import opened WalBytes
  import opened WalFiles

  /** The number in k bytes from p on, the lowest byte first. */
  function NumberAt(b: Bytes, p: nat, k: nat): int
    requires p + k <= |b|
  {
    if k == 0 then 0 else NumberAt(b, p, k - 1) + b[p + k - 1] * Pow256(k - 1)
  }

  predicate Spells(b: Bytes, p: nat, word: string) {
    p + |word| <= |b| && forall k :: 0 <= k < |word| ==> b[p + k] == word[k] as int
  }

  lemma {:induction false} NumberAtFirst(b: Bytes, p: nat, k: nat)
    requires k > 0 && p + k <= |b|
    ensures NumberAt(b, p, k) == b[p] + 256 * NumberAt(b, p + 1, k - 1)
  {
    if k > 1 {
      NumberAtFirst(b, p, k - 1);
      ShiftedDigit(NumberAt(b, p + 1, k - 2), b[p + k - 1], Pow256(k - 2));
      assert Pow256(k - 1) == 256 * Pow256(k - 2);
      assert b[p + k - 1] == b[p + 1 + (k - 2)];
    }
  }

  lemma ShiftedDigit(low: int, d: int, p: int)
    ensures 256 * (low + d * p) == 256 * low + d * (256 * p)
  {
  }

  lemma {:induction false} NumberIsWritten(n: int, k: nat, b: Bytes, p: nat)
    requires 0 <= n < Pow256(k) && p + k <= |b| && b[p..p + k] == LittleEndian(n, k)
    ensures NumberAt(b, p, k) == n
  {
    if k > 0 {
      assert b[p] == b[p..p + k][0];
      assert b[p + 1..p + k] == b[p..p + k][1..] == LittleEndian(n / 256, k - 1);
      NumberIsWritten(n / 256, k - 1, b, p + 1);
      NumberAtFirst(b, p, k);
    }
  }

  /** "WAL1", row number, kind, payload length and checksum, then the payload: a row's cells, or nothing for a tombstone. */
  lemma FrameLayout(f: Frame, check: Checksum)
    requires EncodableFrame(f) && ChecksumFits(check)
    ensures var b, payload := FrameBytes(f, check), if f.Put? then EncodeRow(f.cells) else [];
      && |b| == 17 + |payload| && b[17..] == payload
      && Spells(b, 0, "WAL1") && NumberAt(b, 4, 4) == f.row && b[8] == (if f.Put? then 0 else 1)
      && NumberAt(b, 9, 4) == |payload| && NumberAt(b, 13, 4) == check(f.row, b[8], payload)
  {
    hide LittleEndian, NumberAt, EncodeRow;
    var b, payload := FrameBytes(f, check), Payload(f);
    PowersOf256();
    assert b[0..4] == Number32(WAL_MAGIC) && b[4..8] == Number32(f.row);
    assert b[9..13] == Number32(|payload|) && b[13..17] == Number32(check(f.row, KindByte(f), payload));
    NumberIsWritten(f.row, 4, b, 4);
    NumberIsWritten(|payload|, 4, b, 9);
    NumberIsWritten(check(f.row, KindByte(f), payload), 4, b, 13);
    MagicBytes(b);
  }

  lemma MagicBytes(b: Bytes)
    requires |b| >= 4 && b[0..4] == Number32(WAL_MAGIC)
    ensures Spells(b, 0, "WAL1")
  {
    assert LittleEndian(0x314C4157, 4) == [0x57] + LittleEndian(0x314C41, 3);
    assert LittleEndian(0x314C41, 3) == [0x41] + LittleEndian(0x314C, 2);
    assert LittleEndian(0x314C, 2) == [0x4C] + LittleEndian(0x31, 1);
    assert LittleEndian(0x31, 1) == [0x31] + LittleEndian(0, 0);
    assert b[0] == b[0..4][0] && b[1] == b[0..4][1] && b[2] == b[0..4][2] && b[3] == b[0..4][3];
  }

  lemma HeaderLayout(fingerprint: int)
    requires 0 <= fingerprint < TWO_32
    ensures var b := Header(fingerprint); |b| == 8 && Spells(b, 0, "WL4H") && NumberAt(b, 4, 4) == fingerprint
  {
    hide NumberAt;
    var b := Header(fingerprint);
    PowersOf256();
    assert b[0..4] == Number32(WAL_HEADER_MAGIC) && b[4..8] == LittleEndian(fingerprint, 4);
    NumberIsWritten(fingerprint, 4, b, 4);
    assert LittleEndian(0x48344C57, 4) == [0x57] + LittleEndian(0x48344C, 3);
    assert LittleEndian(0x48344C, 3) == [0x4C] + LittleEndian(0x4834, 2);
    assert LittleEndian(0x4834, 2) == [0x34] + LittleEndian(0x48, 1);
    assert LittleEndian(0x48, 1) == [0x48] + LittleEndian(0, 0);
    assert b[0] == b[0..4][0] && b[1] == b[0..4][1] && b[2] == b[0..4][2] && b[3] == b[0..4][3];
  }

  /** A null flag; then eight bytes of an INT in two's complement or of a DOUBLE, one byte of a BOOL, or length and bytes of a TEXT. */
  lemma CellLayout(v: Value)
    requires Encodable(v)
    ensures var b := EncodeCell(v);
      match v
      case Null(_) => b == [1]
      case Int(i) => |b| == 9 && b[0] == 0 && NumberAt(b, 1, 8) == if i < 0 then i + TWO_64 else i
      case Dbl(d) => |b| == 9 && b[0] == 0 && NumberAt(b, 1, 8) == d
      case Bool(x) => b == [0, if x then 1 else 0]
      case Text(s) => |b| == 5 + |s| && b[0] == 0 && NumberAt(b, 1, 4) == |s| && b[5..] == s
  {
    hide LittleEndian, NumberAt;
    var b := EncodeCell(v);
    PowersOf256();
    match v {
      case Int(i) =>
        assert b[1..9] == Number64(Unsigned(i));
        NumberIsWritten(Unsigned(i), 8, b, 1);
      case Dbl(d) =>
        assert b[1..9] == Number64(d);
        NumberIsWritten(d, 8, b, 1);
      case Text(s) =>
        assert b[1..5] == Number32(|s|);
        NumberIsWritten(|s|, 4, b, 1);
      case _ =>
    }
  }

  /** The cells of a row follow each other in column order, without anything between them. */
  lemma {:induction false} RowLayout(row: Row, c: nat)
    requires EncodableRow(row) && c < |row|
    ensures EncodeRow(row) == EncodeRow(row[..c]) + EncodeCell(row[c]) + EncodeRow(row[c + 1..])
  {
    hide EncodeCell;
    if c > 0 {
      var rest := row[1..];
      RowLayout(rest, c - 1);
      assert rest[..c - 1] == row[..c][1..] && rest[c..] == row[c + 1..] && rest[c - 1] == row[c];
      FrontFirst(EncodeCell(row[0]), EncodeRow(rest[..c - 1]), EncodeCell(row[c]), EncodeRow(row[c + 1..]));
    } else {
      assert row[..0] == [] && EncodeRow(row[..0]) == [];
    }
  }

  lemma FrontFirst(a: Bytes, b: Bytes, c: Bytes, d: Bytes)
    ensures a + (b + c + d) == (a + b) + c + d
  {
  }

  /******* A payload that ends early *******/

  /** The first k cells of a row, the others as they were. */
  function Upto(row: Row, before: Row, k: nat): Row
    requires k <= |row| == |before|
  {
    row[..k] + before[k..]
  }

  /** What of a row lies wholly inside the first n bytes of its encoding. */
  ghost predicate CutAt(row: Row, n: nat, k: nat)
    requires EncodableRow(row)
  {
    && k <= |row| && |EncodeRow(row[..k])| <= n
    && (k < |row| ==> n < |EncodeRow(row[..k])| + |EncodeCell(row[k])|)
  }

  /** A cell cut short is not read. */
  lemma CutCell(v: Value, p: Bytes, off: nat)
    requires Encodable(v) && off < |p| && |p| - off < |EncodeCell(v)| && p[off..] == EncodeCell(v)[..|p| - off]
    ensures !v.Null? && p[off] == 0 && ReadCell(v.Kind(), p, off + 1).None?
  {
    hide LittleEndian, FromLittleEndian;
    var code, r := EncodeCell(v), |p| - off;
    assert p[off..][0] == p[off] == code[0];
    if v.Text? && r >= 5 {
      NumbersRoundTrip(|v.s|);
      assert code[1..5] == Number32(|v.s|);
      assert p[off + 1..off + 5] == p[off..][1..5] == code[..r][1..5] == code[1..5];
    }
  }

  lemma {:induction false} CutRowFrom(types: seq<FieldType>, row: Row, c: nat, p: Bytes, off: nat, cur: Row, before: Row, k: nat)
    requires RowFits(types, row) && EncodableRow(row) && c <= k <= |types| == |cur| == |before| && off <= |p|
    requires cur == Upto(row, before, c) && |p| - off <= |EncodeRow(row[c..])| && p[off..] == EncodeRow(row[c..])[..|p| - off]
    requires CutAt(row[c..], |p| - off, k - c)
    ensures DecodeCells(types, c, p, off, cur) == Decoded(Upto(row, before, k), |p| - off == |EncodeRow(row[c..][..k - c])|)
    decreases |types| - c
  {
    hide EncodeCell, ReadCell, CutAt;
    var all, r := EncodeRow(row[c..]), |p| - off;
    CutAtFirst(row[c..], r, k - c);
    if c < |types| {
      assert row[c..][0] == row[c] && row[c..][1..] == row[c + 1..];
      var code, more := EncodeCell(row[c]), EncodeRow(row[c + 1..]);
      if c == k {
        if r > 0 {
          assert p[off..] == code[..r];
          CutCell(row[c], p, off);
        }
      } else {
        assert p[off..] == code + more[..r - |code|];
        CellRoundTrip(row[c], p, off, more[..r - |code|]);
        assert cur[c := row[c]] == Upto(row, before, c + 1);
        CutRowFrom(types, row, c + 1, p, off + |code|, cur[c := row[c]], before, k);
        assert row[c..][..k - c][1..] == row[c + 1..][..k - c - 1] && row[c..][..k - c][0] == row[c];
      }
    }
  }

  lemma CutAtFirst(row: Row, n: nat, k: nat)
    requires EncodableRow(row) && CutAt(row, n, k) && n <= |EncodeRow(row)|
    ensures k == 0 && row != [] ==> n < |EncodeCell(row[0])|
    ensures row == [] ==> n == 0
    ensures k > 0 ==> n >= |EncodeCell(row[0])| && CutAt(row[1..], n - |EncodeCell(row[0])|, k - 1)
    ensures k == 0 ==> EncodeRow(row[..k]) == []
  {
    hide EncodeCell;
    if k > 0 {
      assert row[..k][0] == row[0] && row[..k][1..] == row[1..][..k - 1];
    }
  }

  /**
   However many bytes of a payload there are: the cells wholly inside are read, the others stay as they were, and
   the replay goes on exactly if the cut lies between two cells.
   */
  lemma CutPayloadExactly(types: seq<FieldType>, row: Row, before: Row, n: nat, k: nat)
    requires RowFits(types, row) && EncodableRow(row) && |before| == |types| && n <= |EncodeRow(row)| && CutAt(row, n, k)
    ensures DecodeCells(types, 0, EncodeRow(row)[..n], 0, before) == Decoded(Upto(row, before, k), n == |EncodeRow(row[..k])|)
  {
    hide EncodeRow;
    assert row[0..] == row && EncodeRow(row)[..n][0..] == EncodeRow(row)[..n] && Upto(row, before, 0) == before;
    CutRowFrom(types, row, 0, EncodeRow(row)[..n], 0, before, before, k);
  }

  /** The first k cells of a row of the table, put in place of what it held; the row is live again. */
  function PartOf(t: TableState, r: nat, row: Row, k: nat): TableState
    requires t.Valid() && k <= |row| == |t.schema.types|
  {
    GrownValid(t, r + 1);
    var g := Grown(t, r + 1);
    g.SetDead(r, false).(rows := g.rows[r := Upto(row, g.rows[r], k)])
  }

  /** A frame with a good checksum whose payload ends inside a cell: its first cells are applied, and replay ends there, whatever follows. */
  lemma ShortPayloadEndsReplay(t: TableState, r: nat, row: Row, n: nat, k: nat, p: Bytes, check: Checksum)
    requires t.Valid() && RowFits(t.schema.types, row) && EncodableRow(row) && n <= |EncodeRow(row)|
    requires CutAt(row, n, k) && n != |EncodeRow(row[..k])|
    requires ParseFrame(p, check) == Some(Parsed(r, 0, EncodeRow(row)[..n]))
    ensures ReplayBytes(t, p, check) == PartOf(t, r, row, k)
  {
    hide ParseFrame, EncodeRow, DecodeCells, Grown, CutAt;
    GrownValid(t, r + 1);
    CutPayloadExactly(t.schema.types, row, Grown(t, r + 1).rows[r], n, k);
  }
}
