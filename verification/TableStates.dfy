/**
 The abstract value of a table: its schema, its rows in storage order and which of
 them are tombstoned. A cell is a value; what a null cell has stored is not part of it.
 */
module TableStates {
  import opened Values

  datatype FkRef = FkRef(table: string, column: string)

  datatype Schema = Schema(names: seq<string>, types: seq<FieldType>, pk: Option<nat>, fks: seq<Option<FkRef>>)
  {
    predicate Valid() {
      && |names| == |types| == |fks|
      && (pk.Some? ==> pk.value < |types|)
    }

    /** First column of that name. */
    function FindColumn(name: string): (r: Option<nat>)
      ensures r.Some? ==> r.value < |names| && names[r.value] == name && name !in names[.. r.value]
      ensures r.None? <==> name !in names
    {
      FindFrom(names, name, 0)
    }

    predicate IsPk(col: nat) {
      pk == Some(col)
    }
  }

  function FindFrom(names: seq<string>, name: string, i: nat): (r: Option<nat>)
    requires i <= |names| && name !in names[..i]
    ensures r.Some? ==> r.value < |names| && names[r.value] == name && name !in names[.. r.value]
    ensures r.None? <==> name !in names
    decreases |names| - i
  {
    if i == |names| then None
    else if names[i] == name then Some(i)
    else FindFrom(names, name, i + 1)
  }

  type Row = seq<Value>

  predicate RowFits(types: seq<FieldType>, row: Row) {
    |row| == |types| && forall c :: 0 <= c < |row| ==> row[c].Kind() == types[c]
  }

  function NullRow(types: seq<FieldType>): (r: Row)
    ensures RowFits(types, r) && forall c :: 0 <= c < |r| ==> r[c].Null?
  {
    seq(|types|, c requires 0 <= c < |types| => Null(types[c]))
  }

  datatype TableState = TableState(schema: Schema, rows: seq<Row>, dead: seq<bool>)
  {
    ghost predicate Valid() {
      && schema.Valid()
      && |rows| == |dead|
      && forall r :: 0 <= r < |rows| ==> RowFits(schema.types, rows[r])
    }

    predicate Live(r: int) {
      0 <= r < |dead| && !dead[r]
    }

    predicate HasCell(r: int, c: int) {
      0 <= r < |rows| && 0 <= c < |rows[r]|
    }

    function Cell(r: nat, c: nat): Value
      requires HasCell(r, c)
    {
      rows[r][c]
    }

    function AppendNull(): TableState {
      this.(rows := rows + [NullRow(schema.types)], dead := dead + [false])
    }

    function PutCell(r: nat, c: nat, v: Value): TableState {
      if HasCell(r, c) then this.(rows := rows[r := rows[r][c := v]]) else this
    }

    function SetDead(r: nat, d: bool): TableState {
      if r < |dead| then this.(dead := dead[r := d]) else this
    }

    /** A live row other than row holds an equal value in the column. */
    ghost predicate HasDuplicate(c: nat, row: nat) {
      HasCell(row, c) && exists r :: r != row && Holds(r, c, Cell(row, c))
    }

    /** A live row holds a value equal to v in the column. */
    ghost predicate HasMatch(c: nat, v: Value) {
      exists r :: Holds(r, c, v)
    }

    predicate Holds(r: int, c: nat, v: Value) {
      Live(r) && HasCell(r, c) && CellEqual(v, rows[r][c])
    }
  }

  /** What can be seen of one row number. */
  datatype RowView = Absent | Gone | Present(cells: Row)

  function ViewOf(t: TableState, r: nat): RowView {
    if r >= |t.rows| || r >= |t.dead| then Absent else if t.dead[r] then Gone else Present(t.rows[r])
  }

  /** What a reader can see of a table: its live row numbers and their cells. */
  function Visible(t: TableState): map<nat, Row> {
    map r: nat | r < |t.rows| && ViewOf(t, r).Present? :: t.rows[r]
  }

  /** The same to a reader: one row, or none in both. */
  predicate SameShown(a: RowView, b: RowView) {
    a == b || (!a.Present? && !b.Present?)
  }

  lemma VisibleRowByRow(s: TableState, t: TableState)
    ensures Visible(s) == Visible(t) <==> forall r: nat :: SameShown(ViewOf(s, r), ViewOf(t, r))
  {
    if Visible(s) == Visible(t) {
      forall r: nat ensures SameShown(ViewOf(s, r), ViewOf(t, r)) {
        assert r in Visible(s) <==> r in Visible(t);
        assert r in Visible(s) ==> Visible(s)[r] == Visible(t)[r];
      }
    }
    if forall r: nat :: SameShown(ViewOf(s, r), ViewOf(t, r)) {
      forall r: nat ensures r in Visible(s) <==> r in Visible(t) ensures r in Visible(s) ==> Visible(s)[r] == Visible(t)[r] {
        assert SameShown(ViewOf(s, r), ViewOf(t, r));
      }
    }
  }

  /** The rows that are not tombstoned, in storage order. */
  function LiveRows(rows: seq<Row>, dead: seq<bool>): seq<Row>
    requires |rows| == |dead|
  {
    if rows == [] then []
    else if dead[|rows| - 1] then LiveRows(rows[..|rows| - 1], dead[..|rows| - 1])
    else LiveRows(rows[..|rows| - 1], dead[..|rows| - 1]) + [rows[|rows| - 1]]
  }

  /** A property of all live rows is one of all rows kept. */
  lemma {:induction false} LiveRowsAre(rows: seq<Row>, dead: seq<bool>, good: Row -> bool)
    requires |rows| == |dead|
    ensures (forall k :: 0 <= k < |LiveRows(rows, dead)| ==> good(LiveRows(rows, dead)[k])) <==>
      forall r :: 0 <= r < |rows| && !dead[r] ==> good(rows[r])
  {
    if rows != [] {
      var n := |rows| - 1;
      LiveRowsAre(rows[..n], dead[..n], good);
      var kept, all := LiveRows(rows[..n], dead[..n]), LiveRows(rows, dead);
      assert forall r :: 0 <= r < n ==> rows[..n][r] == rows[r] && dead[..n][r] == dead[r];
      if !dead[n] {
        assert all == kept + [rows[n]];
        assert (forall k :: 0 <= k < |all| ==> good(all[k])) <==> (forall k :: 0 <= k < |kept| ==> good(kept[k])) && good(rows[n]) by {
          assert all[|kept|] == rows[n] && forall k :: 0 <= k < |kept| ==> kept[k] == all[k];
        }
      }
    }
  }

  /** A property of all pairs of live rows is one of all pairs of rows kept. */
  lemma {:induction false} LiveRowsPairwise(rows: seq<Row>, dead: seq<bool>, good: (Row, Row) -> bool)
    requires |rows| == |dead|
    ensures var kept := LiveRows(rows, dead);
      (forall j, k :: 0 <= j < k < |kept| ==> good(kept[j], kept[k])) <==>
        forall q, r :: 0 <= q < r < |rows| && !dead[q] && !dead[r] ==> good(rows[q], rows[r])
  {
    if rows != [] {
      var n := |rows| - 1;
      var kept, all := LiveRows(rows[..n], dead[..n]), LiveRows(rows, dead);
      LiveRowsPairwise(rows[..n], dead[..n], good);
      assert forall r :: 0 <= r < n ==> rows[..n][r] == rows[r] && dead[..n][r] == dead[r];
      if !dead[n] {
        LiveRowsAre(rows[..n], dead[..n], row => good(row, rows[n]));
        assert all == kept + [rows[n]];
        assert forall k :: 0 <= k < |kept| ==> kept[k] == all[k];
        assert (forall j, k :: 0 <= j < k < |all| ==> good(all[j], all[k])) <==>
          (forall j, k :: 0 <= j < k < |kept| ==> good(kept[j], kept[k])) && forall j :: 0 <= j < |kept| ==> good(kept[j], rows[n]) by {
          assert all[|kept|] == rows[n];
        }
      }
    }
  }

  lemma {:induction false} LiveRowsTwice(rows: seq<Row>)
    ensures LiveRows(rows, seq(|rows|, _ => false)) == rows
  {
    var dead := seq(|rows|, _ => false);
    LiveRowsWithoutGaps(rows, dead);
  }

  /** No live row lies above a tombstone. */
  predicate NoGaps(dead: seq<bool>) {
    forall p, q :: 0 <= p < q < |dead| && dead[p] ==> dead[q]
  }

  /** Without gaps compaction renumbers nothing: it drops the tombstones at the end. */
  lemma {:induction false} LiveRowsWithoutGaps(rows: seq<Row>, dead: seq<bool>)
    requires |rows| == |dead| && NoGaps(dead)
    ensures var n := |LiveRows(rows, dead)|;
      n <= |rows| && LiveRows(rows, dead) == rows[..n] && forall r :: 0 <= r < |dead| ==> (dead[r] <==> r >= n)
  {
    if rows != [] {
      var k := |rows| - 1;
      LiveRowsWithoutGaps(rows[..k], dead[..k]);
      assert forall r :: 0 <= r < k ==> dead[..k][r] == dead[r];
      if !dead[k] {
        assert rows[..k] + [rows[k]] == rows;
      }
    }
  }

  /** At least the first d rows are kept, and one more if any later row is live. */
  lemma {:induction false} LiveRowsAtLeast(rows: seq<Row>, dead: seq<bool>, d: nat)
    requires |rows| == |dead| && d <= |dead| && forall r :: 0 <= r < d ==> !dead[r]
    ensures |LiveRows(rows, dead)| >= d
    ensures (exists r :: d <= r < |dead| && !dead[r]) ==> |LiveRows(rows, dead)| > d
  {
    if rows != [] {
      var k := |rows| - 1;
      LiveRowsAtLeast(rows[..k], dead[..k], if d <= k then d else k);
      assert forall r :: 0 <= r < k ==> dead[..k][r] == dead[r];
    }
  }

  /** Of the first m rows one is dead, and all later ones are. */
  lemma {:induction false} LiveRowsAtMost(rows: seq<Row>, dead: seq<bool>, d: nat, m: nat)
    requires |rows| == |dead| && d < m <= |dead| && dead[d] && forall r :: m <= r < |dead| ==> dead[r]
    ensures |LiveRows(rows, dead)| < m
  {
    var k := |rows| - 1;
    if k >= m {
      LiveRowsAtMost(rows[..k], dead[..k], d, m);
    } else if d < k {
      LiveRowsAtMost(rows[..k], dead[..k], d, k);
    } else {
      LiveRowsNoMore(rows[..k], dead[..k]);
    }
  }

  lemma {:induction false} LiveRowsNoMore(rows: seq<Row>, dead: seq<bool>)
    requires |rows| == |dead|
    ensures |LiveRows(rows, dead)| <= |rows|
  {
    if rows != [] {
      LiveRowsNoMore(rows[..|rows| - 1], dead[..|dead| - 1]);
    }
  }

  lemma {:induction false} FirstDead(dead: seq<bool>, p: nat) returns (d: nat)
    requires p < |dead| && dead[p]
    ensures d <= p && dead[d] && forall r :: 0 <= r < d ==> !dead[r]
  {
    d := p;
    if r :| 0 <= r < p && dead[r] {
      d := FirstDead(dead, r);
    }
  }

  lemma {:induction false} LastLive(dead: seq<bool>, q: nat) returns (l: nat)
    requires q < |dead| && !dead[q]
    ensures q <= l < |dead| && !dead[l] && forall r :: l < r < |dead| ==> dead[r]
    decreases |dead| - q
  {
    l := q;
    if r :| q < r < |dead| && !dead[r] {
      l := LastLive(dead, r);
    }
  }

  /** With a gap compaction moves the last live row down, to or past the number of the first tombstone. */
  lemma CompactionClosesGap(rows: seq<Row>, dead: seq<bool>) returns (d: nat, l: nat)
    requires |rows| == |dead| && !NoGaps(dead)
    ensures d < |LiveRows(rows, dead)| <= l < |dead| && dead[d] && !dead[l]
  {
    var p, q :| 0 <= p < q < |dead| && dead[p] && !dead[q];
    d := FirstDead(dead, p);
    l := LastLive(dead, q);
    LiveRowsAtLeast(rows, dead, d);
    LiveRowsAtMost(rows, dead, d, l + 1);
  }

  function CountDead(dead: seq<bool>): nat {
    if dead == [] then 0 else CountDead(dead[..|dead| - 1]) + if dead[|dead| - 1] then 1 else 0
  }

  lemma CountDeadAlive(dead: seq<bool>)
    ensures CountDead(dead + [false]) == CountDead(dead)
  {
    assert (dead + [false])[..|dead|] == dead;
  }

  lemma {:induction false} CountDeadUpdate(dead: seq<bool>, r: nat, d: bool)
    requires r < |dead| && dead[r] != d
    ensures CountDead(dead[r := d]) == CountDead(dead) + if d then 1 else -1
  {
    var n := |dead| - 1;
    if r < n {
      CountDeadUpdate(dead[..n], r, d);
      assert dead[r := d][..n] == dead[..n][r := d];
    } else {
      assert dead[r := d][..n] == dead[..n];
    }
  }

  lemma LiveRowsOfNone(rows: seq<Row>, dead: seq<bool>)
    requires |rows| == |dead|
    ensures LiveRows(rows[..0], dead[..0]) == []
  {
  }

  lemma LiveRowsStep(rows: seq<Row>, dead: seq<bool>, i: nat)
    requires i < |rows| == |dead|
    ensures LiveRows(rows[..i + 1], dead[..i + 1]) == LiveRows(rows[..i], dead[..i]) + if dead[i] then [] else [rows[i]]
  {
    assert rows[..i + 1][..i] == rows[..i] && dead[..i + 1][..i] == dead[..i];
  }

  lemma {:induction false} NoneDead(dead: seq<bool>)
    requires forall r :: 0 <= r < |dead| ==> !dead[r]
    ensures CountDead(dead) == 0
  {
    if dead != [] {
      NoneDead(dead[..|dead| - 1]);
    }
  }

  lemma {:induction false} LiveRowsFit(types: seq<FieldType>, rows: seq<Row>, dead: seq<bool>)
    requires |rows| == |dead| && forall r :: 0 <= r < |rows| ==> RowFits(types, rows[r])
    ensures forall r :: 0 <= r < |LiveRows(rows, dead)| ==> RowFits(types, LiveRows(rows, dead)[r])
  {
    if rows != [] {
      LiveRowsFit(types, rows[..|rows| - 1], dead[..|dead| - 1]);
    }
  }
}
