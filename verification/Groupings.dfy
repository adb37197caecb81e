/**
 GROUP BY: rows sorted by their group key, cut into runs of equal keys, one output line a
 run. The sort itself is any permutation that respects the key order.
 */
module Groupings {
  import opened Values
  import opened TableStates
  import opened Tables
  import opened Operators

  /******* The key order *******/

  /** NULL sorts before every value and equals NULL. */
  function CompareCells(a: Value, b: Value): int
    requires a.Null? || b.Null? || Comparable(a, b)
  {
    if a.Null? && b.Null? then 0
    else if a.Null? then -1
    else if b.Null? then 1
    else CompareValues(a, b)
  }

  /** The columns exist, and hold no NaN. */
  ghost predicate Groupable(t: TableState, cols: seq<nat>) {
    && t.Valid()
    && (forall i :: 0 <= i < |cols| ==> cols[i] < |t.schema.types|)
    && (forall i, r :: 0 <= i < |cols| && 0 <= r < |t.rows| ==> Ordered(t.rows[r][cols[i]]))
  }

  /** group_key_cmp from the i-th group column on. */
  function CompareKeys(t: TableState, cols: seq<nat>, i: nat, a: nat, b: nat): int
    requires Groupable(t, cols) && i <= |cols| && a < |t.rows| && b < |t.rows|
    decreases |cols| - i
  {
    if i == |cols| then 0
    else
      var c := CompareCells(t.rows[a][cols[i]], t.rows[b][cols[i]]);
      if c != 0 then c else CompareKeys(t, cols, i + 1, a, b)
  }

  predicate SameKey(t: TableState, cols: seq<nat>, a: nat, b: nat)
    requires Groupable(t, cols) && a < |t.rows| && b < |t.rows|
  {
    CompareKeys(t, cols, 0, a, b) == 0
  }

  lemma CompareCellsOrder(a: Value, b: Value, c: Value)
    requires a.Kind() == b.Kind() == c.Kind() && Ordered(a) && Ordered(b) && Ordered(c)
    ensures CompareCells(a, a) == 0
    ensures CompareCells(a, b) < 0 <==> CompareCells(b, a) > 0
    ensures CompareCells(a, b) <= 0 && CompareCells(b, c) <= 0 ==> CompareCells(a, c) <= 0
    ensures CompareCells(a, b) <= 0 && CompareCells(b, c) <= 0 && CompareCells(a, c) == 0 ==> CompareCells(a, b) == 0 && CompareCells(b, c) == 0
  {
    if !a.Null? && !b.Null? {
      CompareIsTotalPreorder(a, b, a);
    }
    if !a.Null? && !b.Null? && !c.Null? {
      CompareIsTotalPreorder(a, b, c);
      CompareIsTotalPreorder(b, c, a);
      CompareIsTotalPreorder(c, a, b);
      CompareIsTotalPreorder(b, a, c);
      CompareIsTotalPreorder(c, b, a);
      CompareIsTotalPreorder(a, c, b);
    } else if !a.Null? {
      CompareIsTotalPreorder(a, a, a);
    }
  }

  /** The order on keys is a total preorder, so a sort by it is well defined. */
  lemma {:induction false} KeyOrder(t: TableState, cols: seq<nat>, i: nat, a: nat, b: nat, c: nat)
    requires Groupable(t, cols) && i <= |cols| && a < |t.rows| && b < |t.rows| && c < |t.rows|
    ensures CompareKeys(t, cols, i, a, a) == 0
    ensures CompareKeys(t, cols, i, a, b) < 0 <==> CompareKeys(t, cols, i, b, a) > 0
    ensures CompareKeys(t, cols, i, a, b) <= 0 && CompareKeys(t, cols, i, b, c) <= 0 ==> CompareKeys(t, cols, i, a, c) <= 0
    decreases |cols| - i
  {
    if i < |cols| {
      CompareCellsOrder(t.rows[a][cols[i]], t.rows[b][cols[i]], t.rows[c][cols[i]]);
      CompareCellsOrder(t.rows[b][cols[i]], t.rows[a][cols[i]], t.rows[b][cols[i]]);
      KeyOrder(t, cols, i + 1, a, b, c);
    }
  }

  /** NULL before every value, values by number, truth value or bytes. */
  ghost predicate CellBefore(a: Value, b: Value)
    requires a.Null? || b.Null? || Comparable(a, b)
  {
    if a.Null? || b.Null? then a.Null? && !b.Null? else Before(a, b)
  }

  /** Rows a and b tie on the group columns from i up to k, and in column k the cell of a comes first. */
  ghost predicate KeyBeforeAt(t: TableState, cols: seq<nat>, i: nat, a: nat, b: nat, k: nat)
    requires Groupable(t, cols) && a < |t.rows| && b < |t.rows|
  {
    && i <= k < |cols| && CellBefore(t.rows[a][cols[k]], t.rows[b][cols[k]])
    && forall j :: i <= j < k ==> !CellBefore(t.rows[a][cols[j]], t.rows[b][cols[j]]) && !CellBefore(t.rows[b][cols[j]], t.rows[a][cols[j]])
  }

  ghost predicate KeyBefore(t: TableState, cols: seq<nat>, i: nat, a: nat, b: nat)
    requires Groupable(t, cols) && a < |t.rows| && b < |t.rows|
  {
    exists k: nat :: KeyBeforeAt(t, cols, i, a, b, k)
  }

  /** Keys are ordered by the first group column on which they differ. */
  lemma {:induction false} KeyOrderMeans(t: TableState, cols: seq<nat>, i: nat, a: nat, b: nat)
    requires Groupable(t, cols) && i <= |cols| && a < |t.rows| && b < |t.rows|
    ensures CompareKeys(t, cols, i, a, b) < 0 <==> KeyBefore(t, cols, i, a, b)
    ensures CompareKeys(t, cols, i, a, b) > 0 <==> KeyBefore(t, cols, i, b, a)
    decreases |cols| - i
  {
    if i < |cols| {
      var x, y := t.rows[a][cols[i]], t.rows[b][cols[i]];
      CellOrder(x, y);
      KeyOrderMeans(t, cols, i + 1, a, b);
      FirstColumnDecides(t, cols, i, a, b);
      FirstColumnDecides(t, cols, i, b, a);
    }
  }

  lemma FirstColumnDecides(t: TableState, cols: seq<nat>, i: nat, a: nat, b: nat)
    requires Groupable(t, cols) && i < |cols| && a < |t.rows| && b < |t.rows|
    ensures KeyBefore(t, cols, i, a, b) <==>
      || CellBefore(t.rows[a][cols[i]], t.rows[b][cols[i]])
      || (!CellBefore(t.rows[b][cols[i]], t.rows[a][cols[i]]) && KeyBefore(t, cols, i + 1, a, b))
  {
    hide CellBefore;
    if k: nat :| KeyBeforeAt(t, cols, i, a, b, k) {
      assert k == i || KeyBeforeAt(t, cols, i + 1, a, b, k);
    }
    if CellBefore(t.rows[a][cols[i]], t.rows[b][cols[i]]) {
      assert KeyBeforeAt(t, cols, i, a, b, i);
    } else if !CellBefore(t.rows[b][cols[i]], t.rows[a][cols[i]]) && KeyBefore(t, cols, i + 1, a, b) {
      var next := i + 1;
      var k: nat :| KeyBeforeAt(t, cols, next, a, b, k);
      assert KeyBeforeAt(t, cols, i, a, b, k);
    }
  }

  lemma CellOrder(a: Value, b: Value)
    requires a.Kind() == b.Kind()
    ensures CompareCells(a, b) < 0 <==> CellBefore(a, b)
    ensures CompareCells(a, b) > 0 <==> CellBefore(b, a)
  {
    hide CompareValues, Before;
    if !a.Null? && !b.Null? {
      CompareIsBefore(a, b);
    }
  }

  /** group_key_equal: column by column, NULL equal to NULL only. */
  method KeyEqual(table: Table, cols: seq<nat>, a: nat, b: nat) returns (same: bool)
    requires table.Valid() && Groupable(table.State(), cols) && a < |table.dead| && b < |table.dead|
    ensures same <==> SameKey(table.State(), cols, a, b)
  {
    hide Table.Valid, Table.Stored;
    var i := 0;
    while i < |cols|
      invariant i <= |cols|
      invariant CompareKeys(table.State(), cols, 0, a, b) == CompareKeys(table.State(), cols, i, a, b)
    {
      var x, y := table.ReadColumn(a, cols[i]), table.ReadColumn(b, cols[i]);
      if x.Null? != y.Null? || (!x.Null? && CompareValues(x, y) != 0) {
        return false;
      }
      i := i + 1;
    }
    return true;
  }

  /******* Runs *******/

  ghost predicate RowsOf(t: TableState, rows: seq<nat>) {
    forall k :: 0 <= k < |rows| ==> rows[k] < |t.rows|
  }

  ghost predicate Sorted(t: TableState, cols: seq<nat>, rows: seq<nat>)
    requires Groupable(t, cols) && RowsOf(t, rows)
  {
    forall j, k :: 0 <= j < k < |rows| ==> CompareKeys(t, cols, 0, rows[j], rows[k]) <= 0
  }

  function Flatten(groups: seq<seq<nat>>): seq<nat> {
    if groups == [] then [] else Flatten(groups[..|groups| - 1]) + groups[|groups| - 1]
  }

  /** The groups make up the rows, in order; two rows share a group exactly when they share a key. */
  ghost predicate Partitions(t: TableState, cols: seq<nat>, rows: seq<nat>, groups: seq<seq<nat>>)
    requires Groupable(t, cols) && RowsOf(t, rows)
  {
    && Flatten(groups) == rows
    && (forall g :: 0 <= g < |groups| ==> groups[g] != [] && RowsOf(t, groups[g]))
    && (forall g, j, k :: 0 <= g < |groups| && 0 <= j < |groups[g]| && 0 <= k < |groups[g]| ==> SameKey(t, cols, groups[g][j], groups[g][k]))
    && (forall g, h, j, k :: 0 <= g < h < |groups| && 0 <= j < |groups[g]| && 0 <= k < |groups[h]| ==> !SameKey(t, cols, groups[g][j], groups[h][k]))
  }

  lemma FlattenConcat(groups: seq<seq<nat>>, group: seq<nat>)
    ensures Flatten(groups + [group]) == Flatten(groups) + group
  {
    assert (groups + [group])[..|groups|] == groups;
  }

  /** Keys between two equal keys in a sorted list are equal to both. */
  lemma RunIsConvex(t: TableState, cols: seq<nat>, rows: seq<nat>, i: nat, j: nat, k: nat)
    requires Groupable(t, cols) && RowsOf(t, rows) && Sorted(t, cols, rows) && i <= j <= k < |rows|
    requires SameKey(t, cols, rows[i], rows[k])
    ensures SameKey(t, cols, rows[i], rows[j]) && SameKey(t, cols, rows[j], rows[k])
  {
    KeyOrder(t, cols, 0, rows[i], rows[j], rows[k]);
    KeyOrder(t, cols, 0, rows[j], rows[k], rows[i]);
    KeyOrder(t, cols, 0, rows[k], rows[i], rows[j]);
    KeyOrder(t, cols, 0, rows[k], rows[j], rows[i]);
    KeyOrder(t, cols, 0, rows[j], rows[i], rows[k]);
    KeyOrder(t, cols, 0, rows[i], rows[k], rows[j]);
  }

  lemma SameKeyTransitive(t: TableState, cols: seq<nat>, a: nat, b: nat, c: nat)
    requires Groupable(t, cols) && a < |t.rows| && b < |t.rows| && c < |t.rows|
    ensures SameKey(t, cols, a, b) ==> SameKey(t, cols, b, a)
    ensures SameKey(t, cols, a, b) && SameKey(t, cols, b, c) ==> SameKey(t, cols, a, c)
  {
    KeyOrder(t, cols, 0, a, b, c);
    KeyOrder(t, cols, 0, b, a, c);
    KeyOrder(t, cols, 0, c, b, a);
    KeyOrder(t, cols, 0, b, c, a);
    KeyOrder(t, cols, 0, a, c, b);
    KeyOrder(t, cols, 0, c, a, b);
  }

  /** The first i rows are cut into groups, and the next row starts a new key. */
  ghost predicate Cut(t: TableState, cols: seq<nat>, rows: seq<nat>, i: nat, groups: seq<seq<nat>>)
    requires Groupable(t, cols) && RowsOf(t, rows)
  {
    && i <= |rows| && Partitions(t, cols, rows[..i], groups)
    && (forall j, k :: 0 <= j < i <= k < |rows| ==> !SameKey(t, cols, rows[j], rows[k]))
  }

  lemma CutStarts(t: TableState, cols: seq<nat>, rows: seq<nat>)
    requires Groupable(t, cols) && RowsOf(t, rows)
    ensures Cut(t, cols, rows, 0, [])
  {
    assert rows[..0] == [];
  }

  lemma {:induction false} FlattenMembers(groups: seq<seq<nat>>, g: nat, k: nat)
    requires g < |groups| && k < |groups[g]|
    ensures groups[g][k] in Flatten(groups)
    decreases |groups|
  {
    if g < |groups| - 1 {
      FlattenMembers(groups[..|groups| - 1], g, k);
    }
  }

  /** A maximal run is the next group. */
  lemma CutAdvances(t: TableState, cols: seq<nat>, rows: seq<nat>, i: nat, j: nat, groups: seq<seq<nat>>)
    requires Groupable(t, cols) && RowsOf(t, rows) && Sorted(t, cols, rows) && Cut(t, cols, rows, i, groups)
    requires i < j <= |rows| && (forall k :: i <= k < j ==> SameKey(t, cols, rows[i], rows[k]))
    requires j < |rows| ==> !SameKey(t, cols, rows[i], rows[j])
    ensures Cut(t, cols, rows, j, groups + [rows[i..j]])
  {
    var run, after := rows[i..j], groups + [rows[i..j]];
    FlattenConcat(groups, run);
    assert rows[..j] == rows[..i] + run;
    RunHasOneKey(t, cols, rows, i, j);
    forall k, m | 0 <= k < j <= m < |rows| ensures !SameKey(t, cols, rows[k], rows[m]) {
      if k >= i && SameKey(t, cols, rows[k], rows[m]) {
        SameKeyTransitive(t, cols, rows[i], rows[k], rows[m]);
        RunIsConvex(t, cols, rows, i, j, m);
      }
    }
    forall g, k, m | 0 <= g < |groups| && 0 <= k < |groups[g]| && 0 <= m < |run| ensures !SameKey(t, cols, groups[g][k], run[m]) {
      FlattenMembers(groups, g, k);
      var q :| 0 <= q < i && rows[..i][q] == groups[g][k];
      assert rows[q] == groups[g][k] && run[m] == rows[i + m];
    }
  }

  lemma RunHasOneKey(t: TableState, cols: seq<nat>, rows: seq<nat>, i: nat, j: nat)
    requires Groupable(t, cols) && RowsOf(t, rows) && i < j <= |rows|
    requires forall k :: i <= k < j ==> SameKey(t, cols, rows[i], rows[k])
    ensures var run := rows[i..j];
      RowsOf(t, run) && forall a, b :: 0 <= a < |run| && 0 <= b < |run| ==> SameKey(t, cols, run[a], run[b])
  {
    var run := rows[i..j];
    assert RowsOf(t, run);
    forall a, b | 0 <= a < |run| && 0 <= b < |run| ensures SameKey(t, cols, run[a], run[b]) {
      assert run[a] == rows[i + a] && run[b] == rows[i + b];
      SameKeyTransitive(t, cols, rows[i], rows[i + a], rows[i + b]);
      SameKeyTransitive(t, cols, rows[i + a], rows[i], rows[i + b]);
    }
  }

  /** The end of the run that starts at i. */
  method RunEnd(table: Table, cols: seq<nat>, rows: seq<nat>, i: nat) returns (j: nat)
    requires table.Valid() && Groupable(table.State(), cols) && RowsOf(table.State(), rows) && i < |rows|
    ensures i < j <= |rows|
    ensures forall k :: i <= k < j ==> SameKey(table.State(), cols, rows[i], rows[k])
    ensures j < |rows| ==> !SameKey(table.State(), cols, rows[i], rows[j])
  {
    hide Table.Valid, Table.Stored;
    KeyOrder(table.State(), cols, 0, rows[i], rows[i], rows[i]);
    j := i + 1;
    while j < |rows|
      invariant i < j <= |rows|
      invariant forall k :: i <= k < j ==> SameKey(table.State(), cols, rows[i], rows[k])
    {
      var same := KeyEqual(table, cols, rows[i], rows[j]);
      if !same {
        return;
      }
      j := j + 1;
    }
  }

  /******* Aggregates *******/

  function CountOf(t: TableState, c: nat, rows: seq<nat>): nat
    requires t.Valid() && RowsOf(t, rows) && c < |t.schema.types|
  {
    if rows == [] then 0
    else if t.rows[rows[|rows| - 1]][c].Null? then CountOf(t, c, rows[..|rows| - 1])
    else CountOf(t, c, rows[..|rows| - 1]) + 1
  }

  /** The exact sum of an INT column. */
  function SumOf(t: TableState, c: nat, rows: seq<nat>): int
    requires t.Valid() && RowsOf(t, rows) && c < |t.schema.types| && t.schema.types[c] == FtInt
  {
    if rows == [] then 0
    else
      var v := t.rows[rows[|rows| - 1]][c];
      SumOf(t, c, rows[..|rows| - 1]) + if v.Null? then 0 else v.i
  }

  /** One output line: COUNT(*), COUNT(c) and SUM(c); a SUM over no value is NULL. */
  datatype Line = Line(star: nat, count: nat, sum: Option<int>)

  function LineOf(t: TableState, c: nat, rows: seq<nat>): Line
    requires t.Valid() && RowsOf(t, rows) && c < |t.schema.types| && t.schema.types[c] == FtInt
  {
    var n := CountOf(t, c, rows);
    Line(|rows|, n, if n == 0 then None else Some(SumOf(t, c, rows)))
  }

  /** No partial sum leaves the 64-bit range; C leaves it undefined what happens otherwise. */
  ghost predicate NoOverflow(t: TableState, c: nat, rows: seq<nat>)
    requires t.Valid() && RowsOf(t, rows) && c < |t.schema.types| && t.schema.types[c] == FtInt
  {
    forall k :: 0 <= k <= |rows| ==> -TWO_63 <= SumOf(t, c, rows[..k]) < TWO_63
  }

  /** build_group_row for COUNT(*), COUNT(c) and SUM(c). */
  method BuildLine(table: Table, c: nat, rows: seq<nat>) returns (line: Line)
    requires table.Valid() && RowsOf(table.State(), rows) && c < |table.schema.types| && table.schema.types[c] == FtInt
    requires NoOverflow(table.State(), c, rows)
    ensures line == LineOf(table.State(), c, rows)
  {
    hide Table.Valid, Table.Stored;
    var n := 0;
    var sum: int64 := 0;
    var k := 0;
    while k < |rows|
      invariant k <= |rows|
      invariant n == CountOf(table.State(), c, rows[..k]) && sum as int == SumOf(table.State(), c, rows[..k])
    {
      assert rows[..k + 1][..k] == rows[..k] && -TWO_63 <= SumOf(table.State(), c, rows[..k + 1]) < TWO_63;
      var v := table.ReadColumn(rows[k], c);
      if !v.Null? {
        n, sum := n + 1, sum + v.i;
      }
      k := k + 1;
    }
    assert rows[..k] == rows;
    return Line(|rows|, n, if n == 0 then None else Some(sum as int));
  }

  /** Numbers added up in row order, starting from zero: what SUM of a DOUBLE column and AVG of any number column start from. */
  function DoubleSum(t: TableState, c: nat, rows: seq<nat>, fpu: FloatUnit): Double
    requires t.Valid() && RowsOf(t, rows) && c < |t.schema.types| && t.schema.types[c] in {FtInt, FtDouble}
  {
    if rows == [] then 0
    else
      var before, v := DoubleSum(t, c, rows[..|rows| - 1], fpu), t.rows[rows[|rows| - 1]][c];
      if v.Null? then before else fpu.add(before, AsDouble(v))
  }

  /**
   The accumulator of the loop over the rows, before each row and after the last: it starts at zero, a number is
   added on the right with one floating-point addition, and NULL leaves it as it is.
   */
  ghost predicate Accumulates(t: TableState, c: nat, rows: seq<nat>, fpu: FloatUnit, acc: seq<Double>)
    requires t.Valid() && RowsOf(t, rows) && c < |t.schema.types| && t.schema.types[c] in {FtInt, FtDouble}
  {
    && |acc| == |rows| + 1 && acc[0] == 0
    && forall k :: 0 <= k < |rows| ==> acc[k + 1] == Added(t.rows[rows[k]][c], acc[k], fpu)
  }

  function Added(v: Value, before: Double, fpu: FloatUnit): Double
    requires v.Null? || v.Numeric()
  {
    match v
    case Int(i) => fpu.add(before, IntToDouble(i))
    case Dbl(d) => fpu.add(before, d)
    case _ => before
  }

  lemma {:induction false} DoubleSumAccumulates(t: TableState, c: nat, rows: seq<nat>, fpu: FloatUnit, acc: seq<Double>)
    requires t.Valid() && RowsOf(t, rows) && c < |t.schema.types| && t.schema.types[c] in {FtInt, FtDouble}
    requires Accumulates(t, c, rows, fpu, acc)
    ensures DoubleSum(t, c, rows, fpu) == acc[|rows|]
  {
    if rows != [] {
      var n := |rows| - 1;
      assert forall k :: 0 <= k < n ==> rows[..n][k] == rows[k] && acc[..n + 1][k + 1] == acc[k + 1];
      DoubleSumAccumulates(t, c, rows[..n], fpu, acc[..n + 1]);
    }
  }

  lemma {:induction false} Accumulator(t: TableState, c: nat, rows: seq<nat>, fpu: FloatUnit) returns (acc: seq<Double>)
    requires t.Valid() && RowsOf(t, rows) && c < |t.schema.types| && t.schema.types[c] in {FtInt, FtDouble}
    ensures Accumulates(t, c, rows, fpu, acc)
  {
    acc := [0];
    if rows != [] {
      var n := |rows| - 1;
      var before := Accumulator(t, c, rows[..n], fpu);
      acc := before + [Added(t.rows[rows[n]][c], before[n], fpu)];
      assert forall k :: 0 <= k < n ==> rows[..n][k] == rows[k] && acc[k + 1] == before[k + 1];
    }
  }

  /** build_group_row for SUM of a DOUBLE column and for AVG; both are NULL over no value. */
  method BuildDoubles(table: Table, c: nat, rows: seq<nat>, fpu: FloatUnit) returns (sum: Value, avg: Value)
    requires table.Valid() && RowsOf(table.State(), rows) && c < |table.schema.types| && table.schema.types[c] in {FtInt, FtDouble}
    requires |rows| < TWO_63
    ensures CountOf(table.State(), c, rows) == 0 ==> sum == avg == Null(FtDouble)
    ensures var n := CountOf(table.State(), c, rows); var s := DoubleSum(table.State(), c, rows, fpu);
      0 < n ==> n < TWO_63 && sum == Dbl(s) && avg == Dbl(fpu.div(s, IntToDouble(n)))
    ensures 0 < CountOf(table.State(), c, rows) ==> exists acc :: Accumulates(table.State(), c, rows, fpu, acc) && sum == Dbl(acc[|rows|])
  {
    hide Table.Valid, Table.Stored, IntToDouble, Accumulates;
    var n, total: Double := 0, 0;
    var k := 0;
    while k < |rows|
      invariant k <= |rows| && n <= k
      invariant n == CountOf(table.State(), c, rows[..k]) && total == DoubleSum(table.State(), c, rows[..k], fpu)
    {
      assert rows[..k + 1][..k] == rows[..k];
      var v := table.ReadColumn(rows[k], c);
      if !v.Null? {
        n, total := n + 1, fpu.add(total, AsDouble(v));
      }
      k := k + 1;
    }
    assert rows[..k] == rows;
    ghost var acc := Accumulator(table.State(), c, rows, fpu);
    DoubleSumAccumulates(table.State(), c, rows, fpu, acc);
    return if n == 0 then Null(FtDouble) else Dbl(total), if n == 0 then Null(FtDouble) else Dbl(fpu.div(total, IntToDouble(n)));
  }

  /** No run of equal keys has a SUM that overflows. */
  ghost predicate RunsFit(t: TableState, cols: seq<nat>, c: nat, rows: seq<nat>)
    requires Groupable(t, cols) && RowsOf(t, rows) && c < |t.schema.types| && t.schema.types[c] == FtInt
  {
    forall i, j :: 0 <= i < j <= |rows| && (forall k :: i <= k < j ==> SameKey(t, cols, rows[i], rows[k])) ==>
      RowsOf(t, rows[i..j]) && NoOverflow(t, c, rows[i..j])
  }

  /** The run loop: one line per distinct key, over exactly the rows that have it. */
  method GroupLines(table: Table, cols: seq<nat>, c: nat, rows: seq<nat>) returns (lines: seq<Line>, ghost groups: seq<seq<nat>>)
    requires table.Valid() && Groupable(table.State(), cols) && RowsOf(table.State(), rows) && Sorted(table.State(), cols, rows)
    requires c < |table.schema.types| && table.schema.types[c] == FtInt && RunsFit(table.State(), cols, c, rows)
    ensures Partitions(table.State(), cols, rows, groups) && |lines| == |groups|
    ensures forall g :: 0 <= g < |groups| ==> lines[g] == LineOf(table.State(), c, groups[g])
  {
    hide Table.Valid, Table.Stored, Cut, Sorted, LineOf, NoOverflow;
    ghost var t := table.State();
    lines, groups := [], [];
    CutStarts(t, cols, rows);
    var i := 0;
    while i < |rows|
      invariant i <= |rows| && Cut(t, cols, rows, i, groups) && |lines| == |groups|
      invariant forall g :: 0 <= g < |groups| ==> RowsOf(t, groups[g]) && lines[g] == LineOf(t, c, groups[g])
    {
      var j := RunEnd(table, cols, rows, i);
      assert RowsOf(t, rows[i..j]);
      var line := BuildLine(table, c, rows[i..j]);
      CutAdvances(t, cols, rows, i, j, groups);
      lines, groups, i := lines + [line], groups + [rows[i..j]], j;
    }
    CutEnds(t, cols, rows, groups);
    return;
  }

  lemma CutEnds(t: TableState, cols: seq<nat>, rows: seq<nat>, groups: seq<seq<nat>>)
    requires Groupable(t, cols) && RowsOf(t, rows) && Cut(t, cols, rows, |rows|, groups)
    ensures Partitions(t, cols, rows, groups)
  {
    assert rows[..|rows|] == rows;
  }

  /** A group holds exactly the rows with its key. */
  lemma GroupIsKeyClass(t: TableState, cols: seq<nat>, rows: seq<nat>, groups: seq<seq<nat>>, g: nat, row: nat)
    requires Groupable(t, cols) && RowsOf(t, rows) && Partitions(t, cols, rows, groups)
    requires g < |groups| && row in rows
    ensures row < |t.rows| && groups[g] != [] && groups[g][0] < |t.rows|
    ensures row in groups[g] <==> SameKey(t, cols, groups[g][0], row)
  {
    var h, k := InSomeGroup(groups, row);
    if h != g {
      KeyOrder(t, cols, 0, row, row, row);
      SameKeyTransitive(t, cols, groups[g][0], row, groups[g][0]);
      forall m | 0 <= m < |groups[g]| ensures groups[g][m] != row && !SameKey(t, cols, groups[g][0], row) {
        assert if h < g then !SameKey(t, cols, groups[h][k], groups[g][m]) else !SameKey(t, cols, groups[g][m], groups[h][k]);
        assert if h < g then !SameKey(t, cols, groups[h][k], groups[g][0]) else !SameKey(t, cols, groups[g][0], groups[h][k]);
      }
    }
  }

  lemma {:induction false} InSomeGroup(groups: seq<seq<nat>>, row: nat) returns (g: nat, k: nat)
    requires row in Flatten(groups)
    ensures g < |groups| && k < |groups[g]| && groups[g][k] == row
  {
    var n := |groups| - 1;
    if row in groups[n] {
      g := n;
      k :| 0 <= k < |groups[n]| && groups[n][k] == row;
    } else {
      g, k := InSomeGroup(groups[..n], row);
    }
  }

  /******* Conservation *******/

  function AddLines(a: Line, b: Line): Line {
    Line(a.star + b.star, a.count + b.count,
      if a.sum.None? then b.sum else if b.sum.None? then a.sum else Some(a.sum.value + b.sum.value))
  }

  function TotalLine(lines: seq<Line>): Line {
    if lines == [] then Line(0, 0, None) else AddLines(TotalLine(lines[..|lines| - 1]), lines[|lines| - 1])
  }

  lemma {:induction false} TotalsOfConcat(t: TableState, c: nat, a: seq<nat>, b: seq<nat>)
    requires t.Valid() && RowsOf(t, a) && RowsOf(t, b) && c < |t.schema.types| && t.schema.types[c] == FtInt
    ensures RowsOf(t, a + b)
    ensures CountOf(t, c, a + b) == CountOf(t, c, a) + CountOf(t, c, b)
    ensures SumOf(t, c, a + b) == SumOf(t, c, a) + SumOf(t, c, b)
  {
    if b == [] {
      assert a + b == a;
    } else {
      TotalsOfConcat(t, c, a, b[..|b| - 1]);
      assert (a + b)[..|a + b| - 1] == a + b[..|b| - 1];
    }
  }

  lemma LineOfConcat(t: TableState, c: nat, a: seq<nat>, b: seq<nat>)
    requires t.Valid() && RowsOf(t, a) && RowsOf(t, b) && c < |t.schema.types| && t.schema.types[c] == FtInt
    ensures RowsOf(t, a + b) && LineOf(t, c, a + b) == AddLines(LineOf(t, c, a), LineOf(t, c, b))
  {
    hide CountOf, SumOf, TableState.Valid;
    TotalsOfConcat(t, c, a, b);
    if CountOf(t, c, a) == 0 {
      NothingToSum(t, c, a);
    }
    if CountOf(t, c, b) == 0 {
      NothingToSum(t, c, b);
    }
  }

  /** One more row: COUNT(*) grows by one; COUNT(c) and SUM(c) change if its cell is not NULL. */
  lemma LineOfOneMore(t: TableState, c: nat, rows: seq<nat>, row: nat)
    requires t.Valid() && RowsOf(t, rows) && c < |t.schema.types| && t.schema.types[c] == FtInt && row < |t.rows|
    ensures RowsOf(t, rows + [row])
    ensures var v, before, after := t.rows[row][c], LineOf(t, c, rows), LineOf(t, c, rows + [row]);
      && after.star == before.star + 1
      && (v.Null? ==> after.count == before.count && after.sum == before.sum)
      && (v.Int? ==> after.count == before.count + 1 && after.sum == Some(v.i + if before.sum.None? then 0 else before.sum.value))
    ensures LineOf(t, c, []) == Line(0, 0, None)
  {
    assert (rows + [row])[..|rows|] == rows;
    if CountOf(t, c, rows) == 0 {
      NothingToSum(t, c, rows);
    }
  }

  lemma {:induction false} NothingToSum(t: TableState, c: nat, rows: seq<nat>)
    requires t.Valid() && RowsOf(t, rows) && c < |t.schema.types| && t.schema.types[c] == FtInt && CountOf(t, c, rows) == 0
    ensures SumOf(t, c, rows) == 0
  {
    if rows != [] {
      NothingToSum(t, c, rows[..|rows| - 1]);
    }
  }

  /** The lines of the groups add up to the line of the ungrouped query. */
  lemma {:induction false} LinesAddUp(t: TableState, c: nat, groups: seq<seq<nat>>, lines: seq<Line>)
    requires t.Valid() && c < |t.schema.types| && t.schema.types[c] == FtInt && |lines| == |groups|
    requires forall g :: 0 <= g < |groups| ==> RowsOf(t, groups[g]) && lines[g] == LineOf(t, c, groups[g])
    ensures RowsOf(t, Flatten(groups)) && TotalLine(lines) == LineOf(t, c, Flatten(groups))
  {
    if groups != [] {
      var n := |groups| - 1;
      LinesAddUp(t, c, groups[..n], lines[..n]);
      LineOfConcat(t, c, Flatten(groups[..n]), groups[n]);
    }
  }

  lemma RemoveFromBoth(a: seq<nat>, b: seq<nat>, k: nat)
    requires a != [] && k < |b| && multiset(a) == multiset(b) && b[k] == a[|a| - 1]
    ensures multiset(a[..|a| - 1]) == multiset(b[..k] + b[k + 1..])
  {
    var last := b[k];
    assert a == a[..|a| - 1] + [last];
    assert b == b[..k] + [last] + b[k + 1..];
    assert multiset(a) == multiset(a[..|a| - 1]) + multiset{last};
    assert multiset(b) == multiset(b[..k]) + multiset{last} + multiset(b[k + 1..]);
    assert multiset(a[..|a| - 1]) == multiset(a) - multiset{last};
    assert multiset(b[..k]) + multiset(b[k + 1..]) == multiset(b) - multiset{last};
  }

  lemma LastAdds(t: TableState, c: nat, rows: seq<nat>)
    requires t.Valid() && RowsOf(t, rows) && c < |t.schema.types| && t.schema.types[c] == FtInt && rows != []
    ensures var v := t.rows[rows[|rows| - 1]][c];
      && CountOf(t, c, rows) == CountOf(t, c, rows[..|rows| - 1]) + (if v.Null? then 0 else 1)
      && SumOf(t, c, rows) == SumOf(t, c, rows[..|rows| - 1]) + (if v.Null? then 0 else v.i)
  {
  }

  /** A row counts the same wherever it stands. */
  lemma TotalsWithout(t: TableState, c: nat, b: seq<nat>, k: nat)
    requires t.Valid() && RowsOf(t, b) && c < |t.schema.types| && t.schema.types[c] == FtInt && k < |b|
    ensures RowsOf(t, b[..k] + b[k + 1..])
    ensures var v := t.rows[b[k]][c];
      && CountOf(t, c, b) == CountOf(t, c, b[..k] + b[k + 1..]) + (if v.Null? then 0 else 1)
      && SumOf(t, c, b) == SumOf(t, c, b[..k] + b[k + 1..]) + (if v.Null? then 0 else v.i)
  {
    var upTo, back := b[..k + 1], b[k + 1..];
    assert b == upTo + back && upTo[..k] == b[..k];
    LastAdds(t, c, upTo);
    TotalsOfConcat(t, c, upTo, back);
    TotalsOfConcat(t, c, b[..k], back);
  }

  /** The order of the rows does not matter to a line. */
  lemma {:induction false} TotalsOfPermutation(t: TableState, c: nat, a: seq<nat>, b: seq<nat>)
    requires t.Valid() && RowsOf(t, a) && RowsOf(t, b) && c < |t.schema.types| && t.schema.types[c] == FtInt
    requires multiset(a) == multiset(b)
    ensures |a| == |b| && CountOf(t, c, a) == CountOf(t, c, b) && SumOf(t, c, a) == SumOf(t, c, b)
    decreases |a|
  {
    if a == [] {
      assert |multiset(b)| == 0;
    } else {
      assert a[|a| - 1] in multiset(a);
      var k :| 0 <= k < |b| && b[k] == a[|a| - 1];
      RemoveFromBoth(a, b, k);
      TotalsWithout(t, c, b, k);
      LastAdds(t, c, a);
      TotalsOfPermutation(t, c, a[..|a| - 1], b[..k] + b[k + 1..]);
    }
  }

  /** Whatever permutation the sort produced, the groups' lines add up to the ungrouped aggregates of the scan. */
  lemma GroupedEqualsUngrouped(t: TableState, cols: seq<nat>, c: nat, scanned: seq<nat>, rows: seq<nat>, groups: seq<seq<nat>>, lines: seq<Line>)
    requires Groupable(t, cols) && RowsOf(t, scanned) && RowsOf(t, rows) && multiset(scanned) == multiset(rows)
    requires Partitions(t, cols, rows, groups) && c < |t.schema.types| && t.schema.types[c] == FtInt
    requires |lines| == |groups| && forall g :: 0 <= g < |groups| ==> lines[g] == LineOf(t, c, groups[g])
    ensures TotalLine(lines) == LineOf(t, c, scanned)
  {
    LinesAddUp(t, c, groups, lines);
    TotalsOfPermutation(t, c, rows, scanned);
  }
}
