/**
 What the operators of an expression mean: comparisons by number, truth value and bytes,
 arithmetic modulo 2^64 or on the floating-point unit, and which operands the static check admits.
 */
module Operators {
  import opened Values
  import opened TableStates
  import opened Expressions
  import opened Numbers

  /******* Comparisons *******/

  /** The texts agree on their first k bytes; then a ends and b goes on, or the byte of a is the smaller. */
  predicate LessAt(a: Bytes, b: Bytes, k: nat) {
    k <= |a| && k < |b| && a[..k] == b[..k] && (k < |a| ==> a[k] < b[k])
  }

  ghost predicate TextLess(a: Bytes, b: Bytes) {
    exists k: nat :: LessAt(a, b, k)
  }

  lemma {:induction false} CompareTextMeans(a: Bytes, b: Bytes)
    ensures CompareText(a, b) < 0 <==> TextLess(a, b)
  {
    if a == [] || b == [] || a[0] != b[0] {
      assert LessAt(a, b, 0) <==> CompareText(a, b) < 0;
      assert forall k: nat :: LessAt(a, b, k) && k > 0 ==> a[..k][0] == b[..k][0];
    } else {
      CompareTextMeans(a[1..], b[1..]);
      if CompareText(a, b) < 0 {
        var k: nat :| LessAt(a[1..], b[1..], k);
        assert a[..k + 1] == [a[0]] + a[1..][..k] && b[..k + 1] == [b[0]] + b[1..][..k];
        assert LessAt(a, b, k + 1);
      }
      if k: nat :| LessAt(a, b, k) {
        assert k > 0;
        assert a[1..][..k - 1] == a[..k][1..] && b[1..][..k - 1] == b[..k][1..];
        assert LessAt(a[1..], b[1..], k - 1);
      }
    }
  }

  /** a comes before b: by the numbers both denote as DOUBLE, false before true, or by bytes. NaN comes before nothing and after nothing. */
  ghost predicate Before(a: Value, b: Value)
    requires Comparable(a, b)
  {
    if a.Bool? then !a.b && b.b
    else if a.Text? then TextLess(a.s, b.s)
    else Ordered(a) && Ordered(b) && Number(AsDouble(a)) < Number(AsDouble(b))
  }

  lemma CompareIsBefore(a: Value, b: Value)
    requires Comparable(a, b)
    ensures CompareValues(a, b) < 0 <==> Before(a, b)
    ensures CompareValues(a, b) > 0 <==> Before(b, a)
  {
    hide IntToDouble, Rank, Number;
    if a.Numeric() {
      RankIsNumeric(AsDouble(a), AsDouble(b));
      RankIsNumeric(AsDouble(b), AsDouble(a));
    } else if a.Text? {
      CompareTextMeans(a.s, b.s);
      CompareTextMeans(b.s, a.s);
      CompareTextZero(a.s, b.s);
      CompareTextZero(b.s, a.s);
    }
  }

  /** What a comparison asks of two values that are not NULL. */
  ghost predicate Related(op: BinaryOp, a: Value, b: Value)
    requires Comparable(a, b)
  {
    match op
    case Eq => !Before(a, b) && !Before(b, a)
    case Ne => Before(a, b) || Before(b, a)
    case Lt => Before(a, b)
    case Le => !Before(b, a)
    case Gt => Before(b, a)
    case Ge => !Before(a, b)
    case _ => false
  }

  predicate Compares(op: BinaryOp) {
    !op.Arith() && !op.Logic()
  }

  /** A comparison is UNKNOWN exactly on NULL; otherwise it says how the values stand, and exactly one of <, = and > is TRUE. */
  lemma ComparisonMeans(op: BinaryOp, l: Expr, r: Expr, ctx: RowCtx)
    requires Compares(op) && Evaluable(Binary(op, l, r), ctx)
    ensures var a, b, v := EvalValue(l, ctx), EvalValue(r, ctx), EvalValue(Binary(op, l, r), ctx);
      if a.Null? || b.Null? then v == Null(FtBool)
      else
        && Comparable(a, b) && v == Bool(Related(op, a, b))
        && ((Before(a, b) && !Before(b, a)) || (!Before(a, b) && !Before(b, a)) || (!Before(a, b) && Before(b, a)))
  {
    hide CompareValues, Before;
    var a, b := EvalValue(l, ctx), EvalValue(r, ctx);
    if !a.Null? && !b.Null? {
      CompareIsBefore(a, b);
    }
  }

  /** Values of one type that are neither before nor after each other are the same, but for NaN, the two zeros, and INT values rounded to one DOUBLE. */
  lemma EqualMeansSame(a: Value, b: Value)
    requires Comparable(a, b) && a.Kind() == b.Kind()
    ensures a.Text? || a.Bool? ==> (Related(Eq, a, b) <==> a == b)
    ensures a.Int? && ExactKey(a) ==> (Related(Eq, a, b) <==> a == b)
    ensures a.Dbl? && Ordered(a) && Ordered(b) ==> (Related(Eq, a, b) <==> Number(a.d) == Number(b.d))
  {
    hide IntToDouble, Rank, Number;
    CompareIsBefore(a, b);
    if ExactKey(a) && Ordered(b) {
      CompareZeroIsCellEqual(a, b);
    }
  }

  /** INT values are never compared in the wrong order, and in the right one if either is exact as a DOUBLE. */
  lemma IntegersCompare(i: int64, j: int64)
    ensures Before(Int(i), Int(j)) ==> i < j
    ensures ExactInt(i) || ExactInt(j) ==> (Before(Int(i), Int(j)) <==> i < j)
  {
    hide IntToDouble, Number, Rank;
    if i <= j {
      ConversionIsMonotone(i, j);
    } else {
      ConversionIsMonotone(j, i);
    }
    ExactIntsConvertUniquely(i);
    ExactIntsConvertUniquely(j);
    RankIsNumeric(IntToDouble(i), IntToDouble(j));
    RankIsNumeric(IntToDouble(j), IntToDouble(i));
  }

  /** A predicate is TRUE exactly if its value is the truth value true, and UNKNOWN exactly if it is NULL. */
  lemma TrueMeans(e: Expr, ctx: RowCtx)
    requires Evaluable(e, ctx) && IsPredicate(e, ctx)
    ensures EvalTri(e, ctx).True? <==> EvalValue(e, ctx) == Bool(true)
    ensures EvalTri(e, ctx).Unknown? <==> EvalValue(e, ctx).Null?
  {
    EvaluatorsAgree(e, ctx);
  }

  /******* Arithmetic *******/

  /** The result before it is cut to 64 bits. */
  function Exact(op: BinaryOp, i: int, j: int): int {
    match op case Add => i + j case Sub => i - j case _ => i * j
  }

  /** INT results are exact modulo 2^64, hence exact while they fit; everything else, and every division, is done in DOUBLE. */
  ghost predicate Computes(op: BinaryOp, a: Value, b: Value, fpu: FloatUnit, v: Value)
    requires a.Numeric() && b.Numeric()
  {
    if a.Int? && b.Int? && !op.Div? then
      var exact := Exact(op, a.i, b.i);
      v.Int? && (v.i - exact) % TWO_64 == 0 && (-TWO_63 <= exact < TWO_63 ==> v.i == exact)
    else
      var x, y := AsDouble(a), AsDouble(b);
      && v.Dbl?
      && (op.Add? ==> v.d == fpu.add(x, y)) && (op.Sub? ==> v.d == fpu.sub(x, y))
      && (op.Mul? ==> v.d == fpu.mul(x, y)) && (op.Div? ==> v.d == fpu.div(x, y))
  }

  lemma ArithmeticMeans(op: BinaryOp, l: Expr, r: Expr, ctx: RowCtx)
    requires op.Arith() && Evaluable(Binary(op, l, r), ctx)
    ensures var a, b, v := EvalValue(l, ctx), EvalValue(r, ctx), EvalValue(Binary(op, l, r), ctx);
      if a.Null? || b.Null? then v.Null? else a.Numeric() && b.Numeric() && Computes(op, a, b, ctx.fpu, v)
  {
    hide Computes, EvalArith;
    var a, b := EvalValue(l, ctx), EvalValue(r, ctx);
    if !a.Null? && !b.Null? {
      ArithComputes(op, a, b, ctx.fpu);
    }
  }

  lemma ArithComputes(op: BinaryOp, a: Value, b: Value, fpu: FloatUnit)
    requires op.Arith() && a.Numeric() && b.Numeric()
    ensures Computes(op, a, b, fpu, EvalArith(op, a, b, fpu))
  {
    hide IntToDouble;
    if a.Int? && b.Int? && !op.Div? {
      WrapIsExactInRange(Exact(op, a.i, b.i));
    }
  }

  lemma WrapIsExactInRange(x: int)
    ensures (Wrap64(x) - x) % TWO_64 == 0
    ensures -TWO_63 <= x < TWO_63 ==> Wrap64(x) == x
  {
  }

  /** Negation is exact modulo 2^64 on an INT, and reverses the number of a DOUBLE; NaN stays NaN. */
  lemma NegationMeans(e: Expr, ctx: RowCtx)
    requires Evaluable(Neg(e), ctx)
    ensures var a, v := EvalValue(e, ctx), EvalValue(Neg(e), ctx);
      && (a.Null? ==> v.Null?)
      && (a.Int? ==> v.Int? && (v.i + a.i) % TWO_64 == 0)
      && (a.Dbl? ==> v.Dbl? && v.d != a.d && Number(v.d) == -Number(a.d) && IsNaN(v.d) == IsNaN(a.d))
  {
    hide Number;
    var a := EvalValue(e, ctx);
    if a.Int? {
      var i: int := a.i;
      WrapIsExactInRange(-i);
    } else if a.Dbl? {
      NumberOfNegated(a.d);
      NegatedPattern(a.d);
    }
  }

  lemma NegatedPattern(d: Double)
    ensures Negate(d) != d && Negate(d) % TWO_63 == d % TWO_63
  {
  }

  /******* Leaves *******/

  /** A column is the cell of the current row in the first column of that name; a parameter is the one of its number. */
  lemma LeavesMean(ctx: RowCtx, table: Option<string>, name: string, k: nat)
    requires ctx.Valid() && ctx.OnRows()
    ensures Infer(Column(table, name), ctx).Some? ==>
      exists s: nat, c: nat :: Names(ctx, ColumnRef(s, c), table, name) && c < |ctx.sources[s].table.rows[ctx.sources[s].row]|
        && EvalValue(Column(table, name), ctx) == ctx.sources[s].table.rows[ctx.sources[s].row][c]
    ensures Infer(Param(k), ctx).Some? <==> 1 <= k <= |ctx.params|
    ensures 1 <= k <= |ctx.params| ==>
      EvalValue(Param(k), ctx) == ctx.params[k - 1] && (Infer(Param(k), ctx).value.TNull? <==> ctx.params[k - 1].Null?)
  {
    if Infer(Column(table, name), ctx).Some? {
      var r := ResolveColumn(ctx, table, name).value;
      assert Names(ctx, ColumnRef(r.src, r.col), table, name);
    }
  }

  lemma LiteralsMean(ctx: RowCtx, i: int64, d: Double, s: Bytes, b: bool)
    requires ctx.Valid()
    ensures Infer(LitInt(i), ctx) == Some(TInt) && EvalValue(LitInt(i), ctx) == Int(i)
    ensures Infer(LitDouble(d), ctx) == Some(TDouble) && EvalValue(LitDouble(d), ctx) == Dbl(d)
    ensures Infer(LitString(s), ctx) == Some(TString) && EvalValue(LitString(s), ctx) == Text(s)
    ensures Infer(LitBool(b), ctx) == Some(TBool) && EvalValue(LitBool(b), ctx) == Bool(b)
    ensures Infer(LitNull, ctx) == Some(TNull) && EvalValue(LitNull, ctx).Null?
  {
  }

  /******* The static check *******/

  ghost predicate AllTruthValues(t: ExprType) {
    forall v: Value :: HasType(v, t) ==> v.Null? || v.Bool?
  }

  ghost predicate AllNumbers(t: ExprType) {
    forall v: Value :: HasType(v, t) ==> v.Null? || v.Numeric()
  }

  ghost predicate AllComparable(l: ExprType, r: ExprType) {
    forall a: Value, b: Value :: HasType(a, l) && HasType(b, r) ==> a.Null? || b.Null? || Comparable(a, b)
  }

  ghost predicate Admits(op: BinaryOp, l: ExprType, r: ExprType) {
    if op.Logic() then AllTruthValues(l) && AllTruthValues(r)
    else if op.Arith() then AllNumbers(l) && AllNumbers(r)
    else AllComparable(l, r)
  }

  lemma AdmitsExactly(op: BinaryOp, s: ExprType, t: ExprType)
    ensures InferBinary(op, Some(s), Some(t)).Some? <==> Admits(op, s, t)
    ensures Admits(op, s, t) ==> (InferBinary(op, Some(s), Some(t)).value.TNull? <==> op.Arith() && (s.TNull? || t.TNull?))
  {
    hide AllTruthValues, AllNumbers, AllComparable;
    TypesExactly(s, t);
  }

  /**
   An operator is admitted exactly if no value its operands can have would be misread. Its type is that of
   its values, or the type of NULL exactly for arithmetic on an operand of that type.
   */
  lemma CheckExactly(op: BinaryOp, l: Expr, r: Expr, ctx: RowCtx)
    requires ctx.Valid()
    ensures var s, t, u := Infer(l, ctx), Infer(r, ctx), Infer(Binary(op, l, r), ctx);
      && (u.Some? <==> s.Some? && t.Some? && Admits(op, s.value, t.value))
      && (u.Some? ==> (u.value.TNull? <==> op.Arith() && (s.value.TNull? || t.value.TNull?)))
  {
    hide Admits;
    var s, t := Infer(l, ctx), Infer(r, ctx);
    if s.Some? && t.Some? {
      AdmitsExactly(op, s.value, t.value);
    }
  }

  lemma PrefixCheckExactly(e: Expr, ctx: RowCtx)
    requires ctx.Valid()
    ensures Infer(Not(e), ctx).Some? <==> Infer(e, ctx).Some? && AllTruthValues(Infer(e, ctx).value)
    ensures Infer(Neg(e), ctx).Some? <==> Infer(e, ctx).Some? && AllNumbers(Infer(e, ctx).value)
    ensures Infer(Not(e), ctx).Some? ==> Infer(Not(e), ctx).value.TBool?
    ensures Infer(Neg(e), ctx).Some? ==> (Infer(Neg(e), ctx).value.TNull? <==> Infer(e, ctx).value.TNull?)
  {
    hide AllTruthValues, AllNumbers;
    if Infer(e, ctx).Some? {
      TypesExactly(Infer(e, ctx).value, TNull);
    }
  }

  function Sample(t: ExprType): (v: Value)
    ensures HasType(v, t) && (v.Null? <==> t.TNull?)
  {
    match t
    case TInt => Int(0)
    case TDouble => Dbl(0)
    case TBool => Bool(false)
    case TString => Text([])
    case TNull => Null(FtText)
  }

  lemma TypesExactly(s: ExprType, t: ExprType)
    ensures AllTruthValues(s) <==> s.Logical()
    ensures AllTruthValues(t) <==> t.Logical()
    ensures AllNumbers(s) <==> s.Numeric() || s.TNull?
    ensures AllNumbers(t) <==> t.Numeric() || t.TNull?
    ensures AllComparable(s, t) <==> s.TNull? || t.TNull? || (s.Numeric() && t.Numeric()) || s == t
  {
    var a, b := Sample(s), Sample(t);
    assert AllComparable(s, t) ==> a.Null? || b.Null? || Comparable(a, b);
    assert AllTruthValues(s) ==> a.Null? || a.Bool?;
    assert AllTruthValues(t) ==> b.Null? || b.Bool?;
    assert AllNumbers(s) ==> a.Null? || a.Numeric();
    assert AllNumbers(t) ==> b.Null? || b.Numeric();
  }

  /** An expression fits a column exactly if every value it can have is NULL, of the column's type, or an INT for a DOUBLE column. */
  lemma FitsExactly(t: ExprType, column: FieldType)
    ensures Fits(t, column) <==>
      forall v: Value :: HasType(v, t) ==> v.Null? || v.Kind() == column || (v.Int? && column.FtDouble?)
  {
    var v := Sample(t);
    assert HasType(v, t);
  }

  /******* Names *******/

  predicate Has(ctx: RowCtx, i: nat, name: string) {
    i < |ctx.sources| && name in ctx.sources[i].table.schema.names
  }

  predicate FirstCalled(ctx: RowCtx, i: nat, alias: string) {
    i < |ctx.sources| && ctx.sources[i].alias == alias && forall j :: 0 <= j < i ==> ctx.sources[j].alias != alias
  }

  /** A bare name resolves exactly if one source has it and no second one; a qualified one if the first source of that name has it. */
  lemma ResolvesExactly(ctx: RowCtx, table: Option<string>, name: string)
    ensures table.None? ==>
      (ResolveColumn(ctx, None, name).Some? <==> exists i: nat :: Has(ctx, i, name) && forall j: nat :: Has(ctx, j, name) ==> j == i)
    ensures table.Some? ==>
      (ResolveColumn(ctx, table, name).Some? <==> exists i: nat :: FirstCalled(ctx, i, table.value) && Has(ctx, i, name))
  {
    if table.Some? {
      QualifiedExactly(ctx, table.value, name, 0);
    } else {
      UniqueExactly(ctx, name, 0, None);
    }
  }

  lemma {:induction false} QualifiedExactly(ctx: RowCtx, alias: string, name: string, i: nat)
    requires i <= |ctx.sources| && forall j :: 0 <= j < i ==> ctx.sources[j].alias != alias
    ensures ResolveQualified(ctx, alias, name, i).Some? <==> exists k: nat :: FirstCalled(ctx, k, alias) && Has(ctx, k, name)
    decreases |ctx.sources| - i
  {
    if i < |ctx.sources| && ctx.sources[i].alias != alias {
      QualifiedExactly(ctx, alias, name, i + 1);
    } else if i < |ctx.sources| {
      assert FirstCalled(ctx, i, alias);
      assert forall k: nat :: FirstCalled(ctx, k, alias) ==> k == i;
    }
  }

  lemma {:induction false} UniqueExactly(ctx: RowCtx, name: string, i: nat, found: Option<ColumnRef>)
    requires i <= |ctx.sources| && (found.Some? ==> found.value.src < i && Names(ctx, found.value, None, name))
    requires forall j :: 0 <= j < i && Has(ctx, j, name) ==> found.Some? && j == found.value.src
    ensures ResolveUnique(ctx, name, i, found).Some? <==> exists k: nat :: Has(ctx, k, name) && forall j: nat :: Has(ctx, j, name) ==> j == k
    decreases |ctx.sources| - i
  {
    if i < |ctx.sources| {
      var col := ctx.sources[i].table.schema.FindColumn(name);
      assert Has(ctx, i, name) <==> col.Some?;
      if col.None? {
        UniqueExactly(ctx, name, i + 1, found);
      } else if found.None? {
        UniqueExactly(ctx, name, i + 1, Some(ColumnRef(i, col.value)));
      } else {
        assert Has(ctx, found.value.src, name) && found.value.src != i;
      }
    } else if found.Some? {
      assert Has(ctx, found.value.src, name);
    }
  }
}
