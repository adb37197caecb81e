/**
 Expressions: the static type check, the evaluator and three-valued logic.

 A destructor of Value stands for a read of the C union, so the preconditions below
 (a successful type check) are what rules out every wrong union read at run time.
 */
module Expressions {
  import opened Values
  import opened TableStates

  datatype BinaryOp = Eq | Ne | Lt | Le | Gt | Ge | And | Or | Add | Sub | Mul | Div
  {
    predicate Arith() {
      Add? || Sub? || Mul? || Div?
    }

    predicate Logic() {
      And? || Or?
    }
  }

  datatype Expr =
    | Column(table: Option<string>, name: string)
    | LitInt(i: int64)
    | LitDouble(d: Double)
    | LitString(s: Bytes)
    | LitBool(b: bool)
    | LitNull
    | Not(operand: Expr)
    | Neg(operand: Expr)
    | Binary(op: BinaryOp, left: Expr, right: Expr)
    | Param(index: nat)

  datatype ExprType = TInt | TDouble | TBool | TString | TNull
  {
    predicate Numeric() {
      TInt? || TDouble?
    }

    predicate Logical() {
      TBool? || TNull?
    }
  }

  function TypeOfField(t: FieldType): ExprType {
    match t
    case FtInt => TInt
    case FtDouble => TDouble
    case FtBool => TBool
    case FtText => TString
  }

  /** One table of a query, with its current row. */
  datatype RowSource = RowSource(alias: string, table: TableState, row: nat)

  datatype RowCtx = RowCtx(sources: seq<RowSource>, params: seq<Value>, fpu: FloatUnit)
  {
    ghost predicate Valid() {
      forall i :: 0 <= i < |sources| ==> sources[i].table.Valid()
    }

    /** Every source stands on a row of its table. */
    ghost predicate OnRows() {
      forall i :: 0 <= i < |sources| ==> sources[i].row < |sources[i].table.rows|
    }
  }

  /******* Column resolution *******/

  /** A column of a source. */
  datatype ColumnRef = ColumnRef(src: nat, col: nat)

  function ResolveColumn(ctx: RowCtx, table: Option<string>, name: string): (r: Option<ColumnRef>)
    ensures r.Some? ==> Names(ctx, r.value, table, name)
  {
    if table.Some? then
      ResolveQualified(ctx, table.value, name, 0)
    else
      ResolveUnique(ctx, name, 0, None)
  }

  predicate Names(ctx: RowCtx, r: ColumnRef, table: Option<string>, name: string) {
    && r.src < |ctx.sources|
    && ctx.sources[r.src].table.schema.FindColumn(name) == Some(r.col)
    && (table.Some? ==> ctx.sources[r.src].alias == table.value)
  }

  function ResolveQualified(ctx: RowCtx, alias: string, name: string, i: nat): (r: Option<ColumnRef>)
    requires i <= |ctx.sources|
    ensures r.Some? ==> i <= r.value.src && Names(ctx, r.value, Some(alias), name)
    ensures r.Some? ==> forall j :: i <= j < r.value.src ==> ctx.sources[j].alias != alias
    decreases |ctx.sources| - i
  {
    if i == |ctx.sources| then None
    else if ctx.sources[i].alias != alias then ResolveQualified(ctx, alias, name, i + 1)
    else
      var col := ctx.sources[i].table.schema.FindColumn(name);
      if col.None? then None else Some(ColumnRef(i, col.value))
  }

  /** The one source that has the column; None when there is none or a second one. */
  function ResolveUnique(ctx: RowCtx, name: string, i: nat, found: Option<ColumnRef>): (r: Option<ColumnRef>)
    requires i <= |ctx.sources| && (found.Some? ==> found.value.src < i && Names(ctx, found.value, None, name))
    ensures r.Some? ==> Names(ctx, r.value, None, name)
    ensures r.Some? ==> forall j :: i <= j < |ctx.sources| && j != r.value.src ==> name !in ctx.sources[j].table.schema.names
    ensures found.Some? && r.Some? ==> r == found
    decreases |ctx.sources| - i
  {
    if i == |ctx.sources| then found
    else
      var col := ctx.sources[i].table.schema.FindColumn(name);
      if col.None? then ResolveUnique(ctx, name, i + 1, found)
      else if found.Some? then None
      else ResolveUnique(ctx, name, i + 1, Some(ColumnRef(i, col.value)))
  }

  /******* The static type check *******/

  function Infer(e: Expr, ctx: RowCtx): (t: Option<ExprType>)
    requires ctx.Valid()
  {
    match e
    case Column(table, name) =>
      var r := ResolveColumn(ctx, table, name);
      if r.None? then None
      else Some(TypeOfField(ctx.sources[r.value.src].table.schema.types[r.value.col]))
    case LitInt(_) => Some(TInt)
    case LitDouble(_) => Some(TDouble)
    case LitBool(_) => Some(TBool)
    case LitString(_) => Some(TString)
    case LitNull => Some(TNull)
    case Param(index) =>
      if !(1 <= index <= |ctx.params|) then None
      else if ctx.params[index - 1].Null? then Some(TNull)
      else Some(TypeOfField(ctx.params[index - 1].Kind()))
    case Not(a) =>
      var t := Infer(a, ctx);
      if t.Some? && t.value.Logical() then Some(TBool) else None
    case Neg(a) =>
      var t := Infer(a, ctx);
      if t.Some? && (t.value.Numeric() || t.value.TNull?) then t else None
    case Binary(op, l, r) =>
      InferBinary(op, Infer(l, ctx), Infer(r, ctx))
  }

  function InferBinary(op: BinaryOp, l: Option<ExprType>, r: Option<ExprType>): Option<ExprType> {
    if l.None? || r.None? then None
    else if op.Logic() then
      (if l.value.Logical() && r.value.Logical() then Some(TBool) else None)
    else if op.Arith() then
      if !((l.value.Numeric() || l.value.TNull?) && (r.value.Numeric() || r.value.TNull?)) then None
      else if l.value.TNull? || r.value.TNull? then Some(TNull)
      else if op.Div? then Some(TDouble)
      else Some(if l.value.TDouble? || r.value.TDouble? then TDouble else TInt)
    else
      if l.value.TNull? || r.value.TNull? || (l.value.Numeric() && r.value.Numeric()) || l == r then Some(TBool) else None
  }

  /** A predicate the engine accepts in WHERE or ON. */
  ghost predicate IsPredicate(e: Expr, ctx: RowCtx) {
    ctx.Valid() && Infer(e, ctx).Some? && Infer(e, ctx).value.Logical()
  }

  /******* Evaluation *******/

  datatype Tri = False | Unknown | True

  function ValueToTri(v: Value): Tri
    requires v.Null? || v.Bool?
  {
    if v.Null? then Unknown else if v.b then True else False
  }

  function TriToValue(t: Tri): Value {
    if t.Unknown? then Null(FtBool) else Bool(t.True?)
  }

  /** What a static type promises of the value. */
  predicate HasType(v: Value, t: ExprType) {
    v.Null? || TypeOfField(v.Kind()) == t
  }

  /** Expressions eval_value hands to eval_tri on the same node; on all others the hand-over goes the other way. */
  predicate TriFirst(e: Expr) {
    e.Not? || (e.Binary? && !e.op.Arith())
  }

  predicate HasColumnRef(e: Expr) {
    match e
    case Column(_, _) => true
    case Not(a) => HasColumnRef(a)
    case Neg(a) => HasColumnRef(a)
    case Binary(_, l, r) => HasColumnRef(l) || HasColumnRef(r)
    case _ => false
  }

  /** The expression type-checks, and the rows it may read exist. */
  ghost predicate Evaluable(e: Expr, ctx: RowCtx) {
    ctx.Valid() && Infer(e, ctx).Some? && (HasColumnRef(e) ==> ctx.OnRows())
  }

  function EvalComparison(op: BinaryOp, l: Value, r: Value): Tri
    requires l.Null? || r.Null? || Comparable(l, r)
  {
    if l.Null? || r.Null? then Unknown
    else
      var c := CompareValues(l, r);
      var holds := match op
        case Eq => c == 0
        case Ne => c != 0
        case Lt => c < 0
        case Le => c <= 0
        case Gt => c > 0
        case Ge => c >= 0
        case _ => false;
      if holds then True else False
  }

  function EvalTri(e: Expr, ctx: RowCtx): Tri
    requires Evaluable(e, ctx) && IsPredicate(e, ctx)
    decreases e, if TriFirst(e) then 0 else 1
  {
    match e
    case LitBool(b) => if b then True else False
    case LitNull => Unknown
    case Column(_, _) => ValueToTri(EvalValue(e, ctx))
    case Param(_) => ValueToTri(EvalValue(e, ctx))
    case Neg(_) => ValueToTri(EvalValue(e, ctx))
    case Not(a) =>
      var v := EvalTri(a, ctx);
      if v.Unknown? then Unknown else if v.True? then False else True
    case Binary(op, l, r) =>
      if op.And? then
        var x, y := EvalTri(l, ctx), EvalTri(r, ctx);
        if x.False? || y.False? then False else if x.Unknown? || y.Unknown? then Unknown else True
      else if op.Or? then
        var x, y := EvalTri(l, ctx), EvalTri(r, ctx);
        if x.True? || y.True? then True else if x.Unknown? || y.Unknown? then Unknown else False
      else if op.Arith() then ValueToTri(EvalValue(e, ctx))
      else EvalComparison(op, EvalValue(l, ctx), EvalValue(r, ctx))
    case _ => Unknown
  }

  /** Type soundness: the value is null or has the kind the static check announced. */
  function EvalValue(e: Expr, ctx: RowCtx): (v: Value)
    requires Evaluable(e, ctx)
    ensures HasType(v, Infer(e, ctx).value)
    decreases e, if TriFirst(e) then 1 else 0
  {
    match e
    case Column(table, name) =>
      var r := ResolveColumn(ctx, table, name).value;
      ctx.sources[r.src].table.Cell(ctx.sources[r.src].row, r.col)
    case LitInt(i) => Int(i)
    case LitDouble(d) => Dbl(d)
    case LitBool(b) => Bool(b)
    case LitString(s) => Text(s)
    case LitNull => Null(FtText)
    case Param(index) => ctx.params[index - 1]
    case Neg(a) =>
      var v := EvalValue(a, ctx);
      if v.Null? then v else if v.Int? then (var i: int := v.i; Int(Wrap64(-i))) else Dbl(Negate(v.d))
    case Not(_) => TriToValue(EvalTri(e, ctx))
    case Binary(op, l, r) =>
      if !op.Arith() then TriToValue(EvalTri(e, ctx))
      else
        var x, y := EvalValue(l, ctx), EvalValue(r, ctx);
        if x.Null? || y.Null? then Null(FtDouble) else EvalArith(op, x, y, ctx.fpu)
  }

  /** Division and mixed operands are computed in double, two integers wrap at 64 bits. */
  function EvalArith(op: BinaryOp, x: Value, y: Value, fpu: FloatUnit): (v: Value)
    requires op.Arith() && x.Numeric() && y.Numeric()
    ensures v.Kind() == if op.Div? || x.Dbl? || y.Dbl? then FtDouble else FtInt
  {
    if op.Div? then Dbl((fpu.div)(AsDouble(x), AsDouble(y)))
    else if x.Dbl? || y.Dbl? then
      var a, b := AsDouble(x), AsDouble(y);
      Dbl(match op case Add => (fpu.add)(a, b) case Sub => (fpu.sub)(a, b) case _ => (fpu.mul)(a, b))
    else
      var a: int, b: int := x.i, y.i;
      Int(Wrap64(match op case Add => a + b case Sub => a - b case _ => a * b))
  }

  /** The two evaluators agree on every predicate. */
  lemma EvaluatorsAgree(e: Expr, ctx: RowCtx)
    requires Evaluable(e, ctx) && IsPredicate(e, ctx)
    ensures EvalTri(e, ctx) == ValueToTri(EvalValue(e, ctx))
  {
  }

  function TriRank(t: Tri): int {
    match t case False => 0 case Unknown => 1 case True => 2
  }

  /** Kleene logic: with False < Unknown < True, AND is the minimum, OR the maximum and NOT the reversal. */
  lemma KleeneLogic(a: Expr, b: Expr, ctx: RowCtx)
    requires IsPredicate(a, ctx) && IsPredicate(b, ctx) && Evaluable(a, ctx) && Evaluable(b, ctx)
    ensures var x, y := TriRank(EvalTri(a, ctx)), TriRank(EvalTri(b, ctx));
      && TriRank(EvalTri(Binary(And, a, b), ctx)) == (if x <= y then x else y)
      && TriRank(EvalTri(Binary(Or, a, b), ctx)) == (if x <= y then y else x)
      && TriRank(EvalTri(Not(a), ctx)) == 2 - x
  {
  }

  /******* Values stored into columns *******/

  /** expr_fits_column: null fits anywhere, an integer widens into a DOUBLE column. */
  predicate Fits(t: ExprType, column: FieldType) {
    t.TNull? || t == TypeOfField(column) || (t.TInt? && column.FtDouble?)
  }

  ghost predicate ExprFits(e: Expr, ctx: RowCtx, column: FieldType) {
    ctx.Valid() && Infer(e, ctx).Some? && Fits(Infer(e, ctx).value, column)
  }

  /** assign_value: what a cell of this column holds afterwards. */
  function Assigned(v: Value, column: FieldType): (w: Value)
    requires v.Null? || Fits(TypeOfField(v.Kind()), column)
    ensures w.Kind() == column && (w.Null? <==> v.Null?)
    ensures !v.Null? && v.Kind() == column ==> w == v
    ensures v.Int? && column.FtDouble? ==> Ordered(w) && CompareValues(v, w) == 0
  {
    if v.Null? then Null(column)
    else match column
      case FtInt => Int(v.i)
      case FtDouble => Dbl(if v.Int? then IntToDouble(v.i) else v.d)
      case FtBool => Bool(v.b)
      case FtText => Text(v.s)
  }

  /** The value of an expression that fits a column can be stored in it. */
  lemma FittingValueIsAssignable(e: Expr, ctx: RowCtx, column: FieldType)
    requires Evaluable(e, ctx) && ExprFits(e, ctx, column)
    ensures var v := EvalValue(e, ctx); v.Null? || Fits(TypeOfField(v.Kind()), column)
  {
  }

  /******* What evaluation depends on *******/

  /** The two contexts show the expression the same cells. */
  ghost predicate SameView(e: Expr, a: RowCtx, b: RowCtx)
    requires a.Valid() && b.Valid()
  {
    match e
    case Column(table, name) =>
      var r, s := ResolveColumn(a, table, name), ResolveColumn(b, table, name);
      && r.Some? && r == s
      && var x, y, c := a.sources[r.value.src], b.sources[r.value.src], r.value.col;
         && x.table.schema.types[c] == y.table.schema.types[c]
         && (x.row < |x.table.rows| && y.row < |y.table.rows| ==> x.table.rows[x.row][c] == y.table.rows[y.row][c])
    case Not(x) => SameView(x, a, b)
    case Neg(x) => SameView(x, a, b)
    case Binary(_, l, r) => SameView(l, a, b) && SameView(r, a, b)
    case _ => true
  }

  lemma {:induction false} SameViewSameResult(e: Expr, a: RowCtx, b: RowCtx)
    requires a.params == b.params && a.fpu == b.fpu
    requires Evaluable(e, a) && b.Valid() && SameView(e, a, b) && (HasColumnRef(e) ==> b.OnRows())
    ensures Infer(e, b) == Infer(e, a) && EvalValue(e, a) == EvalValue(e, b)
    ensures IsPredicate(e, a) ==> EvalTri(e, a) == EvalTri(e, b)
    decreases e
  {
    match e {
      case Not(x) =>
        SameViewSameResult(x, a, b);
      case Neg(x) =>
        SameViewSameResult(x, a, b);
      case Binary(op, l, r) =>
        SameViewSameResult(l, a, b);
        SameViewSameResult(r, a, b);
      case _ =>
    }
  }

  /** Expressions without a column evaluate alike on every row. */
  lemma {:induction false} NoColumnSameView(e: Expr, a: RowCtx, b: RowCtx)
    requires a.Valid() && b.Valid() && !HasColumnRef(e)
    ensures SameView(e, a, b)
  {
    match e {
      case Not(x) => NoColumnSameView(x, a, b);
      case Neg(x) => NoColumnSameView(x, a, b);
      case Binary(_, l, r) => NoColumnSameView(l, a, b); NoColumnSameView(r, a, b);
      case _ =>
    }
  }

  /** The static type of an expression depends on the schemas in scope only. */
  lemma {:induction false} InferBySchema(e: Expr, a: RowCtx, b: RowCtx)
    requires a.Valid() && b.Valid() && SameSchemas(a, b)
    ensures Infer(e, a) == Infer(e, b)
  {
    match e {
      case Column(table, name) =>
        if table.Some? {
          ResolveQualifiedBySchema(a, b, table.value, name, 0);
        } else {
          ResolveUniqueBySchema(a, b, name, 0, None);
        }
      case Not(x) => InferBySchema(x, a, b);
      case Neg(x) => InferBySchema(x, a, b);
      case Binary(_, l, r) => InferBySchema(l, a, b); InferBySchema(r, a, b);
      case _ =>
    }
  }

  ghost predicate SameSchemas(a: RowCtx, b: RowCtx) {
    && a.params == b.params && |a.sources| == |b.sources|
    && forall i :: 0 <= i < |a.sources| ==>
         a.sources[i].alias == b.sources[i].alias && a.sources[i].table.schema == b.sources[i].table.schema
  }

  lemma {:induction false} ResolveQualifiedBySchema(a: RowCtx, b: RowCtx, alias: string, name: string, i: nat)
    requires SameSchemas(a, b) && i <= |a.sources|
    ensures ResolveQualified(a, alias, name, i) == ResolveQualified(b, alias, name, i)
    decreases |a.sources| - i
  {
    if i < |a.sources| && a.sources[i].alias != alias {
      ResolveQualifiedBySchema(a, b, alias, name, i + 1);
    }
  }

  lemma {:induction false} ResolveUniqueBySchema(a: RowCtx, b: RowCtx, name: string, i: nat, found: Option<ColumnRef>)
    requires SameSchemas(a, b) && i <= |a.sources|
    requires found.Some? ==> found.value.src < i && Names(a, found.value, None, name) && Names(b, found.value, None, name)
    ensures ResolveUnique(a, name, i, found) == ResolveUnique(b, name, i, found)
    decreases |a.sources| - i
  {
    if i < |a.sources| {
      var col := a.sources[i].table.schema.FindColumn(name);
      if col.None? {
        ResolveUniqueBySchema(a, b, name, i + 1, found);
      } else if found.None? {
        ResolveUniqueBySchema(a, b, name, i + 1, Some(ColumnRef(i, col.value)));
      }
    }
  }
}
