/**
 Plain SELECT: the nested-loop join and its two index fast paths, the point lookup for
 WHERE and the probe for ON. The result is the cross product filtered by every condition.
 */
module Selects {
  import opened Values
  import opened RowIndexes
  import opened TableStates
  import opened Tables
  import opened Expressions
  import opened Constraints
  import opened Statements

  type Tuple = seq<nat>

  /** The tables of a query in join order, under their names, and the bound parameters. */
  datatype Scope = Scope(names: seq<string>, states: seq<TableState>, env: Env)
  {
    ghost predicate Valid() {
      && |names| == |states| && DistinctNames(names)
      && forall i :: 0 <= i < |states| ==> states[i].Valid() && DistinctNames(states[i].schema.names)
    }

    /** Rows for the first tables of the query. */
    predicate OnRows(t: Tuple) {
      |t| <= |states| && forall s :: 0 <= s < |t| ==> t[s] < |states[s].rows|
    }

    function Ctx(t: Tuple): (ctx: RowCtx)
      requires |t| <= |states| == |names|
      ensures this.Valid() ==> ctx.Valid()
      ensures OnRows(t) ==> ctx.OnRows()
      ensures |ctx.sources| == |t| && ctx.params == env.params && ctx.fpu == env.fpu
    {
      RowCtx(seq(|t|, s requires 0 <= s < |t| <= |states| == |names| => RowSource(names[s], states[s], t[s])), env.params, env.fpu)
    }

    /** The condition type-checks on the first k tables. */
    ghost predicate Typed(e: Expr, k: nat)
      requires |names| == |states|
    {
      k <= |states| && IsPredicate(e, Ctx(seq(k, _ => 0)))
    }

    ghost predicate Passes(e: Expr, t: Tuple)
      requires |names| == |states|
    {
      OnRows(t) && IsPredicate(e, Ctx(t)) && EvalTri(e, Ctx(t)).True?
    }

    predicate LiveTuple(t: Tuple) {
      |t| <= |states| && forall s :: 0 <= s < |t| ==> states[s].Live(t[s])
    }

    lemma LiveIsOnRows(t: Tuple)
      requires Valid() && LiveTuple(t)
      ensures OnRows(t)
    {
      forall s | 0 <= s < |t| ensures t[s] < |states[s].rows| {
        assert states[s].Live(t[s]) && states[s].Valid();
      }
    }

    lemma TypedHere(e: Expr, k: nat, t: Tuple)
      requires Valid() && Typed(e, k) && |t| == k
      ensures IsPredicate(e, Ctx(t))
    {
      InferBySchema(e, Ctx(seq(k, _ => 0)), Ctx(t));
    }
  }

  /******* A condition sees a prefix of the tables as it sees them all *******/

  lemma {:induction false} UniqueInPrefix(a: RowCtx, b: RowCtx, name: string, i: nat, found: Option<ColumnRef>)
    requires i <= |a.sources| <= |b.sources| && a.sources == b.sources[..|a.sources|]
    requires found.Some? ==> found.value.src < i && Names(a, found.value, None, name) && Names(b, found.value, None, name)
    requires ResolveUnique(a, name, i, found).Some? && ResolveUnique(b, name, i, found).Some?
    ensures ResolveUnique(a, name, i, found) == ResolveUnique(b, name, i, found)
    decreases |a.sources| - i
  {
    if i < |a.sources| {
      assert a.sources[i] == b.sources[i];
      var col := a.sources[i].table.schema.FindColumn(name);
      if col.None? {
        UniqueInPrefix(a, b, name, i + 1, found);
      } else if found.None? {
        UniqueInPrefix(a, b, name, i + 1, Some(ColumnRef(i, col.value)));
      }
    }
  }

  lemma {:induction false} QualifiedInPrefix(a: RowCtx, b: RowCtx, alias: string, name: string, i: nat)
    requires i <= |a.sources| <= |b.sources| && a.sources == b.sources[..|a.sources|]
    requires ResolveQualified(a, alias, name, i).Some?
    ensures ResolveQualified(a, alias, name, i) == ResolveQualified(b, alias, name, i)
    decreases |a.sources| - i
  {
    if i < |a.sources| {
      assert a.sources[i] == b.sources[i];
      if a.sources[i].alias != alias {
        QualifiedInPrefix(a, b, alias, name, i + 1);
      }
    }
  }

  /** An expression typed over some tables and over more reads the same columns in both. */
  lemma {:induction false} PrefixSameView(e: Expr, a: RowCtx, b: RowCtx)
    requires a.Valid() && b.Valid() && a.params == b.params
    requires |a.sources| <= |b.sources| && a.sources == b.sources[..|a.sources|]
    requires Infer(e, a).Some? && Infer(e, b).Some?
    ensures SameView(e, a, b)
  {
    match e {
      case Column(table, name) =>
        if table.Some? {
          QualifiedInPrefix(a, b, table.value, name, 0);
        } else {
          UniqueInPrefix(a, b, name, 0, None);
        }
        var r := ResolveColumn(a, table, name).value;
        assert a.sources[r.src] == b.sources[r.src];
      case Not(x) => PrefixSameView(x, a, b);
      case Neg(x) => PrefixSameView(x, a, b);
      case Binary(_, l, r) => PrefixSameView(l, a, b); PrefixSameView(r, a, b);
      case _ =>
    }
  }

  /** A condition typed on k tables and on all of them holds of a tuple exactly when it holds of its first k rows. */
  lemma PassesOnPrefix(sc: Scope, e: Expr, k: nat, t: Tuple)
    requires sc.Valid() && sc.Typed(e, k) && sc.Typed(e, |t|) && k <= |t| && sc.OnRows(t)
    ensures sc.Passes(e, t) <==> sc.Passes(e, t[..k])
  {
    hide EvalTri, EvalValue, Infer, Scope.Typed, SameView;
    sc.TypedHere(e, k, t[..k]);
    sc.TypedHere(e, |t|, t);
    assert sc.Ctx(t[..k]).sources == sc.Ctx(t).sources[..k];
    PrefixSameView(e, sc.Ctx(t[..k]), sc.Ctx(t));
    SameViewSameResult(e, sc.Ctx(t[..k]), sc.Ctx(t));
  }

  /******* The nested loop *******/

  /** The extensions of t by one of the first n rows of the next table that satisfy a condition, in storage order. */
  ghost function KeepRows(sc: Scope, e: Expr, t: Tuple, n: nat): seq<Tuple>
    requires |sc.names| == |sc.states|
  {
    if n == 0 || |t| >= |sc.states| then []
    else if sc.states[|t|].Live(n - 1) && sc.Passes(e, t + [n - 1]) then KeepRows(sc, e, t, n - 1) + [t + [n - 1]]
    else KeepRows(sc, e, t, n - 1)
  }

  /** One join step over all tuples built so far. */
  ghost function JoinStep(sc: Scope, e: Expr, ts: seq<Tuple>): seq<Tuple>
    requires |sc.names| == |sc.states|
  {
    if ts == [] then []
    else
      var t := ts[|ts| - 1];
      JoinStep(sc, e, ts[..|ts| - 1]) + KeepRows(sc, e, t, NextRows(sc, t))
  }

  /** The live rows of the first table, then one step per ON clause. */
  ghost function Nested(sc: Scope, ons: seq<Expr>): seq<Tuple>
    requires |sc.names| == |sc.states|
  {
    if ons == [] then KeepRows(sc, LitBool(true), [], NextRows(sc, []))
    else JoinStep(sc, ons[|ons| - 1], Nested(sc, ons[..|ons| - 1]))
  }

  /******* The cross product *******/

  /** The extensions of t by the live rows below n of the next table. */
  function Extend(sc: Scope, t: Tuple, n: nat): seq<Tuple> {
    if n == 0 || |t| >= |sc.states| then []
    else if sc.states[|t|].Live(n - 1) then Extend(sc, t, n - 1) + [t + [n - 1]]
    else Extend(sc, t, n - 1)
  }

  function NextRows(sc: Scope, t: Tuple): nat {
    if |t| < |sc.states| then |sc.states[|t|].rows| else 0
  }

  function ExtendAll(sc: Scope, ts: seq<Tuple>): seq<Tuple> {
    if ts == [] then []
    else ExtendAll(sc, ts[..|ts| - 1]) + Extend(sc, ts[|ts| - 1], NextRows(sc, ts[|ts| - 1]))
  }

  /** All tuples of live rows of the first k tables; the first table varies slowest. */
  function Cross(sc: Scope, k: nat): seq<Tuple> {
    if k == 0 then [[]] else ExtendAll(sc, Cross(sc, k - 1))
  }

  ghost function Keep(ts: seq<Tuple>, p: Tuple -> bool): seq<Tuple> {
    if ts == [] then []
    else if p(ts[|ts| - 1]) then Keep(ts[..|ts| - 1], p) + [ts[|ts| - 1]]
    else Keep(ts[..|ts| - 1], p)
  }

  /** The answer of a query: every combination of live rows on which all conditions are TRUE. */
  ghost function Answer(sc: Scope, conditions: seq<Expr>): seq<Tuple>
    requires |sc.names| == |sc.states|
  {
    Keep(Cross(sc, |sc.states|), t => forall j :: 0 <= j < |conditions| ==> sc.Passes(conditions[j], t))
  }

  lemma {:induction false} KeepConcat(a: seq<Tuple>, b: seq<Tuple>, p: Tuple -> bool)
    ensures Keep(a + b, p) == Keep(a, p) + Keep(b, p)
  {
    if b == [] {
      assert a + b == a;
    } else {
      KeepConcat(a, b[..|b| - 1], p);
      assert (a + b)[..|a + b| - 1] == a + b[..|b| - 1];
    }
  }

  lemma {:induction false} KeepSame(ts: seq<Tuple>, p: Tuple -> bool, q: Tuple -> bool)
    requires forall t :: t in ts ==> p(t) == q(t)
    ensures Keep(ts, p) == Keep(ts, q)
  {
    if ts != [] {
      assert ts[|ts| - 1] in ts;
      KeepSame(ts[..|ts| - 1], p, q);
    }
  }

  lemma {:induction false} KeepNone(ts: seq<Tuple>, p: Tuple -> bool)
    requires forall t :: t in ts ==> !p(t)
    ensures Keep(ts, p) == []
  {
    if ts != [] {
      assert ts[|ts| - 1] in ts;
      KeepNone(ts[..|ts| - 1], p);
    }
  }

  lemma {:induction false} KeepTwice(ts: seq<Tuple>, p: Tuple -> bool, q: Tuple -> bool)
    ensures Keep(Keep(ts, p), q) == Keep(ts, t => p(t) && q(t))
  {
    if ts != [] {
      KeepTwice(ts[..|ts| - 1], p, q);
    }
  }

  lemma {:induction false} ExtendMembers(sc: Scope, t: Tuple, n: nat, x: Tuple)
    ensures x in Extend(sc, t, n) <==> |t| < |sc.states| && exists r :: 0 <= r < n && sc.states[|t|].Live(r) && x == t + [r]
  {
    if n > 0 && |t| < |sc.states| {
      ExtendMembers(sc, t, n - 1, x);
    }
  }

  lemma {:induction false} KeepRowsFilters(sc: Scope, e: Expr, t: Tuple, n: nat)
    requires |sc.names| == |sc.states|
    ensures KeepRows(sc, e, t, n) == Keep(Extend(sc, t, n), x => sc.Passes(e, x))
  {
    if n > 0 && |t| < |sc.states| {
      KeepRowsFilters(sc, e, t, n - 1);
    }
  }

  /** The part of a join step that comes from one tuple. */
  lemma ExtensionsFilter(sc: Scope, e: Expr, t: Tuple, p: Tuple -> bool)
    requires |sc.names| == |sc.states|
    ensures Keep(Extend(sc, t, NextRows(sc, t)), x => x != [] && p(x[..|x| - 1]) && sc.Passes(e, x))
      == if p(t) then KeepRows(sc, e, t, NextRows(sc, t)) else []
  {
    var q := (x: Tuple) => x != [] && p(x[..|x| - 1]) && sc.Passes(e, x);
    var ext := Extend(sc, t, NextRows(sc, t));
    forall x | x in ext ensures x != [] && x[..|x| - 1] == t {
      ExtendMembers(sc, t, NextRows(sc, t), x);
    }
    if p(t) {
      KeepRowsFilters(sc, e, t, NextRows(sc, t));
      KeepSame(ext, q, x => sc.Passes(e, x));
    } else {
      KeepNone(ext, q);
    }
  }

  lemma KeepLast(ts: seq<Tuple>, p: Tuple -> bool)
    requires ts != []
    ensures Keep(ts, p) == if p(ts[|ts| - 1]) then Keep(ts[..|ts| - 1], p) + [ts[|ts| - 1]] else Keep(ts[..|ts| - 1], p)
  {
  }

  lemma JoinStepLast(sc: Scope, e: Expr, ts: seq<Tuple>, t: Tuple)
    requires |sc.names| == |sc.states|
    ensures JoinStep(sc, e, ts + [t]) == JoinStep(sc, e, ts) + KeepRows(sc, e, t, NextRows(sc, t))
  {
    assert (ts + [t])[..|ts|] == ts;
  }

  /** A join step over the tuples that satisfy p keeps those of all extensions that satisfy p and the condition. */
  lemma {:induction false} JoinStepFilters(sc: Scope, e: Expr, ts: seq<Tuple>, p: Tuple -> bool)
    requires |sc.names| == |sc.states|
    ensures JoinStep(sc, e, Keep(ts, p)) == Keep(ExtendAll(sc, ts), x => x != [] && p(x[..|x| - 1]) && sc.Passes(e, x))
  {
    if ts != [] {
      var q := (x: Tuple) => x != [] && p(x[..|x| - 1]) && sc.Passes(e, x);
      var rest, t := ts[..|ts| - 1], ts[|ts| - 1];
      JoinStepFilters(sc, e, rest, p);
      hide Scope.Passes, KeepRows, Extend, Keep, JoinStep;
      KeepConcat(ExtendAll(sc, rest), Extend(sc, t, NextRows(sc, t)), q);
      ExtensionsFilter(sc, e, t, p);
      KeepLast(ts, p);
      JoinStepLast(sc, e, Keep(rest, p), t);
    }
  }

  /** Every ON holds of the rows joined when it was evaluated. */
  ghost predicate Joined(sc: Scope, ons: seq<Expr>, t: Tuple)
    requires |sc.names| == |sc.states|
  {
    |t| == |ons| + 1 && forall j :: 0 <= j < |ons| ==> sc.Passes(ons[j], t[..j + 2])
  }

  lemma JoinedStep(sc: Scope, ons: seq<Expr>, t: Tuple)
    requires |sc.names| == |sc.states| && ons != []
    ensures Joined(sc, ons, t) <==>
      t != [] && Joined(sc, ons[..|ons| - 1], t[..|t| - 1]) && sc.Passes(ons[|ons| - 1], t)
  {
    hide Scope.Passes;
    var k := |ons| - 1;
    if |t| == |ons| + 1 {
      assert t[..k + 2] == t;
      forall j | 0 <= j < k ensures t[..|t| - 1][..j + 2] == t[..j + 2] && ons[..k][j] == ons[j] {
      }
      if Joined(sc, ons, t) {
        forall j | 0 <= j < k ensures sc.Passes(ons[..k][j], t[..|t| - 1][..j + 2]) {
          assert sc.Passes(ons[j], t[..j + 2]);
        }
      }
      if Joined(sc, ons[..k], t[..|t| - 1]) && sc.Passes(ons[k], t) {
        forall j | 0 <= j < |ons| ensures sc.Passes(ons[j], t[..j + 2]) {
          assert j < k ==> sc.Passes(ons[..k][j], t[..|t| - 1][..j + 2]);
        }
      }
    }
  }

  lemma {:induction false} NestedIsFilteredCross(sc: Scope, ons: seq<Expr>)
    requires sc.Valid() && |ons| < |sc.states|
    ensures Nested(sc, ons) == Keep(Cross(sc, |ons| + 1), t => Joined(sc, ons, t))
  {
    var q := (t: Tuple) => Joined(sc, ons, t);
    if ons == [] {
      var n := NextRows(sc, []);
      assert Cross(sc, 1) == ExtendAll(sc, [[]]);
      assert ExtendAll(sc, [[]]) == Extend(sc, [], n);
      KeepRowsFilters(sc, LitBool(true), [], n);
      forall x | x in Extend(sc, [], n) ensures sc.Passes(LitBool(true), x) == q(x) {
        ExtendMembers(sc, [], n, x);
        sc.LiveIsOnRows(x);
      }
      KeepSame(Extend(sc, [], n), x => sc.Passes(LitBool(true), x), q);
    } else {
      var k := |ons| - 1;
      var p := (t: Tuple) => Joined(sc, ons[..k], t);
      NestedIsFilteredCross(sc, ons[..k]);
      JoinStepFilters(sc, ons[k], Cross(sc, k + 1), p);
      forall t ensures q(t) == (t != [] && p(t[..|t| - 1]) && sc.Passes(ons[k], t)) {
        JoinedStep(sc, ons, t);
      }
      KeepSame(Cross(sc, k + 2), q, x => x != [] && p(x[..|x| - 1]) && sc.Passes(ons[k], x));
    }
  }

  function Conditions(ons: seq<Expr>, where: Option<Expr>): seq<Expr> {
    if where.Some? then ons + [where.value] else ons
  }

  /** The static checks: every condition is typed over all tables, and every ON over those joined by then. */
  ghost predicate Checked(sc: Scope, ons: seq<Expr>, where: Option<Expr>) {
    && sc.Valid() && |sc.states| == |ons| + 1
    && (forall j :: 0 <= j < |ons| ==> sc.Typed(ons[j], j + 2) && sc.Typed(ons[j], |sc.states|))
    && (where.Some? ==> sc.Typed(where.value, |sc.states|))
  }

  ghost predicate PassesWhere(sc: Scope, where: Option<Expr>, t: Tuple)
    requires |sc.names| == |sc.states|
  {
    where.None? || sc.Passes(where.value, t)
  }

  /**
   The nested loop computes the query: the cross product, the first table slowest, filtered by
   every ON and the WHERE clause, each evaluated on the complete tuple.
   */
  lemma NestedLoopAnswers(sc: Scope, ons: seq<Expr>, where: Option<Expr>)
    requires Checked(sc, ons, where)
    ensures Keep(Nested(sc, ons), t => PassesWhere(sc, where, t)) == Answer(sc, Conditions(ons, where))
  {
    var n, all := |sc.states|, Conditions(ons, where);
    var p, q := (t: Tuple) => Joined(sc, ons, t), (t: Tuple) => PassesWhere(sc, where, t);
    NestedIsFilteredCross(sc, ons);
    KeepTwice(Cross(sc, n), p, q);
    forall t | t in Cross(sc, n) ensures (p(t) && q(t)) == (forall j :: 0 <= j < |all| ==> sc.Passes(all[j], t)) {
      CrossMembers(sc, n, t);
      JoinedOnWhole(sc, ons, where, t);
      assert where.Some? ==> all[|ons|] == where.value;
      assert forall j :: 0 <= j < |ons| ==> all[j] == ons[j];
    }
    KeepSame(Cross(sc, n), t => p(t) && q(t), t => forall j :: 0 <= j < |all| ==> sc.Passes(all[j], t));
  }

  lemma JoinedOnWhole(sc: Scope, ons: seq<Expr>, where: Option<Expr>, t: Tuple)
    requires Checked(sc, ons, where) && |t| == |ons| + 1 && sc.LiveTuple(t)
    ensures Joined(sc, ons, t) <==> forall j :: 0 <= j < |ons| ==> sc.Passes(ons[j], t)
  {
    hide Scope.Passes, Scope.Typed, Scope.OnRows, Scope.LiveTuple;
    sc.LiveIsOnRows(t);
    forall j | 0 <= j < |ons| ensures sc.Passes(ons[j], t) <==> sc.Passes(ons[j], t[..j + 2]) {
      PassesOnPrefix(sc, ons[j], j + 2, t);
    }
  }

  lemma {:induction false} CrossMembers(sc: Scope, k: nat, t: Tuple)
    requires sc.Valid() && k <= |sc.states|
    ensures t in Cross(sc, k) <==> |t| == k && sc.LiveTuple(t)
  {
    if k > 0 {
      ExtendAllMembers(sc, Cross(sc, k - 1), t);
      if t != [] {
        CrossMembers(sc, k - 1, t[..|t| - 1]);
      }
    }
  }

  lemma {:induction false} ExtendAllMembers(sc: Scope, ts: seq<Tuple>, x: Tuple)
    requires sc.Valid()
    ensures x in ExtendAll(sc, ts) <==> x != [] && |x| <= |sc.states| && x[..|x| - 1] in ts && sc.states[|x| - 1].Live(x[|x| - 1])
  {
    if ts != [] {
      var rest, t := ts[..|ts| - 1], ts[|ts| - 1];
      ExtendAllMembers(sc, rest, x);
      ExtendMembers(sc, t, NextRows(sc, t), x);
      assert ts == rest + [t];
      if x != [] && |x| <= |sc.states| && x[..|x| - 1] == t && sc.states[|x| - 1].Live(x[|x| - 1]) {
        assert x == t + [x[|x| - 1]] && sc.states[|t|].Valid();
      }
    }
  }

  /******* Recognising a key lookup *******/

  /** A conjunct of WHERE that fixes the primary key to a constant of its own type. */
  function FindPkEquality(e: Expr, ctx: RowCtx, alias: string, pk: string, kind: FieldType): (v: Option<Value>)
    requires IsPredicate(e, ctx)
    ensures v.Some? ==> !v.value.Null? && v.value.Kind() == kind
  {
    if !e.Binary? then None
    else if e.op.And? then
      var first := FindPkEquality(e.left, ctx, alias, pk, kind);
      if first.Some? then first else FindPkEquality(e.right, ctx, alias, pk, kind)
    else if !e.op.Eq? then None
    else if e.left.Column? && !HasColumnRef(e.right) then KeyConstant(e.left, e.right, ctx, alias, pk, kind)
    else if e.right.Column? && !HasColumnRef(e.left) then KeyConstant(e.right, e.left, ctx, alias, pk, kind)
    else None
  }

  function KeyConstant(column: Expr, constant: Expr, ctx: RowCtx, alias: string, pk: string, kind: FieldType): (v: Option<Value>)
    requires column.Column? && Evaluable(constant, ctx)
    ensures v.Some? ==> !v.value.Null? && v.value.Kind() == kind
  {
    if (column.table.Some? && column.table.value != alias) || column.name != pk then None
    else
      var v := EvalValue(constant, ctx);
      if v.Null? || v.Kind() != kind then None else Some(v)
  }

  /** The other side of a conjunct of ON that equates the qualified primary key of the inner table with something. */
  function FindJoinPkEquality(e: Expr, alias: string, pk: string): (x: Option<Expr>) {
    if !e.Binary? then None
    else if e.op.And? then
      var first := FindJoinPkEquality(e.left, alias, pk);
      if first.Some? then first else FindJoinPkEquality(e.right, alias, pk)
    else if !e.op.Eq? then None
    else if e.left == Column(Some(alias), pk) then Some(e.right)
    else if e.right == Column(Some(alias), pk) then Some(e.left)
    else None
  }

  /** compare_values finds a key and a cell of its type equal, in whichever order the condition names them. */
  predicate ComparesEqual(key: Value, cell: Value) {
    && !key.Null? && !cell.Null? && key.Kind() == cell.Kind()
    && (CompareValues(key, cell) == 0 || CompareValues(cell, key) == 0)
  }

  /** A TRUE conjunction makes the recognised conjunct TRUE, so the row's key compares equal to the constant. */
  lemma {:induction false} PkEqualitySound(e: Expr, before: RowCtx, ctx: RowCtx, alias: string, pk: string, kind: FieldType)
    requires IsPredicate(e, before) && IsPredicate(e, ctx) && before.params == ctx.params && before.fpu == ctx.fpu
    requires ctx.OnRows() && |ctx.sources| == 1 && ctx.sources[0].alias == alias
    requires FindPkEquality(e, before, alias, pk, kind).Some? && EvalTri(e, ctx).True?
    ensures var t := ctx.sources[0].table;
      var c := t.schema.FindColumn(pk);
      c.Some? && (t.schema.types[c.value] == kind ==>
        ComparesEqual(FindPkEquality(e, before, alias, pk, kind).value, t.Cell(ctx.sources[0].row, c.value)))
  {
    if e.op.And? {
      if FindPkEquality(e.left, before, alias, pk, kind).Some? {
        PkEqualitySound(e.left, before, ctx, alias, pk, kind);
      } else {
        PkEqualitySound(e.right, before, ctx, alias, pk, kind);
      }
    } else {
      var column, constant := e.left, e.right;
      if !(e.left.Column? && !HasColumnRef(e.right)) {
        column, constant := e.right, e.left;
      }
      NoColumnSameView(constant, before, ctx);
      SameViewSameResult(constant, before, ctx);
      OnlySource(ctx, column.table, column.name);
    }
  }

  /** With one table in scope a column is found in it or not at all. */
  lemma OnlySource(ctx: RowCtx, table: Option<string>, name: string)
    requires |ctx.sources| == 1 && ResolveColumn(ctx, table, name).Some?
    ensures var r := ResolveColumn(ctx, table, name).value;
      r.src == 0 && ctx.sources[0].table.schema.FindColumn(name) == Some(r.col)
  {
  }

  lemma {:induction false} JoinPkEqualitySound(e: Expr, ctx: RowCtx, inner: nat, pk: string)
    requires IsPredicate(e, ctx) && ctx.OnRows() && inner < |ctx.sources|
    requires forall i :: 0 <= i < inner ==> ctx.sources[i].alias != ctx.sources[inner].alias
    requires FindJoinPkEquality(e, ctx.sources[inner].alias, pk).Some? && EvalTri(e, ctx).True?
    ensures var x, t := FindJoinPkEquality(e, ctx.sources[inner].alias, pk).value, ctx.sources[inner].table;
      var c := t.schema.FindColumn(pk);
      && c.Some? && Evaluable(x, ctx)
      && var key, cell := EvalValue(x, ctx), t.Cell(ctx.sources[inner].row, c.value);
         !key.Null? && (key.Kind() == cell.Kind() ==> ComparesEqual(key, cell))
  {
    if e.op.And? {
      if FindJoinPkEquality(e.left, ctx.sources[inner].alias, pk).Some? {
        JoinPkEqualitySound(e.left, ctx, inner, pk);
      } else {
        JoinPkEqualitySound(e.right, ctx, inner, pk);
      }
    } else {
      QualifiedFinds(ctx, inner, pk, 0);
    }
  }

  lemma {:induction false} QualifiedFinds(ctx: RowCtx, inner: nat, name: string, i: nat)
    requires i <= inner < |ctx.sources|
    requires forall k :: 0 <= k < inner ==> ctx.sources[k].alias != ctx.sources[inner].alias
    requires ResolveQualified(ctx, ctx.sources[inner].alias, name, i).Some?
    ensures ResolveQualified(ctx, ctx.sources[inner].alias, name, i).value.src == inner
    decreases inner - i
  {
    if i < inner {
      QualifiedFinds(ctx, inner, name, i + 1);
    }
  }

  /******* Candidates from the index *******/

  /** The candidate rows that are live and satisfy the condition, in candidate order, repeats included. */
  ghost function KeepCandidates(sc: Scope, e: Expr, t: Tuple, rows: seq<nat>): seq<Tuple>
    requires |sc.names| == |sc.states|
  {
    if rows == [] || |t| >= |sc.states| then []
    else if Kept(sc, e, t, rows[|rows| - 1]) then KeepCandidates(sc, e, t, rows[..|rows| - 1]) + [t + [rows[|rows| - 1]]]
    else KeepCandidates(sc, e, t, rows[..|rows| - 1])
  }

  /** The row of the next table extends t. */
  ghost predicate Kept(sc: Scope, e: Expr, t: Tuple, r: nat)
    requires |sc.names| == |sc.states|
  {
    |t| < |sc.states| && sc.states[|t|].Live(r) && sc.Passes(e, t + [r])
  }

  lemma {:induction false} KeepRowsMembers(sc: Scope, e: Expr, t: Tuple, n: nat, x: Tuple)
    requires |sc.names| == |sc.states|
    ensures x in KeepRows(sc, e, t, n) <==> exists r: nat :: r < n && Kept(sc, e, t, r) && x == t + [r]
  {
    hide Scope.Passes, TableState.Live;
    if n > 0 && |t| < |sc.states| {
      KeepRowsMembers(sc, e, t, n - 1, x);
      assert Kept(sc, e, t, n - 1) <==> sc.states[|t|].Live(n - 1) && sc.Passes(e, t + [n - 1]);
    }
  }

  lemma {:induction false} KeepCandidatesMembers(sc: Scope, e: Expr, t: Tuple, rows: seq<nat>, x: Tuple)
    requires |sc.names| == |sc.states|
    ensures x in KeepCandidates(sc, e, t, rows) <==> exists r: nat :: r in rows && Kept(sc, e, t, r) && x == t + [r]
  {
    if rows != [] && |t| < |sc.states| {
      var rest, last := rows[..|rows| - 1], rows[|rows| - 1];
      KeepCandidatesMembers(sc, e, t, rest, x);
      assert rows == rest + [last];
    }
  }

  /** When only row r can be kept, a scan keeps it once. */
  lemma {:induction false} KeepRowsOne(sc: Scope, e: Expr, t: Tuple, n: nat, r: nat)
    requires |sc.names| == |sc.states| && forall q: nat :: Kept(sc, e, t, q) ==> q == r
    ensures KeepRows(sc, e, t, n) == if r < n && Kept(sc, e, t, r) then [t + [r]] else []
  {
    if n > 0 && |t| < |sc.states| {
      KeepRowsOne(sc, e, t, n - 1, r);
      assert Kept(sc, e, t, n - 1) <==> sc.states[|t|].Live(n - 1) && sc.Passes(e, t + [n - 1]);
    }
  }

  function Copies(t: Tuple, n: nat): seq<Tuple> {
    seq(n, _ => t)
  }

  /** When only row r can be kept, the candidates bring it up as often as the index names it. */
  lemma {:induction false} KeepCandidatesOne(sc: Scope, e: Expr, t: Tuple, rows: seq<nat>, r: nat)
    requires |sc.names| == |sc.states| && forall q: nat :: Kept(sc, e, t, q) ==> q == r
    ensures KeepCandidates(sc, e, t, rows) == if Kept(sc, e, t, r) then Copies(t + [r], multiset(rows)[r]) else []
  {
    if rows != [] && |t| < |sc.states| {
      var rest, last := rows[..|rows| - 1], rows[|rows| - 1];
      assert rows == rest + [last];
      assert multiset(rows) == multiset(rest) + multiset{last};
      KeepCandidatesOne(sc, e, t, rest, r);
      assert Kept(sc, e, t, last) ==> last == r;
    }
  }

  ghost predicate SameMembers(a: seq<Tuple>, b: seq<Tuple>) {
    forall t :: t in a <==> t in b
  }

  /** Keys on which comparison, equality and hash agree, and no live key that is NaN. */
  ghost predicate ExactProbe(key: Value, t: TableState) {
    ExactKey(key) && forall r: nat, c: nat :: t.schema.IsPk(c) && t.HasCell(r, c) && t.Live(r) ==> Ordered(t.Cell(r, c))
  }

  /** Live primary keys are pairwise unequal, as Integrity says. */
  ghost predicate UniqueKeys(t: TableState)
    requires t.Valid()
  {
    forall r: nat :: t.Live(r) ==> KeyOk(t, r)
  }

  /** Keys are unique and the index holds every pair once. */
  ghost predicate Unrepeated(table: Table)
    requires table.Stored()
    reads table, table.pkIndex, table.pkIndex.slots
  {
    UniqueKeys(table.State()) && DistinctPairs(table.pkIndex.Pairs())
  }

  /** Every row the condition keeps has a key that compares equal to the probe key. */
  ghost predicate Pins(sc: Scope, e: Expr, t: Tuple, c: nat, key: Value)
    requires |sc.names| == |sc.states|
  {
    forall r: nat :: Kept(sc, e, t, r) ==> sc.states[|t|].HasCell(r, c) && ComparesEqual(key, sc.states[|t|].Cell(r, c))
  }

  /** Every row the condition keeps is a candidate, and its key equals the probe key. */
  lemma KeptIsCandidate(table: Table, sc: Scope, e: Expr, t: Tuple, c: nat, key: Value, r: nat)
    requires sc.Valid() && |t| < |sc.states| && table.Valid() && table.State() == sc.states[|t|]
    requires table.schema.IsPk(c) && table.pkIndex.Usable() && !key.Null?
    requires Pins(sc, e, t, c, key) && ExactProbe(key, sc.states[|t|]) && Kept(sc, e, t, r)
    ensures r < |sc.states[|t|].rows| && r in Visits(table.pkIndex.slots[..], ValueHash(table.mix, key)) && table.State().Holds(r, c, key)
  {
    hide Scope.Passes, Table.Stored, Visits, ExactKey;
    CompareZeroIsCellEqual(key, table.State().Cell(r, c));
    table.MatchIsVisited(c, key, r);
  }

  /** The index finds every row a scan would keep: a hash collision or a stale pair only costs a check. */
  lemma ProbeKeepsAll(table: Table, sc: Scope, e: Expr, t: Tuple, c: nat, key: Value, n: nat)
    requires sc.Valid() && |t| < |sc.states| && table.Valid() && table.State() == sc.states[|t|]
    requires table.schema.IsPk(c) && table.pkIndex.Usable() && !key.Null? && n == |sc.states[|t|].rows|
    requires Pins(sc, e, t, c, key) && ExactProbe(key, sc.states[|t|])
    ensures var rows := Visits(table.pkIndex.slots[..], ValueHash(table.mix, key));
      && SameMembers(KeepCandidates(sc, e, t, rows), KeepRows(sc, e, t, n))
      && (Unrepeated(table) ==> KeepCandidates(sc, e, t, rows) == KeepRows(sc, e, t, n))
  {
    hide Scope.Passes, Kept, KeepRows, KeepCandidates, Table.Valid, Table.Stored, Visits, Pins, ExactProbe;
    var rows := Visits(table.pkIndex.slots[..], ValueHash(table.mix, key));
    forall x ensures x in KeepCandidates(sc, e, t, rows) <==> x in KeepRows(sc, e, t, n) {
      KeepCandidatesMembers(sc, e, t, rows, x);
      KeepRowsMembers(sc, e, t, n, x);
      forall r: nat | Kept(sc, e, t, r) ensures r < n && r in rows {
        KeptIsCandidate(table, sc, e, t, c, key, r);
      }
    }
    if Unrepeated(table) {
      ProbeOrderExactly(table, sc, e, t, c, key, n);
      forall r: nat | Kept(sc, e, t, r) ensures table.pkIndex.Pairs()[Entry(ValueHash(table.mix, key), r)] == 1 {
        KeptIsNamed(table, sc, e, t, c, key, r);
      }
    }
  }

  lemma KeptIsNamed(table: Table, sc: Scope, e: Expr, t: Tuple, c: nat, key: Value, r: nat)
    requires sc.Valid() && |t| < |sc.states| && table.Valid() && table.State() == sc.states[|t|]
    requires table.schema.IsPk(c) && table.pkIndex.Usable() && !key.Null?
    requires Pins(sc, e, t, c, key) && ExactProbe(key, sc.states[|t|]) && Kept(sc, e, t, r)
    ensures table.pkIndex.Pairs()[Entry(ValueHash(table.mix, key), r)] >= 1
  {
    hide Scope.Passes, Table.Stored, Visits, ExactKey;
    KeptIsCandidate(table, sc, e, t, c, key, r);
    var rows := Visits(table.pkIndex.slots[..], ValueHash(table.mix, key));
    assert r in multiset(rows);
    VisitsRefineBag(table.pkIndex.slots[..], ValueHash(table.mix, key), r);
  }

  /** Unique keys leave at most one row to keep. */
  lemma OneRowKept(table: Table, sc: Scope, e: Expr, t: Tuple, c: nat, key: Value, r: nat, q: nat)
    requires sc.Valid() && |t| < |sc.states| && table.Valid() && table.State() == sc.states[|t|] && UniqueKeys(table.State())
    requires table.schema.IsPk(c) && table.pkIndex.Usable() && !key.Null?
    requires Pins(sc, e, t, c, key) && ExactProbe(key, sc.states[|t|]) && Kept(sc, e, t, r) && Kept(sc, e, t, q)
    ensures q == r
  {
    hide Scope.Passes, Table.Stored, Visits, ExactKey;
    var s := table.State();
    KeptIsCandidate(table, sc, e, t, c, key, r);
    KeptIsCandidate(table, sc, e, t, c, key, q);
    CellEqualTransitive(s.Cell(r, c), key, s.Cell(q, c));
    assert KeyOk(s, r) && s.Holds(q, c, s.Cell(r, c));
  }

  /**
   With unique keys the index lists what a scan lists, in order and number, exactly if it holds the pair
   of the row to be kept once; otherwise the row comes up once per copy.
   */
  lemma ProbeOrderExactly(table: Table, sc: Scope, e: Expr, t: Tuple, c: nat, key: Value, n: nat)
    requires sc.Valid() && |t| < |sc.states| && table.Valid() && table.State() == sc.states[|t|] && UniqueKeys(table.State())
    requires table.schema.IsPk(c) && table.pkIndex.Usable() && !key.Null? && n == |sc.states[|t|].rows|
    requires Pins(sc, e, t, c, key) && ExactProbe(key, sc.states[|t|])
    ensures var hash := ValueHash(table.mix, key);
      var found := KeepCandidates(sc, e, t, Visits(table.pkIndex.slots[..], hash));
      && (found == KeepRows(sc, e, t, n) <==> forall r: nat :: Kept(sc, e, t, r) ==> table.pkIndex.Pairs()[Entry(hash, r)] == 1)
      && (forall r: nat :: Kept(sc, e, t, r) ==> found == Copies(t + [r], table.pkIndex.Pairs()[Entry(hash, r)]))
  {
    hide Scope.Passes, Kept, KeepRows, KeepCandidates, Table.Valid, Table.Stored, Visits, Pins, ExactProbe, UniqueKeys;
    var hash := ValueHash(table.mix, key);
    var rows := Visits(table.pkIndex.slots[..], hash);
    var r0: nat := 0;
    if r: nat :| Kept(sc, e, t, r) {
      r0 := r;
      forall q: nat | Kept(sc, e, t, q) ensures q == r {
        OneRowKept(table, sc, e, t, c, key, r, q);
      }
      KeptIsCandidate(table, sc, e, t, c, key, r);
      assert Copies(t + [r], 1) == [t + [r]];
    }
    IndexIsReachable(table);
    VisitsRefineBag(table.pkIndex.slots[..], hash, r0);
    KeepRowsOne(sc, e, t, n, r0);
    KeepCandidatesOne(sc, e, t, rows, r0);
  }

  lemma IndexIsReachable(table: Table)
    requires table.Valid()
    ensures Reachable(table.pkIndex.slots[..])
  {
  }

  /******* The loops *******/

  ghost predicate AllOnRows(sc: Scope, ts: seq<Tuple>, width: nat) {
    forall t :: t in ts ==> |t| == width && sc.OnRows(t)
  }

  lemma OnRowsExtended(sc: Scope, t: Tuple, r: nat, ts: seq<Tuple>)
    requires sc.OnRows(t) && |t| < |sc.states| && r < |sc.states[|t|].rows|
    ensures sc.OnRows(t + [r])
    ensures AllOnRows(sc, ts, |t| + 1) ==> AllOnRows(sc, ts + [t + [r]], |t| + 1)
  {
  }

  lemma AllOnRowsConcat(sc: Scope, a: seq<Tuple>, b: seq<Tuple>, width: nat)
    requires AllOnRows(sc, a, width) && AllOnRows(sc, b, width)
    ensures AllOnRows(sc, a + b, width)
  {
  }

  lemma AllOnRowsNone(sc: Scope, width: nat)
    ensures AllOnRows(sc, [], width)
  {
  }

  /** Cursor scan of the next table. */
  method ScanRows(table: Table, sc: Scope, e: Expr, t: Tuple) returns (found: seq<Tuple>)
    requires sc.Valid() && |t| < |sc.states| && table.Valid() && table.State() == sc.states[|t|]
    requires sc.OnRows(t) && sc.Typed(e, |t| + 1)
    ensures found == KeepRows(sc, e, t, NextRows(sc, t)) && AllOnRows(sc, found, |t| + 1)
  {
    hide Table.Valid, Table.Stored, Scope.Passes, Scope.OnRows, AllOnRows, Scope.Typed;
    AllOnRowsNone(sc, |t| + 1);
    found := [];
    var r := 0;
    while r < |table.dead|
      invariant r <= |table.dead| == NextRows(sc, t) && found == KeepRows(sc, e, t, r)
      invariant AllOnRows(sc, found, |t| + 1)
    {
      if !table.dead[r] {
        OnRowsExtended(sc, t, r, found);
        var passes := Test(sc, e, t + [r]);
        if passes {
          found := found + [t + [r]];
        }
      }
      r := r + 1;
    }
  }

  method Test(sc: Scope, e: Expr, t: Tuple) returns (passes: bool)
    requires sc.Valid() && sc.OnRows(t) && sc.Typed(e, |t|)
    ensures passes <==> sc.Passes(e, t)
  {
    sc.TypedHere(e, |t|, t);
    var v := EvalTri(e, sc.Ctx(t));
    return v.True?;
  }

  /** The rows the index offers for a key, filtered like scanned ones; None when they cannot be collected. */
  method ProbeRows(table: Table, sc: Scope, e: Expr, t: Tuple, key: Value) returns (found: Option<seq<Tuple>>)
    requires sc.Valid() && |t| < |sc.states| && table.Valid() && table.State() == sc.states[|t|]
    requires sc.OnRows(t) && sc.Typed(e, |t| + 1) && !key.Null?
    ensures found.Some? ==> found.value == KeepCandidates(sc, e, t, Visits(table.pkIndex.slots[..], ValueHash(table.mix, key)))
    ensures found.Some? ==> AllOnRows(sc, found.value, |t| + 1)
  {
    hide Table.Valid, Table.Stored, Scope.Passes, Scope.OnRows, AllOnRows, Scope.Typed;
    AllOnRowsNone(sc, |t| + 1);
    var memory: bool := *;
    if !memory {
      return None;
    }
    var rows := table.FindByPkHash(ValueHash(table.mix, key));
    var kept, k := [], 0;
    while k < |rows|
      invariant k <= |rows| && kept == KeepCandidates(sc, e, t, rows[..k]) && AllOnRows(sc, kept, |t| + 1)
    {
      assert rows[..k + 1][..k] == rows[..k];
      var r := rows[k];
      assert r in rows;
      if !table.dead[r] {
        OnRowsExtended(sc, t, r, kept);
        var passes := Test(sc, e, t + [r]);
        if passes {
          kept := kept + [t + [r]];
        }
      }
      k := k + 1;
    }
    assert rows[..k] == rows;
    return Some(kept);
  }

  /******* The join *******/

  /** The expression to probe with at one join step, decided once per step. */
  function JoinKey(sc: Scope, e: Expr, j: nat, usable: bool): (x: Option<Expr>)
    requires sc.Valid() && j < |sc.states|
  {
    var inner := sc.states[j].schema;
    if inner.pk.None? || !usable then None
    else
      var x := FindJoinPkEquality(e, sc.names[j], inner.names[inner.pk.value]);
      if x.None? || Infer(x.value, sc.Ctx(seq(j, _ => 0))) != Some(TypeOfField(inner.types[inner.pk.value])) then None else x
  }

  lemma ColumnOfKey(schema: Schema)
    requires schema.Valid() && DistinctNames(schema.names) && schema.pk.Some?
    ensures schema.FindColumn(schema.names[schema.pk.value]) == schema.pk
  {
    var c := schema.FindColumn(schema.names[schema.pk.value]);
    assert schema.names[schema.pk.value] in schema.names;
  }

  /** The probe expression reads no column of the row being joined. */
  lemma ProbeSeesOuter(sc: Scope, t: Tuple, x: Expr, r: nat)
    requires sc.Valid() && |t| < |sc.states| && sc.OnRows(t) && sc.OnRows(t + [r])
    requires Evaluable(x, sc.Ctx(t)) && Evaluable(x, sc.Ctx(t + [r]))
    ensures EvalValue(x, sc.Ctx(t + [r])) == EvalValue(x, sc.Ctx(t))
  {
    hide EvalTri, EvalValue, SameView;
    var ctx := sc.Ctx(t + [r]);
    assert sc.Ctx(t).sources == ctx.sources[..|t|];
    PrefixSameView(x, sc.Ctx(t), ctx);
    SameViewSameResult(x, sc.Ctx(t), ctx);
  }

  lemma JoinKeyOnRow(sc: Scope, e: Expr, t: Tuple, x: Expr, r: nat)
    requires sc.Valid() && |t| < |sc.states| && sc.OnRows(t) && JoinKey(sc, e, |t|, true) == Some(x)
    requires Infer(x, sc.Ctx(t)) == Infer(x, sc.Ctx(seq(|t|, _ => 0))) && Evaluable(x, sc.Ctx(t)) && Kept(sc, e, t, r)
    ensures var key, c := EvalValue(x, sc.Ctx(t)), sc.states[|t|].schema.pk.value;
      !key.Null? && sc.states[|t|].HasCell(r, c) && ComparesEqual(key, sc.states[|t|].Cell(r, c))
  {
    hide FindJoinPkEquality, CompareValues, EvalTri, EvalValue, Infer, ComparesEqual;
    var inner, ctx := sc.states[|t|].schema, sc.Ctx(t + [r]);
    ColumnOfKey(inner);
    JoinPkEqualitySound(e, ctx, |t|, inner.names[inner.pk.value]);
    ProbeSeesOuter(sc, t, x, r);
  }

  /** The probe expression has the key's type and, on each outer row, the value it has in the condition. */
  lemma JoinKeyPins(sc: Scope, e: Expr, t: Tuple, x: Expr)
    requires sc.Valid() && |t| < |sc.states| && sc.OnRows(t) && JoinKey(sc, e, |t|, true) == Some(x)
    ensures Evaluable(x, sc.Ctx(t)) && sc.states[|t|].schema.pk.Some?
    ensures var key, c := EvalValue(x, sc.Ctx(t)), sc.states[|t|].schema.pk.value;
      if key.Null? then forall r: nat :: !Kept(sc, e, t, r) else Pins(sc, e, t, c, key)
  {
    hide FindJoinPkEquality, CompareValues, EvalTri, Kept;
    InferBySchema(x, sc.Ctx(seq(|t|, _ => 0)), sc.Ctx(t));
    forall r: nat | Kept(sc, e, t, r)
      ensures !EvalValue(x, sc.Ctx(t)).Null? && sc.states[|t|].HasCell(r, sc.states[|t|].schema.pk.value)
        && ComparesEqual(EvalValue(x, sc.Ctx(t)), sc.states[|t|].Cell(r, sc.states[|t|].schema.pk.value)) {
      JoinKeyOnRow(sc, e, t, x, r);
    }
  }

  /** On this outer row the probe key is one on which comparison and hash agree. */
  ghost predicate ExactJoin(sc: Scope, e: Expr, t: Tuple)
    requires sc.Valid() && |t| < |sc.states|
  {
    var x := JoinKey(sc, e, |t|, true);
    x.Some? && Evaluable(x.value, sc.Ctx(t)) && !EvalValue(x.value, sc.Ctx(t)).Null? ==>
      ExactProbe(EvalValue(x.value, sc.Ctx(t)), sc.states[|t|])
  }

  /** a lists tuples of b only; on exact keys all of them, and in the same order if the table is unrepeated. */
  ghost predicate Agrees(a: seq<Tuple>, b: seq<Tuple>, exact: bool, unrepeated: bool) {
    Within(a, b) && (exact ==> SameMembers(a, b)) && (exact && unrepeated ==> a == b)
  }

  ghost predicate Within(a: seq<Tuple>, b: seq<Tuple>) {
    forall t :: t in a ==> t in b
  }

  /** Whatever rows the index offers, what is kept of them a scan keeps too. */
  lemma CandidatesWithinScan(sc: Scope, e: Expr, t: Tuple, rows: seq<nat>, n: nat)
    requires sc.Valid() && |t| < |sc.states| && n == |sc.states[|t|].rows|
    ensures Within(KeepCandidates(sc, e, t, rows), KeepRows(sc, e, t, n))
  {
    hide Scope.Passes, KeepRows, KeepCandidates;
    forall x | x in KeepCandidates(sc, e, t, rows) ensures x in KeepRows(sc, e, t, n) {
      KeepCandidatesMembers(sc, e, t, rows, x);
      KeepRowsMembers(sc, e, t, n, x);
      assert sc.states[|t|].Valid();
    }
  }

  lemma {:induction false} NothingKept(sc: Scope, e: Expr, t: Tuple, n: nat)
    requires |sc.names| == |sc.states| && forall r: nat :: !Kept(sc, e, t, r)
    ensures KeepRows(sc, e, t, n) == []
  {
    if n > 0 {
      NothingKept(sc, e, t, n - 1);
      assert !Kept(sc, e, t, n - 1);
    }
  }

  /** The matches of one outer row. */
  method JoinRow(table: Table, sc: Scope, e: Expr, t: Tuple, key: Option<Expr>) returns (found: Option<seq<Tuple>>)
    requires sc.Valid() && |t| < |sc.states| && table.Valid() && table.State() == sc.states[|t|]
    requires sc.OnRows(t) && sc.Typed(e, |t| + 1) && key == JoinKey(sc, e, |t|, table.pkIndex.Usable())
    ensures found.Some? ==> Agrees(found.value, KeepRows(sc, e, t, NextRows(sc, t)), ExactJoin(sc, e, t), Unrepeated(table))
    ensures found.Some? ==> AllOnRows(sc, found.value, |t| + 1)
  {
    hide Table.Valid, Table.Stored, Scope.Passes, Unrepeated, ExactProbe, Pins, JoinKey, Kept;
    if key.None? {
      var all := ScanRows(table, sc, e, t);
      return Some(all);
    }
    KeyNeedsIndex(table, sc, e, |t|);
    JoinKeyPins(sc, e, t, key.value);
    var v := EvalValue(key.value, sc.Ctx(t));
    if v.Null? {
      NothingKept(sc, e, t, NextRows(sc, t));
      return Some([]);
    }
    found := ProbeRows(table, sc, e, t, v);
    CandidatesWithinScan(sc, e, t, Visits(table.pkIndex.slots[..], ValueHash(table.mix, v)), NextRows(sc, t));
    if ExactJoin(sc, e, t) {
      ProbeKeepsAll(table, sc, e, t, table.schema.pk.value, v, NextRows(sc, t));
    }
    return;
  }

  lemma KeyNeedsIndex(table: Table, sc: Scope, e: Expr, j: nat)
    requires sc.Valid() && j < |sc.states| && table.Stored() && table.State() == sc.states[j]
    requires JoinKey(sc, e, j, table.pkIndex.Usable()).Some?
    ensures table.pkIndex.Usable() && table.schema.pk.Some? && table.schema == sc.states[j].schema
    ensures table.schema.IsPk(table.schema.pk.value)
  {
  }

  ghost predicate ExactJoins(sc: Scope, e: Expr, ts: seq<Tuple>, width: nat)
    requires sc.Valid() && width < |sc.states|
  {
    forall t :: t in ts && |t| == width ==> ExactJoin(sc, e, t)
  }

  lemma AgreesConcat(a: seq<Tuple>, b: seq<Tuple>, c: seq<Tuple>, d: seq<Tuple>, e1: bool, e2: bool, exact: bool, u: bool)
    requires Agrees(a, b, e1, u) && Agrees(c, d, e2, u) && (exact ==> e1 && e2)
    ensures Agrees(a + c, b + d, exact, u)
  {
  }

  lemma {:induction false} JoinStepMembers(sc: Scope, e: Expr, ts: seq<Tuple>, x: Tuple)
    requires |sc.names| == |sc.states|
    ensures x in JoinStep(sc, e, ts) <==>
      exists t, r: nat :: t in ts && r < NextRows(sc, t) && Kept(sc, e, t, r) && x == t + [r]
  {
    hide Kept, KeepRows;
    if ts != [] {
      var rest, last := ts[..|ts| - 1], ts[|ts| - 1];
      JoinStepMembers(sc, e, rest, x);
      KeepRowsMembers(sc, e, last, NextRows(sc, last), x);
      assert ts == rest + [last];
    }
  }

  lemma JoinStepWithin(sc: Scope, e: Expr, a: seq<Tuple>, b: seq<Tuple>)
    requires |sc.names| == |sc.states| && Within(a, b)
    ensures Within(JoinStep(sc, e, a), JoinStep(sc, e, b))
  {
    forall x | x in JoinStep(sc, e, a) ensures x in JoinStep(sc, e, b) {
      JoinStepMembers(sc, e, a, x);
      JoinStepMembers(sc, e, b, x);
    }
  }

  /** Join steps see a list of tuples as a set. */
  lemma JoinStepSameMembers(sc: Scope, e: Expr, a: seq<Tuple>, b: seq<Tuple>)
    requires |sc.names| == |sc.states| && SameMembers(a, b)
    ensures SameMembers(JoinStep(sc, e, a), JoinStep(sc, e, b))
  {
    forall x ensures x in JoinStep(sc, e, a) <==> x in JoinStep(sc, e, b) {
      JoinStepMembers(sc, e, a, x);
      JoinStepMembers(sc, e, b, x);
    }
  }

  /** One more outer row joined. */
  lemma JoinedOneMore(sc: Scope, e: Expr, ts: seq<Tuple>, k: nat, width: nat, built: seq<Tuple>, found: seq<Tuple>, unrepeated: bool)
    requires sc.Valid() && width < |sc.states| && k < |ts| && |ts[k]| == width
    requires AllOnRows(sc, built, width + 1) && AllOnRows(sc, found, width + 1)
    requires Agrees(built, JoinStep(sc, e, ts[..k]), ExactJoins(sc, e, ts[..k], width), unrepeated)
    requires Agrees(found, KeepRows(sc, e, ts[k], NextRows(sc, ts[k])), ExactJoin(sc, e, ts[k]), unrepeated)
    ensures Agrees(built + found, JoinStep(sc, e, ts[..k + 1]), ExactJoins(sc, e, ts[..k + 1], width), unrepeated)
    ensures AllOnRows(sc, built + found, width + 1)
  {
    hide Scope.Passes, ExactJoin, ExactJoins, Agrees, KeepRows, AllOnRows;
    assert ts[..k + 1][..k] == ts[..k];
    ExactJoinsStep(sc, e, ts, k, width);
    AgreesConcat(built, JoinStep(sc, e, ts[..k]), found, KeepRows(sc, e, ts[k], NextRows(sc, ts[k])),
      ExactJoins(sc, e, ts[..k], width), ExactJoin(sc, e, ts[k]), ExactJoins(sc, e, ts[..k + 1], width), unrepeated);
    AllOnRowsConcat(sc, built, found, width + 1);
  }

  /** One join step; the way to find inner rows is chosen once. */
  method Join(table: Table, sc: Scope, e: Expr, tuples: seq<Tuple>, width: nat) returns (next: Option<seq<Tuple>>)
    requires sc.Valid() && width < |sc.states| && table.Valid() && table.State() == sc.states[width]
    requires AllOnRows(sc, tuples, width) && sc.Typed(e, width + 1)
    ensures next.Some? ==> Agrees(next.value, JoinStep(sc, e, tuples), ExactJoins(sc, e, tuples, width), Unrepeated(table))
    ensures next.Some? ==> AllOnRows(sc, next.value, width + 1)
  {
    hide Table.Valid, Table.Stored, Scope.Passes, Unrepeated, ExactJoin, ExactJoins, JoinKey, Agrees, KeepRows, Scope.OnRows, AllOnRows, Scope.Typed;
    AllOnRowsNone(sc, width + 1);
    var key := JoinKey(sc, e, width, table.pkIndex.Usable());
    var built, k := [], 0;
    NothingAgrees(ExactJoins(sc, e, tuples[..0], width), Unrepeated(table));
    while k < |tuples|
      invariant k <= |tuples|
      invariant Agrees(built, JoinStep(sc, e, tuples[..k]), ExactJoins(sc, e, tuples[..k], width), Unrepeated(table))
      invariant AllOnRows(sc, built, width + 1)
    {
      var t := tuples[k];
      TupleOnRows(sc, tuples, width, t);
      var found := JoinRow(table, sc, e, t, key);
      if found.None? {
        return None;
      }
      JoinedOneMore(sc, e, tuples, k, width, built, found.value, Unrepeated(table));
      built := built + found.value;
      k := k + 1;
    }
    assert tuples[..k] == tuples;
    return Some(built);
  }

  lemma ExactJoinsStep(sc: Scope, e: Expr, ts: seq<Tuple>, k: nat, width: nat)
    requires sc.Valid() && width < |sc.states| && k < |ts| && |ts[k]| == width
    ensures ExactJoins(sc, e, ts[..k + 1], width) ==> ExactJoins(sc, e, ts[..k], width) && ExactJoin(sc, e, ts[k])
  {
    assert ts[k] in ts[..k + 1] && ts[..k + 1] == ts[..k] + [ts[k]];
  }

  lemma TupleOnRows(sc: Scope, ts: seq<Tuple>, width: nat, t: Tuple)
    requires AllOnRows(sc, ts, width) && t in ts
    ensures |t| == width && sc.OnRows(t)
  {
  }

  lemma NothingAgrees(exact: bool, unrepeated: bool)
    ensures Agrees([], [], exact, unrepeated)
  {
  }

  /******* The whole query *******/

  const ALWAYS: Expr := LitBool(true)

  lemma {:induction false} KeepMembers(ts: seq<Tuple>, p: Tuple -> bool, x: Tuple)
    ensures x in Keep(ts, p) <==> x in ts && p(x)
  {
    if ts != [] {
      KeepMembers(ts[..|ts| - 1], p, x);
      assert ts == ts[..|ts| - 1] + [ts[|ts| - 1]];
    }
  }

  lemma KeepAgrees(a: seq<Tuple>, b: seq<Tuple>, p: Tuple -> bool, exact: bool, unrepeated: bool)
    requires Agrees(a, b, exact, unrepeated)
    ensures Agrees(Keep(a, p), Keep(b, p), exact, unrepeated)
  {
    forall x ensures x in Keep(a, p) <==> x in a && p(x) {
      KeepMembers(a, p, x);
    }
    forall x ensures x in Keep(b, p) <==> x in b && p(x) {
      KeepMembers(b, p, x);
    }
  }

  method FilterWhere(sc: Scope, where: Option<Expr>, tuples: seq<Tuple>) returns (matched: seq<Tuple>)
    requires sc.Valid() && AllOnRows(sc, tuples, |sc.states|) && (where.Some? ==> sc.Typed(where.value, |sc.states|))
    ensures matched == Keep(tuples, t => PassesWhere(sc, where, t))
  {
    hide Scope.Passes, Scope.OnRows, AllOnRows, Scope.Typed;
    ghost var p := (t: Tuple) => PassesWhere(sc, where, t);
    matched := [];
    var k := 0;
    while k < |tuples|
      invariant k <= |tuples| && matched == Keep(tuples[..k], p)
    {
      assert tuples[..k + 1][..k] == tuples[..k];
      TupleOnRows(sc, tuples, |sc.states|, tuples[k]);
      var passes := true;
      if where.Some? {
        passes := Test(sc, where.value, tuples[k]);
      }
      if passes {
        matched := matched + [tuples[k]];
      }
      k := k + 1;
    }
    assert tuples[..k] == tuples;
  }

  /** The constant a point lookup may probe with. */
  function LookupKey(sc: Scope, where: Option<Expr>): (v: Option<Value>)
    requires sc.Valid() && |sc.states| == 1 && (where.Some? ==> sc.Typed(where.value, 1))
    ensures v.Some? ==> where.Some? && sc.states[0].schema.pk.Some? && !v.value.Null?
  {
    var schema := sc.states[0].schema;
    if where.None? || schema.pk.None? then None
    else FindPkEquality(where.value, sc.Ctx(seq(1, _ => 0)), sc.names[0], schema.names[schema.pk.value], schema.types[schema.pk.value])
  }

  lemma LookupPins(sc: Scope, where: Expr)
    requires sc.Valid() && |sc.states| == 1 && sc.Typed(where, 1) && LookupKey(sc, Some(where)).Some?
    ensures Pins(sc, where, [], sc.states[0].schema.pk.value, LookupKey(sc, Some(where)).value)
  {
    var schema := sc.states[0].schema;
    var c := schema.pk.value;
    ColumnOfKey(schema);
    forall r: nat | Kept(sc, where, [], r)
      ensures sc.states[0].HasCell(r, c) && ComparesEqual(LookupKey(sc, Some(where)).value, sc.states[0].Cell(r, c)) {
      assert [] + [r] == [r];
      PkEqualitySound(where, sc.Ctx(seq(1, _ => 0)), sc.Ctx([r]), sc.names[0], schema.names[c], schema.types[c]);
    }
  }

  lemma AlwaysPasses(sc: Scope, r: nat)
    requires sc.Valid() && |sc.states| == 1 && r < |sc.states[0].rows|
    ensures sc.OnRows([r]) && sc.Passes(ALWAYS, [r])
  {
  }

  /** Taking live candidates first and testing WHERE later keeps the same rows. */
  lemma {:induction false} CandidatesThenWhere(sc: Scope, where: Expr, rows: seq<nat>)
    requires sc.Valid() && |sc.states| == 1 && forall k :: 0 <= k < |rows| ==> rows[k] < |sc.states[0].rows|
    ensures Keep(KeepCandidates(sc, ALWAYS, [], rows), t => PassesWhere(sc, Some(where), t)) == KeepCandidates(sc, where, [], rows)
  {
    hide Scope.OnRows;
    if rows != [] {
      var r := rows[|rows| - 1];
      AlwaysPasses(sc, r);
      CandidatesThenWhere(sc, where, rows[..|rows| - 1]);
      assert [] + [r] == [r];
    }
  }

  lemma PassesIsAlways(sc: Scope, e: Expr, t: Tuple)
    requires |sc.names| == |sc.states|
    ensures sc.Passes(e, t) ==> sc.Passes(ALWAYS, t)
  {
  }

  lemma {:induction false} ScanThenWhere(sc: Scope, where: Expr, n: nat)
    requires sc.Valid() && |sc.states| == 1 && n <= |sc.states[0].rows|
    ensures Keep(KeepRows(sc, ALWAYS, [], n), t => PassesWhere(sc, Some(where), t)) == KeepRows(sc, where, [], n)
  {
    hide Scope.Passes;
    if n > 0 {
      ScanThenWhere(sc, where, n - 1);
      PassesIsAlways(sc, where, [n - 1]);
      assert [] + [n - 1] == [n - 1];
    }
  }

  ghost predicate ExactLookup(sc: Scope, where: Option<Expr>)
    requires sc.Valid() && |sc.states| == 1 && (where.Some? ==> sc.Typed(where.value, 1))
  {
    LookupKey(sc, where).Some? ==> ExactProbe(LookupKey(sc, where).value, sc.states[0])
  }

  /** Every key the query probes with is one on which comparison and hash agree. */
  ghost predicate ExactQuery(sc: Scope, ons: seq<Expr>, where: Option<Expr>)
    requires Checked(sc, ons, where)
  {
    && (ons == [] ==> ExactLookup(sc, where))
    && forall j :: 0 <= j < |ons| ==> ExactJoins(sc, ons[j], Nested(sc, ons[..j]), j + 1)
  }

  /** No live key is a number: comparison, equality and hash agree on all others. */
  ghost predicate NoNumberKeys(sc: Scope) {
    forall s :: 0 <= s < |sc.states| && sc.states[s].schema.pk.Some? ==>
      var k := sc.states[s].schema.pk.value;
      k < |sc.states[s].schema.types| && sc.states[s].schema.types[k] in {FtBool, FtText}
  }

  lemma OtherKeysAreExact(key: Value, t: TableState)
    requires t.Valid() && (key.Bool? || key.Text?)
    requires t.schema.pk.Some? ==> t.schema.types[t.schema.pk.value] in {FtBool, FtText}
    ensures ExactProbe(key, t)
  {
  }

  /** Then every query is exact, whatever it asks. */
  lemma ExactWithoutNumberKeys(sc: Scope, ons: seq<Expr>, where: Option<Expr>)
    requires Checked(sc, ons, where) && NoNumberKeys(sc)
    ensures ExactQuery(sc, ons, where)
  {
    hide ExactProbe, Infer, EvalValue, FindPkEquality, FindJoinPkEquality, Scope.Typed;
    if ons == [] && LookupKey(sc, where).Some? {
      OtherKeysAreExact(LookupKey(sc, where).value, sc.states[0]);
    }
    forall j, t | 0 <= j < |ons| && t in Nested(sc, ons[..j]) && |t| == j + 1 ensures ExactJoin(sc, ons[j], t) {
      ExactJoinWithoutNumberKeys(sc, ons[j], t);
    }
  }

  lemma ExactJoinWithoutNumberKeys(sc: Scope, e: Expr, t: Tuple)
    requires sc.Valid() && NoNumberKeys(sc) && |t| < |sc.states|
    ensures ExactJoin(sc, e, t)
  {
    hide ExactProbe, EvalValue, FindJoinPkEquality;
    var x := JoinKey(sc, e, |t|, true);
    if x.Some? && Evaluable(x.value, sc.Ctx(t)) && !EvalValue(x.value, sc.Ctx(t)).Null? {
      InferBySchema(x.value, sc.Ctx(seq(|t|, _ => 0)), sc.Ctx(t));
      OtherKeysAreExact(EvalValue(x.value, sc.Ctx(t)), sc.states[|t|]);
    }
  }

  /** The candidates of the first table for a query on it alone. */
  method LookupRows(table: Table, sc: Scope, where: Option<Expr>) returns (rows: Option<seq<Tuple>>)
    requires sc.Valid() && |sc.states| == 1 && table.Valid() && table.State() == sc.states[0]
    requires where.Some? ==> sc.Typed(where.value, 1)
    ensures rows.Some? ==> AllOnRows(sc, rows.value, 1)
    ensures rows.Some? ==>
      var p := (t: Tuple) => PassesWhere(sc, where, t);
      Agrees(Keep(rows.value, p), Keep(Nested(sc, []), p), ExactLookup(sc, where), Unrepeated(table))
  {
    hide Table.Valid, Table.Stored, Scope.Passes, Scope.OnRows, AllOnRows, Unrepeated, ExactProbe, Pins, KeepRows, KeepCandidates, FindPkEquality;
    NoRowsYet(sc);
    var key := if table.pkIndex.Usable() then LookupKey(sc, where) else None;
    if key.None? {
      var all := ScanRows(table, sc, ALWAYS, []);
      return Some(all);
    }
    rows := ProbeRows(table, sc, ALWAYS, [], key.value);
    if rows.Some? {
      LookupAgrees(table, sc, where.value, key.value);
    }
    return;
  }

  lemma NoRowsYet(sc: Scope)
    ensures sc.OnRows([])
  {
  }

  lemma LookupAgrees(table: Table, sc: Scope, where: Expr, key: Value)
    requires sc.Valid() && |sc.states| == 1 && table.Valid() && table.State() == sc.states[0] && sc.Typed(where, 1)
    requires table.pkIndex.Usable() && LookupKey(sc, Some(where)) == Some(key)
    ensures var rows := Visits(table.pkIndex.slots[..], ValueHash(table.mix, key));
      var p := (t: Tuple) => PassesWhere(sc, Some(where), t);
      Agrees(Keep(KeepCandidates(sc, ALWAYS, [], rows), p), Keep(Nested(sc, []), p), ExactProbe(key, sc.states[0]), Unrepeated(table))
  {
    var hash := ValueHash(table.mix, key);
    var rows := Visits(table.pkIndex.slots[..], hash);
    forall k | 0 <= k < |rows| ensures rows[k] < |sc.states[0].rows| {
      assert rows[k] in multiset(rows);
      VisitsRefineBag(table.pkIndex.slots[..], hash, rows[k]);
    }
    hide Unrepeated, ExactProbe, Pins, KeepRows, KeepCandidates, FindPkEquality, Scope.Passes;
    LookupPins(sc, where);
    CandidatesThenWhere(sc, where, rows);
    ScanThenWhere(sc, where, NextRows(sc, []));
    CandidatesWithinScan(sc, where, [], rows, NextRows(sc, []));
    if ExactProbe(key, sc.states[0]) {
      ProbeKeepsAll(table, sc, where, [], table.schema.pk.value, key, NextRows(sc, []));
    }
  }

  /** The keys probed with in the first k join steps are exact. */
  ghost predicate ExactSteps(sc: Scope, ons: seq<Expr>, k: nat)
    requires sc.Valid() && |ons| < |sc.states| && k <= |ons|
  {
    forall j :: 0 <= j < k ==> ExactJoins(sc, ons[j], Nested(sc, ons[..j]), j + 1)
  }

  lemma ExactJoinsSameMembers(sc: Scope, e: Expr, a: seq<Tuple>, b: seq<Tuple>, width: nat)
    requires sc.Valid() && width < |sc.states| && SameMembers(a, b) && ExactJoins(sc, e, b, width)
    ensures ExactJoins(sc, e, a, width)
  {
    hide ExactJoin;
  }

  lemma JoinAdvances(sc: Scope, ons: seq<Expr>, k: nat, cur: seq<Tuple>, next: seq<Tuple>, here: bool, all: bool)
    requires sc.Valid() && |ons| < |sc.states| && k < |ons| && (all ==> here)
    requires Agrees(cur, Nested(sc, ons[..k]), ExactSteps(sc, ons, k), all)
    requires Agrees(next, JoinStep(sc, ons[k], cur), ExactJoins(sc, ons[k], cur, k + 1), here)
    ensures Agrees(next, Nested(sc, ons[..k + 1]), ExactSteps(sc, ons, k + 1), all)
  {
    hide ExactJoins, JoinStep;
    assert ons[..k + 1][..k] == ons[..k];
    assert Nested(sc, ons[..k + 1]) == JoinStep(sc, ons[k], Nested(sc, ons[..k]));
    JoinStepWithin(sc, ons[k], cur, Nested(sc, ons[..k]));
    if ExactSteps(sc, ons, k + 1) {
      assert ExactJoins(sc, ons[k], Nested(sc, ons[..k]), k + 1);
      ExactJoinsSameMembers(sc, ons[k], cur, Nested(sc, ons[..k]), k + 1);
      JoinStepSameMembers(sc, ons[k], cur, Nested(sc, ons[..k]));
    }
  }

  /** The table objects of the query, in order. */
  ghost predicate Serve(tables: seq<Table>, sc: Scope)
    reads tables, set t | t in tables :: t.pkIndex, set t | t in tables :: t.pkIndex.slots
  {
    |tables| == |sc.states| && forall i :: 0 <= i < |tables| ==> tables[i].Valid() && tables[i].State() == sc.states[i]
  }

  ghost predicate AllUnrepeated(tables: seq<Table>)
    reads tables, set t | t in tables :: t.pkIndex, set t | t in tables :: t.pkIndex.slots
  {
    forall i :: 0 <= i < |tables| ==> tables[i].Stored() && Unrepeated(tables[i])
  }

  lemma AlwaysTyped(sc: Scope)
    requires sc.Valid() && |sc.states| > 0
    ensures sc.Typed(ALWAYS, 1)
  {
  }

  lemma ServesAt(tables: seq<Table>, sc: Scope, i: nat)
    requires Serve(tables, sc) && i < |tables|
    ensures tables[i].Valid() && tables[i].State() == sc.states[i]
    ensures AllUnrepeated(tables) ==> Unrepeated(tables[i])
  {
  }

  /** All join steps, in the order of the ON clauses. */
  method JoinTables(tables: seq<Table>, sc: Scope, ons: seq<Expr>) returns (rows: Option<seq<Tuple>>)
    requires sc.Valid() && |sc.states| == |ons| + 1 && Serve(tables, sc)
    requires forall j :: 0 <= j < |ons| ==> sc.Typed(ons[j], j + 2)
    ensures rows.Some? ==> AllOnRows(sc, rows.value, |ons| + 1)
    ensures rows.Some? ==> Agrees(rows.value, Nested(sc, ons), ExactSteps(sc, ons, |ons|), AllUnrepeated(tables))
  {
    hide Table.Valid, Table.Stored, Scope.Passes, Scope.OnRows, AllOnRows, Unrepeated, KeepRows, ExactJoins, JoinStep, Agrees,
         AllUnrepeated, ExactSteps, Nested, Scope.Typed;
    NoRowsYet(sc);
    AlwaysTyped(sc);
    ServesAt(tables, sc, 0);
    var cur := ScanRows(tables[0], sc, ALWAYS, []);
    var k := 0;
    FirstRowsAgree(sc, ons, AllUnrepeated(tables));
    while k < |ons|
      invariant k <= |ons| && AllOnRows(sc, cur, k + 1)
      invariant Agrees(cur, Nested(sc, ons[..k]), ExactSteps(sc, ons, k), AllUnrepeated(tables))
    {
      ServesAt(tables, sc, k + 1);
      var next := Join(tables[k + 1], sc, ons[k], cur, k + 1);
      if next.None? {
        return None;
      }
      JoinAdvances(sc, ons, k, cur, next.value, Unrepeated(tables[k + 1]), AllUnrepeated(tables));
      cur, k := next.value, k + 1;
    }
    assert ons[..k] == ons;
    return Some(cur);
  }

  lemma FirstRowsAgree(sc: Scope, ons: seq<Expr>, unrepeated: bool)
    requires sc.Valid() && |ons| < |sc.states|
    ensures Agrees(KeepRows(sc, ALWAYS, [], NextRows(sc, [])), Nested(sc, ons[..0]), ExactSteps(sc, ons, 0), unrepeated)
  {
  }

  /**
   The query by whichever plan the engine picks. It lists tuples of Answer only; on exact keys it finds all
   of them, and with unrepeated keys and index pairs it lists them in the same order.
   */
  method Select(tables: seq<Table>, sc: Scope, ons: seq<Expr>, where: Option<Expr>) returns (matched: Option<seq<Tuple>>)
    requires Checked(sc, ons, where) && Serve(tables, sc)
    ensures matched.Some? ==> Within(matched.value, Answer(sc, Conditions(ons, where)))
    ensures matched.Some? && ExactQuery(sc, ons, where) ==> SameMembers(matched.value, Answer(sc, Conditions(ons, where)))
    ensures matched.Some? && ExactQuery(sc, ons, where) && AllUnrepeated(tables) ==> matched.value == Answer(sc, Conditions(ons, where))
  {
    hide Table.Valid, Table.Stored, Scope.Passes, Scope.OnRows, AllOnRows, Unrepeated, ExactJoins, ExactLookup, Nested, Scope.Typed, Answer, Keep;
    ghost var p := (t: Tuple) => PassesWhere(sc, where, t);
    var rows: Option<seq<Tuple>>;
    if ons == [] {
      rows := LookupRows(tables[0], sc, where);
    } else {
      rows := JoinTables(tables, sc, ons);
      if rows.Some? {
        KeepAgrees(rows.value, Nested(sc, ons), p, ExactSteps(sc, ons, |ons|), AllUnrepeated(tables));
      }
    }
    if rows.None? {
      return None;
    }
    var kept := FilterWhere(sc, where, rows.value);
    NestedLoopAnswers(sc, ons, where);
    return Some(kept);
  }

  /******* A pair stored twice *******/

  const Keyed: Schema := Schema(["id"], [FtInt], Some(0), [None])

  /** The table t with one row, of this key. */
  function One(v: int64): TableState {
    TableState(Keyed, [[Int(v)]], [false])
  }

  /** WHERE t.id = k. */
  function IdIs(k: int64): Expr {
    Binary(Eq, Column(Some("t"), "id"), LitInt(k))
  }

  function OneScope(v: int64, env: Env): Scope {
    Scope(["t"], [One(v)], env)
  }

  lemma OneTyped(v: int64, k: int64, env: Env, t: Tuple)
    requires |t| == 1
    ensures var ctx := OneScope(v, env).Ctx(t);
      && ctx.Valid() && ResolveColumn(ctx, Some("t"), "id") == Some(ColumnRef(0, 0)) && Infer(IdIs(k), ctx) == Some(TBool)
  {
    var ctx := OneScope(v, env).Ctx(t);
    assert ctx.sources[0].alias == "t" && Keyed.FindColumn("id") == Some(0);
    assert ResolveQualified(ctx, "t", "id", 0) == Some(ColumnRef(0, 0));
    assert Infer(Column(Some("t"), "id"), ctx) == Some(TInt) && Infer(LitInt(k), ctx) == Some(TInt);
  }

  lemma OnePasses(v: int64, k: int64, env: Env)
    requires CompareValues(Int(v), Int(k)) == 0
    ensures OneScope(v, env).Valid() && OneScope(v, env).Typed(IdIs(k), 1) && OneScope(v, env).Passes(IdIs(k), [0])
  {
    hide ResolveColumn, CompareValues;
    var sc := OneScope(v, env);
    var ctx := sc.Ctx([0]);
    OneTyped(v, k, env, [0]);
    OneTyped(v, k, env, seq(1, _ => 0));
    assert EvalValue(Column(Some("t"), "id"), ctx) == Int(v) && EvalValue(LitInt(k), ctx) == Int(k);
  }

  lemma OneKey(v: int64, k: int64, env: Env)
    requires OneScope(v, env).Valid() && OneScope(v, env).Typed(IdIs(k), 1)
    ensures LookupKey(OneScope(v, env), Some(IdIs(k))) == Some(Int(k))
  {
    hide Infer, ResolveColumn;
    var ctx := OneScope(v, env).Ctx(seq(1, _ => 0));
    OneTyped(v, k, env, seq(1, _ => 0));
    LiteralValue(k, ctx);
  }

  lemma LiteralValue(k: int64, ctx: RowCtx)
    requires ctx.Valid()
    ensures Evaluable(LitInt(k), ctx) && EvalValue(LitInt(k), ctx) == Int(k)
  {
  }

  lemma OneIsKept(v: int64, k: int64, env: Env)
    requires CompareValues(Int(v), Int(k)) == 0
    ensures var sc := OneScope(v, env);
      && sc.Valid() && sc.Typed(IdIs(k), 1) && LookupKey(sc, Some(IdIs(k))) == Some(Int(k))
      && Kept(sc, IdIs(k), [], 0) && KeepRows(sc, IdIs(k), [], 1) == [[0]]
  {
    hide Scope.Passes, Scope.Typed, LookupKey, EvalTri, EvalValue, Infer, CompareValues;
    var sc := OneScope(v, env);
    OnePasses(v, k, env);
    OneKey(v, k, env);
    assert [] + [0] == [0];
    assert KeepRows(sc, IdIs(k), [], 0) == [];
  }

  /** The one row is the answer to a query for its key, or for one that compares equal. */
  lemma OneIsAnswer(v: int64, k: int64, env: Env)
    requires CompareValues(Int(v), Int(k)) == 0
    ensures Answer(OneScope(v, env), [IdIs(k)]) == [[0]]
  {
    hide Scope.Passes, Scope.Typed, LookupKey, Answer, Keep, KeepRows, UniqueKeys, ExactProbe, CompareValues;
    var sc := OneScope(v, env);
    OneIsKept(v, k, env);
    NestedLoopAnswers(sc, [], Some(IdIs(k)));
    ScanThenWhere(sc, IdIs(k), 1);
    assert Nested(sc, []) == KeepRows(sc, ALWAYS, [], 1);
    assert Conditions([], Some(IdIs(k))) == [IdIs(k)];
  }

  lemma CompareWithItself(v: int64)
    ensures CompareValues(Int(v), Int(v)) == 0
  {
    RankOfInt(v);
  }

  /** INSERT INTO t VALUES (v), and if twice UPDATE t SET id = v WHERE id = v: the cell does not change, its pair is stored again. */
  method WriteOne(mix: Mixer, v: int64, twice: bool) returns (table: Table, ok: bool)
    ensures table.Valid() && table.mix == mix
    ensures ok ==> table.State() == One(v) && table.pkIndex.Usable()
    ensures ok ==> forall hash, r ::
      table.pkIndex.Pairs()[Entry(hash, r)] == if hash == ValueHash(mix, Int(v)) && r == 0 then (if twice then 2 else 1) else 0
  {
    hide Table.Valid, Table.Stored;
    table := new Table(Keyed, mix);
    var row := table.AppendRow();
    if row.None? {
      return table, false;
    }
    table.SetInt(0, 0, v);
    ok := table.pkIndex.Usable();
    if twice {
      table.SetInt(0, 0, v);
    }
    OneStored(table.State(), v);
    return table, ok && table.pkIndex.Usable();
  }

  lemma OneStored(t: TableState, v: int64)
    requires var once := TableState(Keyed, [], []).AppendNull().PutCell(0, 0, Int(v)); t == once || t == once.PutCell(0, 0, Int(v))
    ensures t == One(v)
  {
    assert t.rows[0] == [Int(v)];
  }

  /** A lookup of k: index candidates, then WHERE. */
  method LookupOne(table: Table, v: int64, k: int64, env: Env) returns (rows: Option<seq<Tuple>>)
    requires table.Valid() && table.State() == One(v) && table.pkIndex.Usable() && CompareValues(Int(v), Int(k)) == 0
    ensures rows.Some? ==>
      var sc, visited := OneScope(v, env), Visits(table.pkIndex.slots[..], ValueHash(table.mix, Int(k)));
      rows.value == Keep(KeepCandidates(sc, ALWAYS, [], visited), t => PassesWhere(sc, Some(IdIs(k)), t))
  {
    hide Table.Valid, Table.Stored, KeepRows, KeepCandidates, Visits, Scope.Passes, Kept, LookupKey, Scope.Typed, Keep, CompareValues;
    var sc := OneScope(v, env);
    OneIsKept(v, k, env);
    AlwaysTyped(sc);
    var found := ProbeRows(table, sc, ALWAYS, [], Int(k));
    if found.None? {
      return None;
    }
    var kept := FilterWhere(sc, Some(IdIs(k)), found.value);
    return Some(kept);
  }

  /** SELECT ... WHERE t.id = 5 lists the one row twice. */
  method SameKeyWrittenTwice(mix: Mixer, env: Env) returns (table: Table, rows: Option<seq<Tuple>>)
    ensures rows.Some? ==> table.Valid() && table.State() == One(5) && rows == Some([[0], [0]])
    ensures Answer(OneScope(5, env), [IdIs(5)]) == [[0]]
  {
    hide Table.Valid, Table.Stored, KeepRows, KeepCandidates, Visits, Answer, Keep, CompareValues;
    CompareWithItself(5);
    OneIsAnswer(5, 5, env);
    var ok: bool;
    table, ok := WriteOne(mix, 5, true);
    if !ok {
      return table, None;
    }
    rows := LookupOne(table, 5, 5, env);
    if rows.Some? {
      ProbedTwice(table, env, rows.value);
    }
  }

  lemma ProbedTwice(table: Table, env: Env, kept: seq<Tuple>)
    requires table.Valid() && table.State() == One(5) && table.pkIndex.Usable()
    requires table.pkIndex.Pairs()[Entry(ValueHash(table.mix, Int(5)), 0)] == 2
    requires var sc := OneScope(5, env);
      kept == Keep(KeepCandidates(sc, ALWAYS, [], Visits(table.pkIndex.slots[..], ValueHash(table.mix, Int(5)))), t => PassesWhere(sc, Some(IdIs(5)), t))
    ensures kept == [[0], [0]]
  {
    hide Table.Stored, KeepRows, KeepCandidates, Visits, Scope.Passes, Kept, ExactProbe, LookupKey, Scope.Typed, Pins, CompareValues;
    var sc := OneScope(5, env);
    var hash := ValueHash(table.mix, Int(5));
    var rows := Visits(table.pkIndex.slots[..], hash);
    CompareWithItself(5);
    OneIsKept(5, 5, env);
    FiveIsExact();
    LookupPins(sc, IdIs(5));
    forall k | 0 <= k < |rows| ensures rows[k] < 1 {
      assert rows[k] in multiset(rows);
      VisitsRefineBag(table.pkIndex.slots[..], hash, rows[k]);
    }
    CandidatesThenWhere(sc, IdIs(5), rows);
    ProbeOrderExactly(table, sc, IdIs(5), [], 0, Int(5), 1);
    var copies := Copies([0], 2);
    assert [] + [0] == [0] && |copies| == 2 && copies[0] == [0] && copies[1] == [0];
  }

  lemma FiveIsExact()
    ensures UniqueKeys(One(5)) && ExactProbe(Int(5), One(5))
  {
  }

  /**
   SELECT ... WHERE t.id = key misses a row whose other key compares equal, where a scan lists it: the
   two hash differently. Such a row exists for exactly the keys that are not exact (ExactKeysExactly).
   */
  method InexactKeyIsMissed(mix: Mixer, env: Env, key: int64, other: int64) returns (table: Table, rows: Option<seq<Tuple>>)
    requires CompareValues(Int(other), Int(key)) == 0 && ValueHash(mix, Int(other)) != ValueHash(mix, Int(key))
    ensures rows.Some? ==> table.Valid() && table.State() == One(other) && rows == Some([])
    ensures Answer(OneScope(other, env), [IdIs(key)]) == [[0]]
  {
    hide Table.Valid, Table.Stored, KeepRows, KeepCandidates, Visits, Answer, Keep, CompareValues;
    OneIsAnswer(other, key, env);
    var ok: bool;
    table, ok := WriteOne(mix, other, false);
    if !ok {
      return table, None;
    }
    rows := LookupOne(table, other, key, env);
    if rows.Some? {
      NothingVisited(table, ValueHash(mix, Int(key)));
      NoneKept(OneScope(other, env), t => PassesWhere(OneScope(other, env), Some(IdIs(key)), t));
    }
  }

  lemma NothingVisited(table: Table, hash: nat)
    requires table.Valid() && table.pkIndex.Usable() && forall r :: table.pkIndex.Pairs()[Entry(hash, r)] == 0
    ensures Visits(table.pkIndex.slots[..], hash) == []
  {
    hide Table.Stored, Visits;
    var rows := Visits(table.pkIndex.slots[..], hash);
    if rows != [] {
      assert rows[0] in multiset(rows);
      VisitsRefineBag(table.pkIndex.slots[..], hash, rows[0]);
    }
  }

  lemma NoneKept(sc: Scope, p: Tuple -> bool)
    requires |sc.names| == |sc.states|
    ensures Keep(KeepCandidates(sc, ALWAYS, [], []), p) == []
  {
  }
}
