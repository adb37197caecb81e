/**
 What the answer of a query is, tuple by tuple: which combinations of rows it has, each once, and in
 which order.
 */
module Answers {
  import opened Values
  import opened TableStates
  import opened Expressions
  import opened Statements
  import opened Selects

  /** The condition is true of the rows, each in scope under the name its table has in the query. */
  ghost predicate TrueOf(sc: Scope, e: Expr, t: Tuple)
    requires sc.Valid() && |t| == |sc.states|
  {
    var sources := seq(|t|, s requires 0 <= s < |t| => RowSource(sc.names[s], sc.states[s], t[s]));
    var ctx := RowCtx(sources, sc.env.params, sc.env.fpu);
    Evaluable(e, ctx) && EvalValue(e, ctx) == Bool(true)
  }

  /** One row of every table, none of them tombstoned. */
  predicate AllLive(sc: Scope, t: Tuple) {
    |t| == |sc.states| && forall s :: 0 <= s < |t| ==> t[s] < |sc.states[s].rows| && t[s] < |sc.states[s].dead| && !sc.states[s].dead[t[s]]
  }

  lemma PassesIsTrue(sc: Scope, e: Expr, t: Tuple)
    requires sc.Valid() && sc.Typed(e, |sc.states|) && AllLive(sc, t)
    ensures sc.Passes(e, t) <==> TrueOf(sc, e, t)
  {
    hide EvalTri, EvalValue, Infer;
    sc.TypedHere(e, |t|, t);
    EvaluatorsAgree(e, sc.Ctx(t));
    assert sc.Ctx(t).sources == seq(|t|, s requires 0 <= s < |t| => RowSource(sc.names[s], sc.states[s], t[s]));
  }

  /** A combination of rows is in the answer exactly if all are live and every ON and the WHERE clause is true of it. */
  lemma AnswerMembers(sc: Scope, ons: seq<Expr>, where: Option<Expr>, t: Tuple)
    requires Checked(sc, ons, where)
    ensures t in Answer(sc, Conditions(ons, where)) <==>
      && AllLive(sc, t)
      && (forall j :: 0 <= j < |ons| ==> TrueOf(sc, ons[j], t))
      && (where.Some? ==> TrueOf(sc, where.value, t))
  {
    hide TrueOf, Scope.Passes, Scope.Typed, Cross, Keep;
    var all := Conditions(ons, where);
    CrossMembers(sc, |sc.states|, t);
    KeepMembers(Cross(sc, |sc.states|), t => forall j :: 0 <= j < |all| ==> sc.Passes(all[j], t), t);
    if AllLive(sc, t) {
      forall j | 0 <= j < |ons| ensures sc.Passes(all[j], t) <==> TrueOf(sc, ons[j], t) {
        PassesIsTrue(sc, ons[j], t);
      }
      if where.Some? {
        PassesIsTrue(sc, where.value, t);
        assert all[|ons|] == where.value;
      }
    }
  }

  /******* Order *******/

  /** Row numbers agree up to table k, and there a has the lower one. */
  predicate LowerAt(a: Tuple, b: Tuple, k: nat) {
    k < |a| && k < |b| && a[..k] == b[..k] && a[k] < b[k]
  }

  ghost predicate Precedes(a: Tuple, b: Tuple) {
    exists k: nat :: LowerAt(a, b, k)
  }

  ghost predicate InOrder(ts: seq<Tuple>) {
    forall i, j :: 0 <= i < j < |ts| ==> Precedes(ts[i], ts[j])
  }

  lemma {:induction false} KeepInOrder(ts: seq<Tuple>, p: Tuple -> bool)
    requires InOrder(ts)
    ensures InOrder(Keep(ts, p)) && forall t :: t in Keep(ts, p) ==> t in ts
  {
    hide Precedes;
    if ts != [] {
      var rest, last := ts[..|ts| - 1], ts[|ts| - 1];
      assert forall i, j :: 0 <= i < j < |rest| ==> rest[i] == ts[i] && rest[j] == ts[j];
      KeepInOrder(rest, p);
      var kept := Keep(rest, p);
      forall i | 0 <= i < |kept| ensures Precedes(kept[i], last) {
        assert kept[i] in rest;
        var k :| 0 <= k < |rest| && rest[k] == kept[i];
        assert ts[k] == rest[k];
      }
    }
  }

  lemma {:induction false} ExtendInOrder(sc: Scope, t: Tuple, n: nat)
    ensures InOrder(Extend(sc, t, n))
  {
    if n > 0 && |t| < |sc.states| {
      ExtendInOrder(sc, t, n - 1);
      var before := Extend(sc, t, n - 1);
      forall i | 0 <= i < |before| ensures Precedes(before[i], t + [n - 1]) {
        ExtendMembers(sc, t, n - 1, before[i]);
        var r :| 0 <= r < n - 1 && before[i] == t + [r];
        assert (t + [r])[..|t|] == t == (t + [n - 1])[..|t|];
        assert LowerAt(before[i], t + [n - 1], |t|);
      }
    }
  }

  lemma PrecedesExtended(a: Tuple, b: Tuple, r: nat, q: nat)
    requires Precedes(a, b)
    ensures Precedes(a + [r], b + [q])
  {
    var k: nat :| LowerAt(a, b, k);
    assert (a + [r])[..k] == a[..k] && (b + [q])[..k] == b[..k];
    assert LowerAt(a + [r], b + [q], k);
  }

  lemma {:induction false} ExtendAllInOrder(sc: Scope, ts: seq<Tuple>)
    requires sc.Valid() && InOrder(ts)
    ensures InOrder(ExtendAll(sc, ts))
  {
    hide Precedes, Extend;
    if ts != [] {
      var rest, last := ts[..|ts| - 1], ts[|ts| - 1];
      assert forall i, j :: 0 <= i < j < |rest| ==> rest[i] == ts[i] && rest[j] == ts[j];
      ExtendAllInOrder(sc, rest);
      var before, ext := ExtendAll(sc, rest), Extend(sc, last, NextRows(sc, last));
      ExtendInOrder(sc, last, NextRows(sc, last));
      forall i, j | 0 <= i < |before| && 0 <= j < |ext| ensures Precedes(before[i], ext[j]) {
        ExtendAllMembers(sc, rest, before[i]);
        ExtendMembers(sc, last, NextRows(sc, last), ext[j]);
        var x := before[i];
        var k :| 0 <= k < |rest| && rest[k] == x[..|x| - 1];
        var q :| 0 <= q < NextRows(sc, last) && ext[j] == last + [q];
        assert ts[k] == rest[k];
        assert x == x[..|x| - 1] + [x[|x| - 1]];
        PrecedesExtended(x[..|x| - 1], last, x[|x| - 1], q);
      }
    }
  }

  lemma {:induction false} CrossInOrder(sc: Scope, k: nat)
    requires sc.Valid()
    ensures InOrder(Cross(sc, k))
  {
    if k > 0 {
      CrossInOrder(sc, k - 1);
      ExtendAllInOrder(sc, Cross(sc, k - 1));
    }
  }

  /** The answer lists its tuples by row number, the first table slowest, so no tuple twice. */
  lemma AnswerInOrder(sc: Scope, conditions: seq<Expr>)
    requires sc.Valid()
    ensures InOrder(Answer(sc, conditions))
  {
    hide Precedes, Cross, Keep;
    CrossInOrder(sc, |sc.states|);
    KeepInOrder(Cross(sc, |sc.states|), t => forall j :: 0 <= j < |conditions| ==> sc.Passes(conditions[j], t));
  }
}
