/**
 The expression grammar as rules: which token sequences denote which expression at which level.
 Whatever the parser reads it reads by the rules, so it takes nothing else.
 */
module Grammars {
  import opened Values
  import opened Expressions
  import opened Parsers
  import opened Precedence

  /** A column, a literal or a parameter. */
  predicate Leaf(ts: seq<Token>, e: Expr) {
    if |ts| == 3 then
      ts[0].Ident? && ts[1].Dot? && ts[2].Ident? && e == Column(Some(ts[0].name), ts[2].name)
    else
      |ts| == 1 &&
      match ts[0]
      case Ident(name) => e == Column(None, name)
      case Digits(text) => IntLiteral(text).Some? && e == LitInt(IntLiteral(text).value)
      case Quoted(inner) => e == LitString(Unescaped(inner))
      case KwTrue => e == LitBool(true)
      case KwFalse => e == LitBool(false)
      case KwNull => e == LitNull
      case Question => e.Param?
      case _ => false
  }

  /**
   The rules. Level 7 has leaves and parentheses, the others what the next tighter level has, and: 0, 1, 4 and 5 chains
   of OR, AND, sums and products, 3 one comparison, 2 and 6 any number of NOT and of minus signs in front.
   */
  ghost predicate Derives(level: nat, ts: seq<Token>, e: Expr)
    requires level <= 7
    decreases |ts|, 7 - level
  {
    if level == 7 then
      Leaf(ts, e) || (|ts| >= 2 && ts[0].LParen? && ts[|ts| - 1].RParen? && Derives(0, ts[1..|ts| - 1], e))
    else
      || Derives(level + 1, ts, e)
      || (level == 2 && ts != [] && ts[0].KwNot? && e.Not? && Derives(2, ts[1..], e.operand))
      || (level == 6 && ts != [] && ts[0] == OpTok(Sub) && e.Neg? && Derives(6, ts[1..], e.operand))
      || (e.Binary? && OpLevel(e.op) == level &&
           exists i :: (0 <= i < |ts| && ts[i] == OpToken(e.op)
             && Derives(LeftLevel(e.op), ts[..i], e.left) && Derives(level + 1, ts[i + 1..], e.right)))
  }

  function Consumed(ts: seq<Token>, rest: seq<Token>): seq<Token>
    requires |rest| <= |ts|
  {
    ts[..|ts| - |rest|]
  }

  /** What was read up to the rest denotes the expression at this level. */
  ghost predicate ByTheRules(level: nat, r: ParseResult, ts: seq<Token>)
    requires level <= 7
  {
    r.Parsed? ==> Suffix(r.rest, ts) && Derives(level, Consumed(ts, r.rest), r.e)
  }

  lemma Weaker(level: nat, r: ParseResult, ts: seq<Token>)
    requires level < 7 && ByTheRules(level + 1, r, ts)
    ensures ByTheRules(level, r, ts)
  {
  }

  lemma ConsumedSplit(ts: seq<Token>, mid: seq<Token>, rest: seq<Token>)
    requires Suffix(mid, ts) && mid != [] && Suffix(rest, mid[1..])
    ensures Suffix(rest, ts)
    ensures var all, i := Consumed(ts, rest), |ts| - |mid|;
      i < |all| && all[i] == mid[0] && all[..i] == Consumed(ts, mid) && all[i + 1..] == Consumed(mid[1..], rest)
  {
    var all, i := Consumed(ts, rest), |ts| - |mid|;
    SuffixTransitive(mid[1..], mid, ts);
    SuffixTransitive(rest, mid[1..], ts);
    assert mid[1..] == ts[i + 1..];
  }

  lemma DerivesOperation(op: BinaryOp, l: Expr, r: Expr, ts: seq<Token>, i: nat)
    requires i < |ts| && ts[i] == OpToken(op)
    requires Derives(LeftLevel(op), ts[..i], l) && Derives(OpLevel(op) + 1, ts[i + 1..], r)
    ensures Derives(OpLevel(op), ts, Binary(op, l, r))
  {
    var e, level := Binary(op, l, r), OpLevel(op);
    assert e.op == op && e.left == l && e.right == r;
  }

  /** An operand, an operator and another operand. */
  lemma OperationByTheRules(op: BinaryOp, l: Expr, ts: seq<Token>, mid: seq<Token>, r: Expr, rest: seq<Token>)
    requires Suffix(mid, ts) && Starts(mid, OpToken(op)) && Derives(LeftLevel(op), Consumed(ts, mid), l)
    requires Suffix(rest, mid[1..]) && Derives(OpLevel(op) + 1, Consumed(mid[1..], rest), r)
    ensures Suffix(rest, ts) && Derives(OpLevel(op), Consumed(ts, rest), Binary(op, l, r))
  {
    hide Derives, Consumed;
    ConsumedSplit(ts, mid, rest);
    DerivesOperation(op, l, r, Consumed(ts, rest), |ts| - |mid|);
  }

  lemma DoneByTheRules(e: Expr, ts: seq<Token>, n: nat)
    requires ts != [] && Leaf([ts[0]], e)
    ensures ByTheRules(7, Done(e, ts, n), ts)
  {
    if Next(ts).Some? {
      assert Consumed(ts, ts[1..]) == [ts[0]];
    }
  }

  lemma NameByTheRules(ts: seq<Token>, n: nat)
    requires ts != [] && ts[0].Ident?
    ensures ByTheRules(7, ParseName(ts, n), ts)
  {
    var r := ParseName(ts, n);
    if r.Parsed? {
      if Starts(Next(ts).value, Dot) {
        assert Consumed(ts, r.rest) == [ts[0], ts[1], ts[2]];
      } else {
        assert Consumed(ts, r.rest) == [ts[0]];
      }
    }
  }

  lemma ParenthesesByTheRules(ts: seq<Token>, inner: ParseResult)
    requires Starts(ts, LParen) && ByTheRules(0, inner, ts[1..]) && inner.Parsed? && Starts(inner.rest, RParen)
    ensures ByTheRules(7, Done(inner.e, inner.rest, inner.params), ts)
  {
    var r := Done(inner.e, inner.rest, inner.params);
    if r.Parsed? {
      SuffixTransitive(inner.rest, ts[1..], ts);
      SuffixTransitive(r.rest, inner.rest, ts);
      var all := Consumed(ts, r.rest);
      assert all[|all| - 1] == inner.rest[0];
      assert all[1..|all| - 1] == Consumed(ts[1..], inner.rest);
    }
  }

  lemma DerivesPrefix(e: Expr, x: Expr, ts: seq<Token>)
    requires ts != [] && ((ts[0] == KwNot && e == Not(x)) || (ts[0] == OpTok(Sub) && e == Neg(x)))
    requires Derives(Level(e), ts[1..], x)
    ensures Derives(Level(e), ts, e)
  {
  }

  lemma PrefixByTheRules(ts: seq<Token>, x: ParseResult, e: Expr)
    requires ts != [] && x.Parsed?
    requires (ts[0] == KwNot && e == Not(x.e)) || (ts[0] == OpTok(Sub) && e == Neg(x.e))
    requires ByTheRules(Level(e), x, ts[1..])
    ensures ByTheRules(Level(e), Parsed(e, x.rest, x.params), ts)
  {
    hide Derives;
    SuffixTransitive(x.rest, ts[1..], ts);
    assert Consumed(ts, x.rest)[1..] == Consumed(ts[1..], x.rest) && Consumed(ts, x.rest)[0] == ts[0];
    DerivesPrefix(e, x.e, Consumed(ts, x.rest));
  }

  lemma {:induction false} PrimaryByTheRules(ts: seq<Token>, n: nat)
    ensures ByTheRules(7, ParsePrimary(ts, n), ts)
    decreases |ts|, 0
  {
    hide ByTheRules, Done, ParseOr, ParseName, IntLiteral, Unescaped;
    NothingRead(7, ts);
    if ts != [] {
      match ts[0] {
        case Ident(_) => NameByTheRules(ts, n);
        case LParen =>
          if Next(ts).Some? {
            OrByTheRules(ts[1..], n);
            var inner := ParseOr(ts[1..], n);
            if inner.Parsed? && Starts(inner.rest, RParen) {
              ParenthesesByTheRules(ts, inner);
            }
          }
        case Digits(text) =>
          if IntLiteral(text).Some? {
            DoneByTheRules(LitInt(IntLiteral(text).value), ts, n);
          }
        case Quoted(inner) => DoneByTheRules(LitString(Unescaped(inner)), ts, n);
        case KwTrue => DoneByTheRules(LitBool(true), ts, n);
        case KwFalse => DoneByTheRules(LitBool(false), ts, n);
        case KwNull => DoneByTheRules(LitNull, ts, n);
        case Question => DoneByTheRules(Param(n + 1), ts, n + 1);
        case _ =>
      }
    }
  }

  lemma NothingRead(level: nat, ts: seq<Token>)
    requires level <= 7
    ensures ByTheRules(level, Failure, ts)
  {
  }

  lemma {:induction false} UnaryByTheRules(ts: seq<Token>, n: nat)
    ensures ByTheRules(6, ParseUnary(ts, n), ts)
    decreases |ts|, 1
  {
    hide ByTheRules, ParsePrimary;
    NothingRead(6, ts);
    if Starts(ts, OpTok(Sub)) {
      if Next(ts).Some? {
        UnaryByTheRules(ts[1..], n);
        var x := ParseUnary(ts[1..], n);
        if x.Parsed? {
          PrefixByTheRules(ts, x, Neg(x.e));
        }
      }
    } else {
      PrimaryByTheRules(ts, n);
      Weaker(6, ParsePrimary(ts, n), ts);
    }
  }

  /** A loop that stands before mid with left read from what came before goes on by the rules. */
  lemma {:induction false} TermLoopByTheRules(left: Expr, ts: seq<Token>, mid: seq<Token>, n: nat)
    requires Suffix(mid, ts) && Derives(5, Consumed(ts, mid), left)
    ensures ByTheRules(5, TermLoop(left, mid, n), ts)
    decreases |mid|, 2
  {
    hide ParseUnary, Derives, Suffix, Consumed;
    if StartsWithOp(mid, {Mul, Div}) && Next(mid).Some? {
      var right := ParseUnary(mid[1..], n);
      UnaryByTheRules(mid[1..], n);
      if right.Parsed? {
        OperationByTheRules(mid[0].op, left, ts, mid, right.e, right.rest);
        TermLoopByTheRules(Binary(mid[0].op, left, right.e), ts, right.rest, right.params);
      }
    }
  }

  lemma {:induction false} TermByTheRules(ts: seq<Token>, n: nat)
    ensures ByTheRules(5, ParseTerm(ts, n), ts)
    decreases |ts|, 3
  {
    hide ParseUnary, TermLoop;
    UnaryByTheRules(ts, n);
    Weaker(5, ParseUnary(ts, n), ts);
    var left := ParseUnary(ts, n);
    if left.Parsed? {
      TermLoopByTheRules(left.e, ts, left.rest, left.params);
    }
  }

  lemma {:induction false} ArithLoopByTheRules(left: Expr, ts: seq<Token>, mid: seq<Token>, n: nat)
    requires Suffix(mid, ts) && Derives(4, Consumed(ts, mid), left)
    ensures ByTheRules(4, ArithLoop(left, mid, n), ts)
    decreases |mid|, 4
  {
    hide ParseTerm, Derives, Suffix, Consumed;
    if StartsWithOp(mid, {Add, Sub}) && Next(mid).Some? {
      var right := ParseTerm(mid[1..], n);
      TermByTheRules(mid[1..], n);
      if right.Parsed? {
        OperationByTheRules(mid[0].op, left, ts, mid, right.e, right.rest);
        ArithLoopByTheRules(Binary(mid[0].op, left, right.e), ts, right.rest, right.params);
      }
    }
  }

  lemma {:induction false} ArithByTheRules(ts: seq<Token>, n: nat)
    ensures ByTheRules(4, ParseArith(ts, n), ts)
    decreases |ts|, 5
  {
    hide ParseTerm, ArithLoop;
    TermByTheRules(ts, n);
    Weaker(4, ParseTerm(ts, n), ts);
    var left := ParseTerm(ts, n);
    if left.Parsed? {
      ArithLoopByTheRules(left.e, ts, left.rest, left.params);
    }
  }

  lemma {:induction false} ComparisonByTheRules(ts: seq<Token>, n: nat)
    ensures ByTheRules(3, ParseComparison(ts, n), ts)
    decreases |ts|, 6
  {
    hide ParseArith, Derives, Suffix, Consumed;
    ArithByTheRules(ts, n);
    Weaker(3, ParseArith(ts, n), ts);
    var left := ParseArith(ts, n);
    if left.Parsed? && StartsWithOp(left.rest, {Eq, Ne, Lt, Le, Gt, Ge}) && Next(left.rest).Some? {
      ArithByTheRules(left.rest[1..], left.params);
      var right := ParseArith(left.rest[1..], left.params);
      if right.Parsed? {
        OperationByTheRules(left.rest[0].op, left.e, ts, left.rest, right.e, right.rest);
      }
    }
  }

  lemma {:induction false} NotByTheRules(ts: seq<Token>, n: nat)
    ensures ByTheRules(2, ParseNot(ts, n), ts)
    decreases |ts|, 7
  {
    hide ByTheRules, ParseComparison;
    NothingRead(2, ts);
    if Starts(ts, KwNot) {
      if Next(ts).Some? {
        NotByTheRules(ts[1..], n);
        var x := ParseNot(ts[1..], n);
        if x.Parsed? {
          PrefixByTheRules(ts, x, Not(x.e));
        }
      }
    } else {
      ComparisonByTheRules(ts, n);
      Weaker(2, ParseComparison(ts, n), ts);
    }
  }

  lemma {:induction false} AndLoopByTheRules(left: Expr, ts: seq<Token>, mid: seq<Token>, n: nat)
    requires Suffix(mid, ts) && Derives(1, Consumed(ts, mid), left)
    ensures ByTheRules(1, AndLoop(left, mid, n), ts)
    decreases |mid|, 8
  {
    hide ParseNot, Derives, Suffix, Consumed;
    if Starts(mid, KwAnd) && Next(mid).Some? {
      var right := ParseNot(mid[1..], n);
      NotByTheRules(mid[1..], n);
      if right.Parsed? {
        OperationByTheRules(And, left, ts, mid, right.e, right.rest);
        AndLoopByTheRules(Binary(And, left, right.e), ts, right.rest, right.params);
      }
    }
  }

  lemma {:induction false} AndByTheRules(ts: seq<Token>, n: nat)
    ensures ByTheRules(1, ParseAnd(ts, n), ts)
    decreases |ts|, 9
  {
    hide ParseNot, AndLoop;
    NotByTheRules(ts, n);
    Weaker(1, ParseNot(ts, n), ts);
    var left := ParseNot(ts, n);
    if left.Parsed? {
      AndLoopByTheRules(left.e, ts, left.rest, left.params);
    }
  }

  lemma {:induction false} OrLoopByTheRules(left: Expr, ts: seq<Token>, mid: seq<Token>, n: nat)
    requires Suffix(mid, ts) && Derives(0, Consumed(ts, mid), left)
    ensures ByTheRules(0, OrLoop(left, mid, n), ts)
    decreases |mid|, 10
  {
    hide ParseAnd, Derives, Suffix, Consumed;
    if Starts(mid, KwOr) && Next(mid).Some? {
      var right := ParseAnd(mid[1..], n);
      AndByTheRules(mid[1..], n);
      if right.Parsed? {
        OperationByTheRules(Or, left, ts, mid, right.e, right.rest);
        OrLoopByTheRules(Binary(Or, left, right.e), ts, right.rest, right.params);
      }
    }
  }

  /** Whatever the parser takes for an expression is one by the rules, and is the expression that the rules say. */
  lemma {:induction false} OrByTheRules(ts: seq<Token>, n: nat)
    ensures ByTheRules(0, ParseOr(ts, n), ts)
    decreases |ts|, 11
  {
    hide ParseAnd, OrLoop;
    AndByTheRules(ts, n);
    Weaker(0, ParseAnd(ts, n), ts);
    var left := ParseAnd(ts, n);
    if left.Parsed? {
      OrLoopByTheRules(left.e, ts, left.rest, left.params);
    }
  }
}
