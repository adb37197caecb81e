/**
 Precedence and associativity: an expression written with the fewest parentheses, none but
 those that the levels of the operators ask for, parses back to itself.
 */
module Precedence {
  import opened Values
  import opened Expressions
  import opened Parsers

  /** OR binds weakest; then AND, NOT, comparisons, sums, products, the sign, and what needs no parentheses ever. */
  function Level(e: Expr): nat {
    match e
    case Binary(op, _, _) => OpLevel(op)
    case Not(_) => 2
    case Neg(_) => 6
    case _ => 7
  }

  function OpLevel(op: BinaryOp): nat {
    if op.Or? then 0 else if op.And? then 1 else if op.Add? || op.Sub? then 4 else if op.Mul? || op.Div? then 5 else 3
  }

  /** Operators chain to the left, but for comparisons, which do not chain. */
  function LeftLevel(op: BinaryOp): nat {
    if OpLevel(op) == 3 then 4 else OpLevel(op)
  }

  /** Where an operand of at least that level is wanted. */
  function Sparse(e: Expr, level: nat): (ts: seq<Token>)
    requires Printable(e)
    ensures ts != []
    decreases e, 1
  {
    if Level(e) < level then [LParen] + Bare(e) + [RParen] else Bare(e)
  }

  /** Without parentheses around it: a right operand binds tighter than the operator; NOT and the sign may be repeated. */
  function Bare(e: Expr): (ts: seq<Token>)
    requires Printable(e)
    ensures ts != []
    decreases e, 0
  {
    match e
    case Not(x) => [KwNot] + Sparse(x, 2)
    case Neg(x) => [OpTok(Sub)] + Sparse(x, 6)
    case Binary(op, l, r) =>
      Sparse(l, LeftLevel(op)) + [OpToken(op)] + Sparse(r, OpLevel(op) + 1)
    case _ => Printed(e)
  }

  /******* What each level reads *******/

  /** The level has read e and goes on, if it is one that loops, with what follows. */
  predicate Reads(level: nat, ts: seq<Token>, n: nat, e: Expr, rest: seq<Token>) {
    match level
    case 0 => ParseOr(ts, n) == OrLoop(e, rest, n)
    case 1 => ParseAnd(ts, n) == AndLoop(e, rest, n)
    case 2 => ParseNot(ts, n) == Parsed(e, rest, n)
    case 3 => ParseComparison(ts, n) == Parsed(e, rest, n)
    case 4 => ParseArith(ts, n) == ArithLoop(e, rest, n)
    case 5 => ParseTerm(ts, n) == TermLoop(e, rest, n)
    case _ => ParseUnary(ts, n) == Parsed(e, rest, n)
  }

  /** What follows is no operator that a tighter level would take; sums stop before no sum, and so on. */
  predicate Stops(level: nat, rest: seq<Token>) {
    && EndsPrimary(rest)
    && (level <= 3 ==> rest == [] || !rest[0].OpTok?)
    && (level == 4 ==> !StartsWithOp(rest, {Mul, Div}))
    && (level == 0 ==> !Starts(rest, KwAnd))
  }

  /** From one level to the next weaker one. */
  lemma OneLevelUp(level: nat, ts: seq<Token>, n: nat, e: Expr, rest: seq<Token>)
    requires level < 6 && Reads(level + 1, ts, n, e, rest) && Stops(level, rest) && (level == 2 ==> !Starts(ts, KwNot))
    ensures Reads(level, ts, n, e, rest)
  {
    hide ParseUnary;
  }

  /** A chain of one level: the operation takes the operand to its right, and the chain goes on from there. */
  lemma ChainGrows(op: BinaryOp, l: Expr, ts: seq<Token>, tail: seq<Token>, r: Expr, b: seq<Token>, rest: seq<Token>, n: nat)
    requires OpLevel(op) != 3 && Reads(OpLevel(op), ts, n, l, tail)
    requires Starts(tail, OpToken(op)) && Next(tail) == Some(b)
    requires Reads(OpLevel(op) + 1, b, n, r, rest) && Stops(OpLevel(op), rest)
    ensures Reads(OpLevel(op), ts, n, Binary(op, l, r), rest)
  {
    hide ParseUnary, ParseNot, ParseTerm, ParseArith, ParseAnd, ParseOr;
  }

  lemma ComparisonReads(op: BinaryOp, l: Expr, ts: seq<Token>, tail: seq<Token>, r: Expr, b: seq<Token>, rest: seq<Token>, n: nat)
    requires OpLevel(op) == 3 && Reads(4, ts, n, l, tail)
    requires Starts(tail, OpToken(op)) && Next(tail) == Some(b)
    requires Reads(4, b, n, r, rest) && !StartsWithOp(rest, {Add, Sub})
    ensures Reads(3, ts, n, Binary(op, l, r), rest)
  {
    hide ParseArith;
  }

  lemma PrefixReads(e: Expr, ts: seq<Token>, x: Expr, b: seq<Token>, rest: seq<Token>, n: nat)
    requires (e == Not(x) && Starts(ts, KwNot)) || (e == Neg(x) && Starts(ts, OpTok(Sub)))
    requires Next(ts) == Some(b) && Reads(Level(e), b, n, x, rest)
    ensures Reads(Level(e), ts, n, e, rest)
  {
    hide ParsePrimary, ParseComparison;
  }

  /******* How a written expression starts *******/

  lemma {:induction false} SparseStart(e: Expr, level: nat)
    requires Printable(e)
    ensures var t := Sparse(e, level)[0];
      !t.Invalid? && !t.Dot? && (level >= 3 ==> !t.KwNot?) && (level == 6 && !e.Neg? ==> t != OpTok(Sub))
    decreases e
  {
    match e {
      case Binary(op, l, r) => SparseStart(l, LeftLevel(op));
      case _ =>
    }
  }

  /******* The round trip *******/

  lemma AppendSplit(a: seq<Token>, t: Token, b: seq<Token>, rest: seq<Token>)
    ensures a + [t] + b + rest == a + ([t] + (b + rest))
    ensures [t] + b + rest == [t] + (b + rest)
  {
  }

  lemma NextAfter(t: Token, e: Expr, level: nat, rest: seq<Token>)
    requires Printable(e)
    ensures Next([t] + (Sparse(e, level) + rest)) == Some(Sparse(e, level) + rest)
  {
    SparseStart(e, level);
    NextInside(t, Sparse(e, level) + rest);
  }

  /** Written at a level, an expression is read at that level, whatever chain goes on behind it. */
  lemma {:induction false} SparseReads(e: Expr, level: nat, rest: seq<Token>, n: nat)
    requires Printable(e) && level <= 6 && Stops(level, rest)
    ensures Reads(level, Sparse(e, level) + rest, n, e, rest)
    decreases e, if Level(e) < level then 1 else 0, 7 - level
  {
    hide Reads, Sparse, Bare, Printable;
    if Level(e) < level {
      ParenthesizedReads(e, level, rest, n);
    } else if Level(e) > level && level < 6 {
      StopsTighter(level, rest);
      SparseReads(e, level + 1, rest, n);
      SameWriting(e, level);
      SparseStart(e, level + 1);
      OneLevelUp(level, Sparse(e, level) + rest, n, e, rest);
    } else if Level(e) > level {
      LeafReads(e, rest, n);
    } else {
      OperationReads(e, rest, n);
    }
  }

  lemma SameWriting(e: Expr, level: nat)
    requires Printable(e) && Level(e) > level
    ensures Sparse(e, level) == Sparse(e, level + 1)
  {
  }

  lemma LeafReads(e: Expr, rest: seq<Token>, n: nat)
    requires Printable(e) && Level(e) == 7 && EndsPrimary(rest)
    ensures Reads(6, Sparse(e, 6) + rest, n, e, rest)
  {
    hide ParsePrimary;
    LeafRoundTrip(e, rest, n);
    SparseStart(e, 6);
    assert Sparse(e, 6) == Printed(e);
  }

  lemma {:induction false} LevelsUp(level: nat, ts: seq<Token>, n: nat, e: Expr, rest: seq<Token>)
    requires level <= 6 && Reads(6, ts, n, e, rest) && Stops(level, rest) && !Starts(ts, KwNot)
    ensures Reads(level, ts, n, e, rest)
    decreases 6 - level
  {
    hide Reads;
    if level < 6 {
      StopsTighter(level, rest);
      LevelsUp(level + 1, ts, n, e, rest);
      OneLevelUp(level, ts, n, e, rest);
    }
  }

  lemma BracketedReads(ts: seq<Token>, n: nat, inside: seq<Token>, e: Expr, rest: seq<Token>)
    requires Starts(ts, LParen) && Next(ts) == Some(inside) && EndsPrimary(rest) && Reads(0, inside, n, e, [RParen] + rest)
    ensures Reads(6, ts, n, e, rest)
  {
    hide ParseOr, ParsePrimary;
    ParenthesesParse(ts, n, inside, e, rest);
    UnaryFromPrimary(ts, n, e, rest);
  }

  lemma Bracketed(e: Expr, level: nat, rest: seq<Token>)
    requires Printable(e) && Level(e) < level
    ensures var ts, inside := Sparse(e, level) + rest, Sparse(e, 0) + ([RParen] + rest);
      Starts(ts, LParen) && Next(ts) == Some(inside)
  {
    NextAfter(LParen, e, 0, [RParen] + rest);
    assert [LParen] + Bare(e) + [RParen] + rest == [LParen] + (Bare(e) + ([RParen] + rest));
  }

  /** Down to a primary and up again. */
  lemma {:induction false} ParenthesizedReads(e: Expr, level: nat, rest: seq<Token>, n: nat)
    requires Printable(e) && Level(e) < level <= 6 && Stops(level, rest)
    ensures Reads(level, Sparse(e, level) + rest, n, e, rest)
    decreases e, 1, 0
  {
    hide Reads, Sparse, Bare, Printable;
    var close := [RParen] + rest;
    SparseReads(e, 0, close, n);
    Bracketed(e, level, rest);
    BracketedReads(Sparse(e, level) + rest, n, Sparse(e, 0) + close, e, rest);
    LevelsUp(level, Sparse(e, level) + rest, n, e, rest);
  }

  lemma {:induction false} OperationReads(e: Expr, rest: seq<Token>, n: nat)
    requires Printable(e) && Level(e) <= 6 && Stops(Level(e), rest)
    ensures Reads(Level(e), Sparse(e, Level(e)) + rest, n, e, rest)
    decreases e, 0, 0
  {
    hide Reads, Stops, Sparse, Bare;
    match e {
      case Not(x) =>
        SparseReads(x, 2, rest, n);
        NextAfter(KwNot, x, 2, rest);
        PrefixWritten(e, x, rest);
        PrefixReads(e, Sparse(e, 2) + rest, x, Sparse(x, 2) + rest, rest, n);
      case Neg(x) =>
        SparseReads(x, 6, rest, n);
        NextAfter(OpTok(Sub), x, 6, rest);
        PrefixWritten(e, x, rest);
        PrefixReads(e, Sparse(e, 6) + rest, x, Sparse(x, 6) + rest, rest, n);
      case Binary(op, l, r) =>
        var level := OpLevel(op);
        var b := Sparse(r, level + 1) + rest;
        var tail, left := [OpToken(op)] + b, LeftLevel(op);
        BinaryWritten(op, l, r, rest);
        NextAfter(OpToken(op), r, level + 1, rest);
        OperatorStops(op, b);
        StopsTighter(level, rest);
        SparseReads(l, left, tail, n);
        SparseReads(r, level + 1, rest, n);
        if level == 3 {
          ComparisonReads(op, l, Sparse(e, level) + rest, tail, r, b, rest, n);
        } else {
          ChainGrows(op, l, Sparse(e, level) + rest, tail, r, b, rest, n);
        }
      case _ =>
    }
  }

  lemma PrefixWritten(e: Expr, x: Expr, rest: seq<Token>)
    requires Printable(e) && (e == Not(x) || e == Neg(x))
    ensures Sparse(e, Level(e)) + rest == [if e.Not? then KwNot else OpTok(Sub)] + (Sparse(x, Level(e)) + rest)
  {
  }

  lemma BinaryWritten(op: BinaryOp, l: Expr, r: Expr, rest: seq<Token>)
    requires Printable(Binary(op, l, r))
    ensures Sparse(Binary(op, l, r), OpLevel(op)) + rest == Sparse(l, LeftLevel(op)) + ([OpToken(op)] + (Sparse(r, OpLevel(op) + 1) + rest))
  {
    hide Sparse;
    assert Sparse(Binary(op, l, r), OpLevel(op)) == Bare(Binary(op, l, r)) by { SparseIsBare(Binary(op, l, r)); }
    AppendSplit(Sparse(l, LeftLevel(op)), OpToken(op), Sparse(r, OpLevel(op) + 1), rest);
  }

  lemma SparseIsBare(e: Expr)
    requires Printable(e)
    ensures Sparse(e, Level(e)) == Bare(e)
  {
  }

  lemma OperatorStops(op: BinaryOp, b: seq<Token>)
    ensures Stops(LeftLevel(op), [OpToken(op)] + b)
  {
  }

  lemma StopsTighter(level: nat, rest: seq<Token>)
    requires Stops(level, rest)
    ensures Stops(level + 1, rest) && (level <= 3 ==> !StartsWithOp(rest, {Add, Sub}))
  {
  }

  /** With parentheses only where precedence or associativity asks for them, parsing still undoes writing. */
  lemma SparseRoundTrip(e: Expr, rest: seq<Token>, n: nat)
    requires Printable(e) && EndsExpression(rest)
    ensures ParseOr(Sparse(e, 0) + rest, n) == Parsed(e, rest, n)
  {
    hide ParseOr;
    SparseReads(e, 0, rest, n);
  }

  /** Comparisons do not chain: a second one is left for what comes after the expression, which takes no operator. */
  lemma ComparisonsDoNotChain(op: BinaryOp, l: Expr, r: Expr, next: BinaryOp, more: seq<Token>, n: nat)
    requires OpLevel(op) == 3 && OpLevel(next) == 3 && Printable(l) && Printable(r)
    ensures var e, rest := Binary(op, l, r), [OpToken(next)] + more;
      ParseOr(Sparse(e, 3) + rest, n) == Parsed(e, rest, n)
  {
    hide Reads, Sparse, ParseOr;
    var e, rest := Binary(op, l, r), [OpToken(next)] + more;
    var b := Sparse(r, 4) + rest;
    var tail := [OpToken(op)] + b;
    BinaryWritten(op, l, r, rest);
    NextAfter(OpToken(op), r, 4, rest);
    SparseReads(l, 4, tail, n);
    SparseReads(r, 4, rest, n);
    ComparisonReads(op, l, Sparse(e, 3) + rest, tail, r, b, rest, n);
    SparseStart(e, 3);
    NothingTaken(Sparse(e, 3) + rest, n, e, rest);
  }

  lemma NothingTaken(ts: seq<Token>, n: nat, e: Expr, rest: seq<Token>)
    requires Reads(3, ts, n, e, rest) && !Starts(ts, KwNot) && !Starts(rest, KwAnd) && !Starts(rest, KwOr)
    ensures ParseOr(ts, n) == Parsed(e, rest, n)
  {
    hide ParseComparison;
    NotFromComparison(ts, n, e, rest);
    AndFromNot(ts, n, e, rest);
    OrFromAnd(ts, n, e, rest);
  }
}
