/**
 The expression grammar: a precedence ladder of seven levels over tokens, the printer, and
 the proof that parsing undoes printing at every level.
 */
module Parsers {
  import opened Values
  import opened Expressions

  /** Tokens as far as expressions are concerned; a number or a string token carries its text. */
  datatype Token =
    | Ident(name: string)
    | Digits(text: Bytes)
    | Quoted(inner: Bytes)
    | KwTrue | KwFalse | KwNull | KwNot | KwAnd | KwOr
    | Question | LParen | RParen | Dot
    | OpTok(op: BinaryOp)
    | Invalid
    | OtherTok(code: nat)

  const APOSTROPHE: byte := 39
  const ZERO: byte := 48

  /******* Literals *******/

  function DigitsOf(n: nat): (d: Bytes)
    ensures d != []
  {
    if n < 10 then [ZERO + n] else DigitsOf(n / 10) + [ZERO + n % 10]
  }

  predicate AllDigits(d: Bytes) {
    forall k :: 0 <= k < |d| ==> ZERO <= d[k] < ZERO + 10
  }

  function NumberOf(d: Bytes): (n: nat)
    requires AllDigits(d)
  {
    if d == [] then 0 else NumberOf(d[..|d| - 1]) * 10 + (d[|d| - 1] - ZERO)
  }

  /** An integer literal: shorter than 32 digits and within 64 bits, or an error. */
  function IntLiteral(d: Bytes): Option<int64> {
    if |d| >= 32 || !AllDigits(d) || NumberOf(d) >= TWO_63 then None else Some(NumberOf(d))
  }

  /** parse_string_literal: a doubled apostrophe stands for one. */
  function Unescaped(s: Bytes): Bytes {
    if s == [] then []
    else if s[0] == APOSTROPHE && |s| > 1 && s[1] == APOSTROPHE then [APOSTROPHE] + Unescaped(s[2..])
    else [s[0]] + Unescaped(s[1..])
  }

  function Escaped(s: Bytes): Bytes {
    if s == [] then []
    else if s[0] == APOSTROPHE then [APOSTROPHE, APOSTROPHE] + Escaped(s[1..])
    else [s[0]] + Escaped(s[1..])
  }

  /** Doubling the apostrophes of any text makes a literal that denotes it. */
  lemma {:induction false} EscapeRoundTrip(s: Bytes)
    ensures Unescaped(Escaped(s)) == s
  {
    if s != [] {
      EscapeRoundTrip(s[1..]);
      var rest := Escaped(s[1..]);
      if s[0] == APOSTROPHE {
        assert ([APOSTROPHE, APOSTROPHE] + rest)[2..] == rest;
      } else {
        assert ([s[0]] + rest)[1..] == rest;
      }
      assert s == [s[0]] + s[1..];
    }
  }

  lemma {:induction false} NothingToUnescape(s: Bytes)
    requires APOSTROPHE !in s
    ensures Unescaped(s) == s
  {
    if s != [] {
      NothingToUnescape(s[1..]);
      assert s == [s[0]] + s[1..];
    }
  }

  lemma {:induction false} NumberRoundTrip(n: nat, bound: nat, width: nat)
    requires n < bound && bound == Pow10(width) && width > 0
    ensures AllDigits(DigitsOf(n)) && NumberOf(DigitsOf(n)) == n && |DigitsOf(n)| <= width
    decreases n
  {
    if n >= 10 {
      assert width > 1;
      NumberRoundTrip(n / 10, Pow10(width - 1), width - 1);
      var d := DigitsOf(n / 10);
      assert DigitsOf(n)[..|DigitsOf(n)| - 1] == d;
    }
  }

  function Pow10(k: nat): nat {
    if k == 0 then 1 else 10 * Pow10(k - 1)
  }

  lemma LiteralRoundTrip(i: int64)
    requires i >= 0
    ensures IntLiteral(DigitsOf(i)) == Some(i)
  {
    assert Pow10(10) == 1_00000_00000;
    assert Pow10(19) == 10 * Pow10(18);
    PowerOfTen19();
    NumberRoundTrip(i, Pow10(19), 19);
  }

  lemma PowerOfTen19()
    ensures Pow10(19) == 10_000_000_000_000_000_000
  {
    assert Pow10(4) == 10_000;
    assert Pow10(8) == 100_000_000;
    assert Pow10(12) == 1_000_000_000_000;
    assert Pow10(16) == 10_000_000_000_000_000;
  }

  /******* The ladder *******/

  datatype ParseResult = Parsed(e: Expr, rest: seq<Token>, params: nat) | Failure

  /** The tokens after the first, unless the scanner finds an invalid one there. */
  function Next(ts: seq<Token>): (r: Option<seq<Token>>)
    requires ts != []
    ensures r.Some? ==> r.value == ts[1..]
  {
    if |ts| > 1 && ts[1].Invalid? then None else Some(ts[1..])
  }

  predicate Starts(ts: seq<Token>, t: Token) {
    ts != [] && ts[0] == t
  }

  predicate StartsWithOp(ts: seq<Token>, ops: set<BinaryOp>) {
    ts != [] && ts[0].OpTok? && ts[0].op in ops
  }

  function Done(e: Expr, ts: seq<Token>, n: nat): (r: ParseResult)
    requires ts != []
    ensures r.Parsed? ==> r.rest == ts[1..] && r.e == e && r.params == n
  {
    var next := Next(ts);
    if next.None? then Failure else Parsed(e, next.value, n)
  }

  function ParsePrimary(ts: seq<Token>, n: nat): (r: ParseResult)
    ensures r.Parsed? ==> |r.rest| < |ts|
    decreases |ts|, 0
  {
    if ts == [] then Failure
    else match ts[0]
      case Ident(name) => ParseName(ts, n)
      case LParen =>
        var next := Next(ts);
        if next.None? then Failure
        else
          var inner := ParseOr(next.value, n);
          if inner.Failure? || !Starts(inner.rest, RParen) then Failure else Done(inner.e, inner.rest, inner.params)
      case Digits(text) =>
        var i := IntLiteral(text);
        if i.None? then Failure else Done(LitInt(i.value), ts, n)
      case Quoted(inner) => Done(LitString(Unescaped(inner)), ts, n)
      case KwTrue => Done(LitBool(true), ts, n)
      case KwFalse => Done(LitBool(false), ts, n)
      case KwNull => Done(LitNull, ts, n)
      case Question => Done(Param(n + 1), ts, n + 1)
      case _ => Failure
  }

  /** name, or table.name. */
  function ParseName(ts: seq<Token>, n: nat): (r: ParseResult)
    requires ts != [] && ts[0].Ident?
    ensures r.Parsed? ==> |r.rest| < |ts|
  {
    var next := Next(ts);
    if next.None? then Failure
    else if !Starts(next.value, Dot) then Parsed(Column(None, ts[0].name), next.value, n)
    else
      var after := Next(next.value);
      if after.None? || after.value == [] || !after.value[0].Ident? then Failure
      else Done(Column(Some(ts[0].name), after.value[0].name), after.value, n)
  }

  function ParseUnary(ts: seq<Token>, n: nat): (r: ParseResult)
    ensures r.Parsed? ==> |r.rest| < |ts|
    decreases |ts|, 1
  {
    if Starts(ts, OpTok(Sub)) then
      var next := Next(ts);
      if next.None? then Failure
      else
        var x := ParseUnary(next.value, n);
        if x.Failure? then Failure else Parsed(Neg(x.e), x.rest, x.params)
    else ParsePrimary(ts, n)
  }

  function ParseTerm(ts: seq<Token>, n: nat): (r: ParseResult)
    ensures r.Parsed? ==> |r.rest| < |ts|
    decreases |ts|, 3
  {
    var left := ParseUnary(ts, n);
    if left.Failure? then Failure else TermLoop(left.e, left.rest, left.params)
  }

  function TermLoop(left: Expr, ts: seq<Token>, n: nat): (r: ParseResult)
    ensures r.Parsed? ==> |r.rest| <= |ts|
    decreases |ts|, 2
  {
    if !StartsWithOp(ts, {Mul, Div}) then Parsed(left, ts, n)
    else
      var next := Next(ts);
      if next.None? then Failure
      else
        var right := ParseUnary(next.value, n);
        if right.Failure? then Failure else TermLoop(Binary(ts[0].op, left, right.e), right.rest, right.params)
  }

  function ParseArith(ts: seq<Token>, n: nat): (r: ParseResult)
    ensures r.Parsed? ==> |r.rest| < |ts|
    decreases |ts|, 5
  {
    var left := ParseTerm(ts, n);
    if left.Failure? then Failure else ArithLoop(left.e, left.rest, left.params)
  }

  function ArithLoop(left: Expr, ts: seq<Token>, n: nat): (r: ParseResult)
    ensures r.Parsed? ==> |r.rest| <= |ts|
    decreases |ts|, 4
  {
    if !StartsWithOp(ts, {Add, Sub}) then Parsed(left, ts, n)
    else
      var next := Next(ts);
      if next.None? then Failure
      else
        var right := ParseTerm(next.value, n);
        if right.Failure? then Failure else ArithLoop(Binary(ts[0].op, left, right.e), right.rest, right.params)
  }

  /** Comparisons do not chain. */
  function ParseComparison(ts: seq<Token>, n: nat): (r: ParseResult)
    ensures r.Parsed? ==> |r.rest| < |ts|
    decreases |ts|, 6
  {
    var left := ParseArith(ts, n);
    if left.Failure? then Failure
    else if !StartsWithOp(left.rest, {Eq, Ne, Lt, Le, Gt, Ge}) then left
    else
      var next := Next(left.rest);
      if next.None? then Failure
      else
        var right := ParseArith(next.value, left.params);
        if right.Failure? then Failure else Parsed(Binary(left.rest[0].op, left.e, right.e), right.rest, right.params)
  }

  function ParseNot(ts: seq<Token>, n: nat): (r: ParseResult)
    ensures r.Parsed? ==> |r.rest| < |ts|
    decreases |ts|, 7
  {
    if Starts(ts, KwNot) then
      var next := Next(ts);
      if next.None? then Failure
      else
        var x := ParseNot(next.value, n);
        if x.Failure? then Failure else Parsed(Not(x.e), x.rest, x.params)
    else ParseComparison(ts, n)
  }

  function ParseAnd(ts: seq<Token>, n: nat): (r: ParseResult)
    ensures r.Parsed? ==> |r.rest| < |ts|
    decreases |ts|, 9
  {
    var left := ParseNot(ts, n);
    if left.Failure? then Failure else AndLoop(left.e, left.rest, left.params)
  }

  function AndLoop(left: Expr, ts: seq<Token>, n: nat): (r: ParseResult)
    ensures r.Parsed? ==> |r.rest| <= |ts|
    decreases |ts|, 8
  {
    if !Starts(ts, KwAnd) then Parsed(left, ts, n)
    else
      var next := Next(ts);
      if next.None? then Failure
      else
        var right := ParseNot(next.value, n);
        if right.Failure? then Failure else AndLoop(Binary(And, left, right.e), right.rest, right.params)
  }

  function ParseOr(ts: seq<Token>, n: nat): (r: ParseResult)
    ensures r.Parsed? ==> |r.rest| < |ts|
    decreases |ts|, 11
  {
    var left := ParseAnd(ts, n);
    if left.Failure? then Failure else OrLoop(left.e, left.rest, left.params)
  }

  function OrLoop(left: Expr, ts: seq<Token>, n: nat): (r: ParseResult)
    ensures r.Parsed? ==> |r.rest| <= |ts|
    decreases |ts|, 10
  {
    if !Starts(ts, KwOr) then Parsed(left, ts, n)
    else
      var next := Next(ts);
      if next.None? then Failure
      else
        var right := ParseAnd(next.value, n);
        if right.Failure? then Failure else OrLoop(Binary(Or, left, right.e), right.rest, right.params)
  }

  /******* The printer *******/

  function OpToken(op: BinaryOp): Token {
    if op.And? then KwAnd else if op.Or? then KwOr else OpTok(op)
  }

  /** What print_expr writes, as tokens: every compound expression in parentheses. */
  function Printed(e: Expr): (ts: seq<Token>)
    requires Printable(e)
    ensures ts != []
  {
    match e
    case Column(table, name) => if table.Some? then [Ident(table.value), Dot, Ident(name)] else [Ident(name)]
    case LitInt(i) => [Digits(DigitsOf(i))]
    case LitString(s) => [Quoted(s)]
    case LitBool(b) => [if b then KwTrue else KwFalse]
    case LitNull => [KwNull]
    case Not(x) => [LParen, KwNot] + Printed(x) + [RParen]
    case Neg(x) => [LParen, OpTok(Sub)] + Printed(x) + [RParen]
    case Binary(op, l, r) => [LParen] + Printed(l) + [OpToken(op)] + Printed(r) + [RParen]
    case _ => [OtherTok(0)]
  }

  /** Columns, non-negative integers, booleans, NULL and texts without an apostrophe, in any combination. */
  predicate Printable(e: Expr) {
    match e
    case Column(_, _) => true
    case LitInt(i) => i >= 0
    case LitString(s) => APOSTROPHE !in s
    case LitBool(_) => true
    case LitNull => true
    case Not(x) => Printable(x)
    case Neg(x) => Printable(x)
    case Binary(_, l, r) => Printable(l) && Printable(r)
    case _ => false
  }

  /** A token that ends a primary: not an invalid one, and not the dot of a qualified name. */
  predicate EndsPrimary(rest: seq<Token>) {
    rest == [] || (!rest[0].Invalid? && !rest[0].Dot?)
  }

  /** A token that no loop of the ladder takes for its operator. */
  predicate EndsExpression(rest: seq<Token>) {
    EndsPrimary(rest) && (rest == [] || !(rest[0].OpTok? || rest[0].KwAnd? || rest[0].KwOr?))
  }

  /** A printed expression never starts with a prefix operator. */
  lemma PrintedStart(e: Expr, rest: seq<Token>)
    requires Printable(e)
    ensures var ts := Printed(e) + rest;
      ts != [] && ts[0] == Printed(e)[0] && !Starts(ts, OpTok(Sub)) && !Starts(ts, KwNot) && !ts[0].Invalid? && !ts[0].Dot?
  {
    match e {
      case Not(x) =>
      case Neg(x) =>
      case Binary(_, l, r) =>
      case _ =>
    }
  }

  /** One token that is a whole primary. */
  lemma OneTokenParses(t: Token, rest: seq<Token>, n: nat)
    requires EndsPrimary(rest)
    ensures Next([t] + rest) == Some(rest)
  {
    assert ([t] + rest)[1..] == rest;
  }

  lemma NextInside(t: Token, ts: seq<Token>)
    requires ts != [] && !ts[0].Invalid?
    ensures Next([t] + ts) == Some(ts)
  {
    assert ([t] + ts)[1..] == ts;
  }

  /** If it parses as a primary it parses at every level whose operators do not follow. */
  lemma UnaryFromPrimary(ts: seq<Token>, n: nat, e: Expr, rest: seq<Token>)
    requires ParsePrimary(ts, n) == Parsed(e, rest, n) && !Starts(ts, OpTok(Sub))
    ensures ParseUnary(ts, n) == Parsed(e, rest, n)
  {
  }

  lemma TermFromUnary(ts: seq<Token>, n: nat, e: Expr, rest: seq<Token>)
    requires ParseUnary(ts, n) == Parsed(e, rest, n) && !StartsWithOp(rest, {Mul, Div})
    ensures ParseTerm(ts, n) == Parsed(e, rest, n)
  {
  }

  lemma ArithFromTerm(ts: seq<Token>, n: nat, e: Expr, rest: seq<Token>)
    requires ParseTerm(ts, n) == Parsed(e, rest, n) && !StartsWithOp(rest, {Add, Sub})
    ensures ParseArith(ts, n) == Parsed(e, rest, n)
  {
  }

  lemma ComparisonFromArith(ts: seq<Token>, n: nat, e: Expr, rest: seq<Token>)
    requires ParseArith(ts, n) == Parsed(e, rest, n) && !StartsWithOp(rest, {Eq, Ne, Lt, Le, Gt, Ge})
    ensures ParseComparison(ts, n) == Parsed(e, rest, n)
  {
  }

  lemma NotFromComparison(ts: seq<Token>, n: nat, e: Expr, rest: seq<Token>)
    requires ParseComparison(ts, n) == Parsed(e, rest, n) && !Starts(ts, KwNot)
    ensures ParseNot(ts, n) == Parsed(e, rest, n)
  {
  }

  lemma AndFromNot(ts: seq<Token>, n: nat, e: Expr, rest: seq<Token>)
    requires ParseNot(ts, n) == Parsed(e, rest, n) && !Starts(rest, KwAnd)
    ensures ParseAnd(ts, n) == Parsed(e, rest, n)
  {
  }

  lemma OrFromAnd(ts: seq<Token>, n: nat, e: Expr, rest: seq<Token>)
    requires ParseAnd(ts, n) == Parsed(e, rest, n) && !Starts(rest, KwOr)
    ensures ParseOr(ts, n) == Parsed(e, rest, n)
  {
  }

  /** The levels a primary passes through until an operator token follows it. */
  lemma PrimaryAtEveryLevel(ts: seq<Token>, n: nat, e: Expr, rest: seq<Token>)
    requires ParsePrimary(ts, n) == Parsed(e, rest, n) && !Starts(ts, OpTok(Sub)) && !Starts(ts, KwNot)
    ensures ParseUnary(ts, n) == Parsed(e, rest, n)
    ensures !StartsWithOp(rest, {Mul, Div}) ==> ParseTerm(ts, n) == Parsed(e, rest, n)
    ensures !StartsWithOp(rest, {Mul, Div, Add, Sub}) ==> ParseArith(ts, n) == Parsed(e, rest, n)
    ensures rest == [] || !rest[0].OpTok? ==> ParseNot(ts, n) == Parsed(e, rest, n)
    ensures rest == [] || !(rest[0].OpTok? || rest[0].KwAnd?) ==> ParseAnd(ts, n) == Parsed(e, rest, n)
    ensures rest == [] || !(rest[0].OpTok? || rest[0].KwAnd? || rest[0].KwOr?) ==> ParseOr(ts, n) == Parsed(e, rest, n)
  {
    hide ParsePrimary, ParseUnary, ParseTerm, ParseArith, ParseComparison, ParseNot, ParseAnd, ParseOr;
    UnaryFromPrimary(ts, n, e, rest);
    if !StartsWithOp(rest, {Mul, Div}) {
      TermFromUnary(ts, n, e, rest);
    }
    if !StartsWithOp(rest, {Mul, Div, Add, Sub}) {
      ArithFromTerm(ts, n, e, rest);
    }
    if rest == [] || !rest[0].OpTok? {
      ComparisonFromArith(ts, n, e, rest);
      NotFromComparison(ts, n, e, rest);
      if !Starts(rest, KwAnd) {
        AndFromNot(ts, n, e, rest);
        if !Starts(rest, KwOr) {
          OrFromAnd(ts, n, e, rest);
        }
      }
    }
  }

  lemma OneTermStep(a: seq<Token>, n: nat, l: Expr, tail: seq<Token>, b: seq<Token>, r: Expr, close: seq<Token>)
    requires ParseUnary(a, n) == Parsed(l, tail, n) && StartsWithOp(tail, {Mul, Div}) && Next(tail) == Some(b)
    requires ParseUnary(b, n) == Parsed(r, close, n) && !StartsWithOp(close, {Mul, Div})
    ensures ParseTerm(a, n) == Parsed(Binary(tail[0].op, l, r), close, n)
  {
    hide ParseUnary;
    assert TermLoop(Binary(tail[0].op, l, r), close, n) == Parsed(Binary(tail[0].op, l, r), close, n);
  }

  lemma OneArithStep(a: seq<Token>, n: nat, l: Expr, tail: seq<Token>, b: seq<Token>, r: Expr, close: seq<Token>)
    requires ParseTerm(a, n) == Parsed(l, tail, n) && StartsWithOp(tail, {Add, Sub}) && Next(tail) == Some(b)
    requires ParseTerm(b, n) == Parsed(r, close, n) && !StartsWithOp(close, {Add, Sub})
    ensures ParseArith(a, n) == Parsed(Binary(tail[0].op, l, r), close, n)
  {
    hide ParseTerm;
    assert ArithLoop(Binary(tail[0].op, l, r), close, n) == Parsed(Binary(tail[0].op, l, r), close, n);
  }

  lemma OneAndStep(a: seq<Token>, n: nat, l: Expr, tail: seq<Token>, b: seq<Token>, r: Expr, close: seq<Token>)
    requires ParseNot(a, n) == Parsed(l, tail, n) && Starts(tail, KwAnd) && Next(tail) == Some(b)
    requires ParseNot(b, n) == Parsed(r, close, n) && !Starts(close, KwAnd)
    ensures ParseAnd(a, n) == Parsed(Binary(And, l, r), close, n)
  {
    hide ParseNot;
    assert AndLoop(Binary(And, l, r), close, n) == Parsed(Binary(And, l, r), close, n);
  }

  lemma OneOrStep(a: seq<Token>, n: nat, l: Expr, tail: seq<Token>, b: seq<Token>, r: Expr, close: seq<Token>)
    requires ParseAnd(a, n) == Parsed(l, tail, n) && Starts(tail, KwOr) && Next(tail) == Some(b)
    requires ParseAnd(b, n) == Parsed(r, close, n) && !Starts(close, KwOr)
    ensures ParseOr(a, n) == Parsed(Binary(Or, l, r), close, n)
  {
    hide ParseAnd;
    assert OrLoop(Binary(Or, l, r), close, n) == Parsed(Binary(Or, l, r), close, n);
  }

  /** From any level up to the top, when a closing token follows. */
  lemma UpFromTerm(a: seq<Token>, n: nat, e: Expr, close: seq<Token>)
    requires ParseTerm(a, n) == Parsed(e, close, n) && !Starts(a, KwNot) && EndsExpression(close)
    ensures ParseOr(a, n) == Parsed(e, close, n)
  {
    hide ParseTerm, ParseArith, ParseComparison, ParseNot, ParseAnd, ParseOr;
    ArithFromTerm(a, n, e, close);
    UpFromArith(a, n, e, close);
  }

  lemma UpFromArith(a: seq<Token>, n: nat, e: Expr, close: seq<Token>)
    requires ParseArith(a, n) == Parsed(e, close, n) && !Starts(a, KwNot) && EndsExpression(close)
    ensures ParseOr(a, n) == Parsed(e, close, n)
  {
    hide ParseTerm, ParseArith, ParseComparison, ParseNot, ParseAnd, ParseOr;
    ComparisonFromArith(a, n, e, close);
    UpFromComparison(a, n, e, close);
  }

  lemma UpFromComparison(a: seq<Token>, n: nat, e: Expr, close: seq<Token>)
    requires ParseComparison(a, n) == Parsed(e, close, n) && !Starts(a, KwNot) && EndsExpression(close)
    ensures ParseOr(a, n) == Parsed(e, close, n)
  {
    hide ParseTerm, ParseArith, ParseComparison, ParseNot, ParseAnd, ParseOr;
    NotFromComparison(a, n, e, close);
    AndFromNot(a, n, e, close);
    OrFromAnd(a, n, e, close);
  }

  /** Two printed operands around an operator parse as the operation, whichever level the operator belongs to. */
  lemma BinaryInside(op: BinaryOp, l: Expr, r: Expr, a: seq<Token>, tail: seq<Token>, b: seq<Token>, close: seq<Token>, n: nat)
    requires ParsePrimary(a, n) == Parsed(l, tail, n) && !Starts(a, OpTok(Sub)) && !Starts(a, KwNot)
    requires ParsePrimary(b, n) == Parsed(r, close, n) && !Starts(b, OpTok(Sub)) && !Starts(b, KwNot)
    requires Starts(tail, OpToken(op)) && Next(tail) == Some(b) && EndsExpression(close)
    ensures ParseOr(a, n) == Parsed(Binary(op, l, r), close, n)
  {
    hide ParsePrimary, ParseUnary, ParseTerm, ParseArith, ParseComparison, ParseNot, ParseAnd, ParseOr;
    PrimaryAtEveryLevel(a, n, l, tail);
    PrimaryAtEveryLevel(b, n, r, close);
    var e := Binary(op, l, r);
    if op.Mul? || op.Div? {
      OneTermStep(a, n, l, tail, b, r, close);
      UpFromTerm(a, n, e, close);
    } else if op.Add? || op.Sub? {
      OneArithStep(a, n, l, tail, b, r, close);
      UpFromArith(a, n, e, close);
    } else if op.And? {
      OneAndStep(a, n, l, tail, b, r, close);
      OrFromAnd(a, n, e, close);
    } else if op.Or? {
      OneOrStep(a, n, l, tail, b, r, close);
    } else {
      OneComparison(a, n, l, tail, b, r, close);
      UpFromComparison(a, n, e, close);
    }
  }

  lemma OneComparison(a: seq<Token>, n: nat, l: Expr, tail: seq<Token>, b: seq<Token>, r: Expr, close: seq<Token>)
    requires ParseArith(a, n) == Parsed(l, tail, n) && StartsWithOp(tail, {Eq, Ne, Lt, Le, Gt, Ge}) && Next(tail) == Some(b)
    requires ParseArith(b, n) == Parsed(r, close, n)
    ensures ParseComparison(a, n) == Parsed(Binary(tail[0].op, l, r), close, n)
  {
    hide ParseArith;
  }

  lemma ParenthesesParse(ts: seq<Token>, n: nat, inside: seq<Token>, e: Expr, rest: seq<Token>)
    requires Starts(ts, LParen) && Next(ts) == Some(inside) && EndsPrimary(rest)
    requires ParseOr(inside, n) == Parsed(e, [RParen] + rest, n)
    ensures ParsePrimary(ts, n) == Parsed(e, rest, n)
  {
    hide ParseOr;
    OneTokenParses(RParen, rest, n);
  }

  lemma NegInside(ts: seq<Token>, n: nat, x: Expr, inside: seq<Token>, close: seq<Token>)
    requires Starts(ts, OpTok(Sub)) && Next(ts) == Some(inside) && ParseUnary(inside, n) == Parsed(x, close, n) && EndsExpression(close)
    ensures ParseOr(ts, n) == Parsed(Neg(x), close, n)
  {
    hide ParsePrimary, ParseTerm, ParseArith, ParseComparison, ParseNot, ParseAnd, ParseOr;
    assert ParseUnary(ts, n) == Parsed(Neg(x), close, n);
    TermFromUnary(ts, n, Neg(x), close);
    UpFromTerm(ts, n, Neg(x), close);
  }

  lemma NotInside(ts: seq<Token>, n: nat, x: Expr, inside: seq<Token>, close: seq<Token>)
    requires Starts(ts, KwNot) && Next(ts) == Some(inside) && ParseNot(inside, n) == Parsed(x, close, n) && EndsExpression(close)
    ensures ParseOr(ts, n) == Parsed(Not(x), close, n)
  {
    hide ParsePrimary, ParseUnary, ParseTerm, ParseArith, ParseComparison, ParseAnd, ParseOr;
    assert ParseNot(ts, n) == Parsed(Not(x), close, n);
    AndFromNot(ts, n, Not(x), close);
    OrFromAnd(ts, n, Not(x), close);
  }

  /** A printed expression is a primary that parses back to itself, whatever follows. */
  lemma {:induction false} PrimaryRoundTrip(e: Expr, rest: seq<Token>, n: nat)
    requires Printable(e) && EndsPrimary(rest)
    ensures ParsePrimary(Printed(e) + rest, n) == Parsed(e, rest, n)
    decreases e
  {
    var ts, close := Printed(e) + rest, [RParen] + rest;
    match e {
      case Binary(op, l, r) =>
        var b := Printed(r) + close;
        var tail := [OpToken(op)] + b;
        var a := Printed(l) + tail;
        BinarySplit(OpToken(op), Printed(l), Printed(r), rest);
        PrintedStart(l, tail);
        PrintedStart(r, close);
        NextInside(LParen, a);
        NextInside(OpToken(op), b);
        PrimaryRoundTrip(l, tail, n);
        PrimaryRoundTrip(r, close, n);
        BinaryInside(op, l, r, a, tail, b, close, n);
        ParenthesesParse(ts, n, a, e, rest);
      case Not(x) =>
        PrefixRoundTrip(e, KwNot, x, rest, n);
        PrimaryRoundTrip(x, close, n);
        PrimaryAtEveryLevel(Printed(x) + close, n, x, close);
        NotInside([KwNot] + (Printed(x) + close), n, x, Printed(x) + close, close);
        ParenthesesParse(ts, n, [KwNot] + (Printed(x) + close), e, rest);
      case Neg(x) =>
        PrefixRoundTrip(e, OpTok(Sub), x, rest, n);
        PrimaryRoundTrip(x, close, n);
        PrimaryAtEveryLevel(Printed(x) + close, n, x, close);
        NegInside([OpTok(Sub)] + (Printed(x) + close), n, x, Printed(x) + close, close);
        ParenthesesParse(ts, n, [OpTok(Sub)] + (Printed(x) + close), e, rest);
      case _ =>
        LeafRoundTrip(e, rest, n);
    }
  }

  lemma PrefixSplit(prefix: Token, p: seq<Token>, rest: seq<Token>)
    ensures [LParen, prefix] + p + [RParen] + rest == [LParen] + ([prefix] + (p + ([RParen] + rest)))
  {
  }

  lemma BinarySplit(op: Token, l: seq<Token>, r: seq<Token>, rest: seq<Token>)
    ensures [LParen] + l + [op] + r + [RParen] + rest == [LParen] + (l + ([op] + (r + ([RParen] + rest))))
  {
  }

  lemma PrefixRoundTrip(e: Expr, prefix: Token, x: Expr, rest: seq<Token>, n: nat)
    requires Printable(e) && Printable(x) && !prefix.Invalid? && Printed(e) == [LParen, prefix] + Printed(x) + [RParen]
    ensures var close := [RParen] + rest;
      var inside := [prefix] + (Printed(x) + close);
      && Starts(Printed(e) + rest, LParen) && Next(Printed(e) + rest) == Some(inside)
      && Starts(inside, prefix) && Next(inside) == Some(Printed(x) + close)
      && !Starts(Printed(x) + close, OpTok(Sub)) && !Starts(Printed(x) + close, KwNot)
  {
    hide Printed, Printable;
    var inside := [prefix] + (Printed(x) + ([RParen] + rest));
    PrefixSplit(prefix, Printed(x), rest);
    PrintedStart(x, [RParen] + rest);
    NextInside(LParen, inside);
    NextInside(prefix, Printed(x) + ([RParen] + rest));
  }

  lemma ColumnRoundTrip(table: Option<string>, name: string, rest: seq<Token>, n: nat)
    requires EndsPrimary(rest)
    ensures var e := Column(table, name); ParsePrimary(Printed(e) + rest, n) == Parsed(e, rest, n)
  {
    hide ParseOr;
    var e := Column(table, name);
    OneTokenParses(Ident(name), rest, n);
    if table.Some? {
      assert Printed(e) + rest == [Ident(table.value)] + ([Dot] + ([Ident(name)] + rest));
      NextInside(Ident(table.value), [Dot] + ([Ident(name)] + rest));
      NextInside(Dot, [Ident(name)] + rest);
    }
  }

  lemma IntegerRoundTrip(i: int64, rest: seq<Token>, n: nat)
    requires i >= 0 && EndsPrimary(rest)
    ensures ParsePrimary(Printed(LitInt(i)) + rest, n) == Parsed(LitInt(i), rest, n)
  {
    hide ParseOr, DigitsOf, IntLiteral;
    LiteralRoundTrip(i);
    OneTokenParses(Digits(DigitsOf(i)), rest, n);
  }

  lemma LeafRoundTrip(e: Expr, rest: seq<Token>, n: nat)
    requires Printable(e) && EndsPrimary(rest) && !e.Binary? && !e.Not? && !e.Neg?
    ensures ParsePrimary(Printed(e) + rest, n) == Parsed(e, rest, n)
  {
    hide ParseOr, DigitsOf, IntLiteral, Unescaped;
    match e {
      case Column(table, name) => ColumnRoundTrip(table, name, rest, n);
      case LitInt(i) => IntegerRoundTrip(i, rest, n);
      case LitString(s) =>
        NothingToUnescape(s);
        OneTokenParses(Quoted(s), rest, n);
      case LitBool(b) =>
        OneTokenParses(if b then KwTrue else KwFalse, rest, n);
      case LitNull =>
        OneTokenParses(KwNull, rest, n);
      case _ =>
    }
  }

  /** Parsing undoes printing, through all seven levels, when no operator follows. */
  lemma PrintParseRoundTrip(e: Expr, rest: seq<Token>, n: nat)
    requires Printable(e) && EndsExpression(rest)
    ensures ParseOr(Printed(e) + rest, n) == Parsed(e, rest, n)
  {
    PrimaryRoundTrip(e, rest, n);
    PrintedStart(e, rest);
    PrimaryAtEveryLevel(Printed(e) + rest, n, e, rest);
  }

  /******* Parameters *******/

  /** The parameter numbers of an expression from left to right. */
  function ParamsOf(e: Expr): seq<int> {
    match e
    case Param(k) => [k]
    case Not(x) => ParamsOf(x)
    case Neg(x) => ParamsOf(x)
    case Binary(_, l, r) => ParamsOf(l) + ParamsOf(r)
    case _ => []
  }

  function Questions(ts: seq<Token>): nat {
    if ts == [] then 0 else Questions(ts[1..]) + if ts[0].Question? then 1 else 0
  }

  /** a + 1, ..., b. */
  function Numbers(a: nat, b: nat): seq<int> {
    if b <= a then [] else Numbers(a, b - 1) + [b]
  }

  lemma {:induction false} NumbersConcat(a: nat, b: nat, c: nat)
    requires a <= b <= c
    ensures Numbers(a, b) + Numbers(b, c) == Numbers(a, c)
  {
    if b < c {
      NumbersConcat(a, b, c - 1);
    }
  }

  predicate Suffix(rest: seq<Token>, ts: seq<Token>) {
    |rest| <= |ts| && rest == ts[|ts| - |rest|..]
  }

  lemma SuffixTransitive(a: seq<Token>, b: seq<Token>, c: seq<Token>)
    requires Suffix(a, b) && Suffix(b, c)
    ensures Suffix(a, c)
  {
  }

  /**
   What was parsed numbered the question marks it read upwards from n: the parameters of the
   expression are those of before followed by n + 1, n + 2 and so on, one for each.
   */
  ghost predicate NumbersParams(r: ParseResult, ts: seq<Token>, n: nat, before: seq<int>) {
    r.Parsed? ==>
      && Suffix(r.rest, ts) && n <= r.params && r.params - n == Questions(ts) - Questions(r.rest)
      && ParamsOf(r.e) == before + Numbers(n, r.params)
  }

  lemma NextQuestions(ts: seq<Token>)
    requires ts != [] && Next(ts).Some?
    ensures Suffix(Next(ts).value, ts) && Questions(ts) == Questions(Next(ts).value) + if ts[0].Question? then 1 else 0
  {
  }

  lemma Regroup(a: seq<int>, b: seq<int>, c: seq<int>)
    ensures a + b + c == a + (b + c)
  {
  }

  lemma OperandAdds(left: Expr, right: Expr, op: BinaryOp, before: seq<int>, start: nat, n: nat, m: nat)
    requires start <= n <= m && ParamsOf(left) == before + Numbers(start, n) && ParamsOf(right) == Numbers(n, m)
    ensures ParamsOf(Binary(op, left, right)) == before + Numbers(start, m)
  {
    hide Numbers;
    NumbersConcat(start, n, m);
    Regroup(before, Numbers(start, n), Numbers(n, m));
  }

  lemma ChainNumbers(r: ParseResult, middle: seq<Token>, m: nat, ts: seq<Token>, n: nat, before: seq<int>)
    requires Suffix(middle, ts) && n <= m && m - n == Questions(ts) - Questions(middle)
    requires NumbersParams(r, middle, m, before + Numbers(n, m))
    ensures NumbersParams(r, ts, n, before)
  {
    hide Numbers, Suffix, Questions;
    if r.Parsed? {
      SuffixTransitive(r.rest, middle, ts);
      NumbersConcat(n, m, r.params);
      Regroup(before, Numbers(n, m), Numbers(m, r.params));
    }
  }

  lemma NoNumbers(n: nat)
    ensures Numbers(n, n) == [] && [] + Numbers(n, n) == []
  {
  }

  /** An operand read after the operator that follows left. */
  lemma OperandNumbers(left: Expr, ts: seq<Token>, n: nat, right: ParseResult, op: BinaryOp, before: seq<int>, r: ParseResult, start: nat)
    requires ts != [] && !ts[0].Question? && Next(ts).Some? && right.Parsed? && NumbersParams(right, Next(ts).value, n, [])
    requires start <= n && ParamsOf(left) == before + Numbers(start, n)
    requires NumbersParams(r, right.rest, right.params, ParamsOf(Binary(op, left, right.e)))
    ensures NumbersParams(r, ts, n, ParamsOf(left))
    ensures ParamsOf(Binary(op, left, right.e)) == before + Numbers(start, right.params)
  {
    hide Numbers, Suffix, Questions;
    NextQuestions(ts);
    assert [] + Numbers(n, right.params) == Numbers(n, right.params);
    OperandAdds(left, right.e, op, before, start, n, right.params);
    SuffixTransitive(right.rest, Next(ts).value, ts);
    NoNumbers(n);
    assert ParamsOf(left) + Numbers(n, n) == ParamsOf(left);
    OperandAdds(left, right.e, op, ParamsOf(left), n, n, right.params);
    ChainNumbers(r, right.rest, right.params, ts, n, ParamsOf(left));
  }

  lemma LoopNumbers(first: ParseResult, ts: seq<Token>, n: nat, r: ParseResult)
    requires first.Parsed? && NumbersParams(first, ts, n, []) && NumbersParams(r, first.rest, first.params, ParamsOf(first.e))
    ensures NumbersParams(r, ts, n, [])
  {
    if r.Parsed? {
      SuffixTransitive(r.rest, first.rest, ts);
      NumbersConcat(n, first.params, r.params);
    }
  }

  lemma DoneNumbers(e: Expr, ts: seq<Token>, n: nat)
    requires ts != [] && !ts[0].Question? && ParamsOf(e) == []
    ensures NumbersParams(Done(e, ts, n), ts, n, [])
  {
    NoNumbers(n);
    if Next(ts).Some? {
      NextQuestions(ts);
    }
  }

  lemma QuestionNumbers(ts: seq<Token>, n: nat)
    requires Starts(ts, Question)
    ensures NumbersParams(Done(Param(n + 1), ts, n + 1), ts, n, [])
  {
    assert Numbers(n, n + 1) == [n + 1];
    if Next(ts).Some? {
      NextQuestions(ts);
    }
  }

  lemma ParenthesesNumbers(inner: ParseResult, next: seq<Token>, ts: seq<Token>, n: nat)
    requires Starts(ts, LParen) && Next(ts) == Some(next) && NumbersParams(inner, next, n, [])
    requires inner.Parsed? && Starts(inner.rest, RParen)
    ensures NumbersParams(Done(inner.e, inner.rest, inner.params), ts, n, [])
  {
    NextQuestions(ts);
    if Next(inner.rest).Some? {
      NextQuestions(inner.rest);
      SuffixTransitive(inner.rest, next, ts);
      SuffixTransitive(Next(inner.rest).value, inner.rest, ts);
    }
  }

  lemma {:induction false} PrimaryNumbers(ts: seq<Token>, n: nat)
    ensures NumbersParams(ParsePrimary(ts, n), ts, n, [])
    decreases |ts|, 0
  {
    hide NumbersParams, Done, ParseOr, ParseName, DigitsOf, IntLiteral, Unescaped;
    FailureNumbers(ts, n);
    if ts != [] {
      match ts[0] {
        case Ident(_) => NameNumbers(ts, n);
        case LParen =>
          if Next(ts).Some? {
            var next := Next(ts).value;
            OrNumbers(next, n);
            var inner := ParseOr(next, n);
            if inner.Parsed? && Starts(inner.rest, RParen) {
              ParenthesesNumbers(inner, next, ts, n);
            }
          }
        case Digits(text) =>
          if IntLiteral(text).Some? {
            DoneNumbers(LitInt(IntLiteral(text).value), ts, n);
          }
        case Quoted(inner) => DoneNumbers(LitString(Unescaped(inner)), ts, n);
        case KwTrue => DoneNumbers(LitBool(true), ts, n);
        case KwFalse => DoneNumbers(LitBool(false), ts, n);
        case KwNull => DoneNumbers(LitNull, ts, n);
        case Question => QuestionNumbers(ts, n);
        case _ =>
      }
    }
  }

  lemma FailureNumbers(ts: seq<Token>, n: nat)
    ensures NumbersParams(Failure, ts, n, [])
  {
  }

  lemma NameNumbers(ts: seq<Token>, n: nat)
    requires ts != [] && ts[0].Ident?
    ensures NumbersParams(ParseName(ts, n), ts, n, [])
  {
    if Next(ts).Some? {
      NextQuestions(ts);
      var next := Next(ts).value;
      if Starts(next, Dot) && Next(next).Some? {
        NextQuestions(next);
        var after := Next(next).value;
        SuffixTransitive(after, next, ts);
        if after != [] && after[0].Ident? && Next(after).Some? {
          NextQuestions(after);
          SuffixTransitive(Next(after).value, after, ts);
        }
      }
    }
  }

  lemma {:induction false} UnaryNumbers(ts: seq<Token>, n: nat)
    ensures NumbersParams(ParseUnary(ts, n), ts, n, [])
    decreases |ts|, 1
  {
    hide ParsePrimary;
    if Starts(ts, OpTok(Sub)) {
      if Next(ts).Some? {
        NextQuestions(ts);
        UnaryNumbers(Next(ts).value, n);
        var x := ParseUnary(Next(ts).value, n);
        if x.Parsed? {
          SuffixTransitive(x.rest, Next(ts).value, ts);
        }
      }
    } else {
      PrimaryNumbers(ts, n);
    }
  }

  lemma {:induction false} TermLoopNumbers(left: Expr, ts: seq<Token>, n: nat)
    ensures NumbersParams(TermLoop(left, ts, n), ts, n, ParamsOf(left))
    decreases |ts|, 2
  {
    hide ParseUnary;
    if StartsWithOp(ts, {Mul, Div}) && Next(ts).Some? {
      var right := ParseUnary(Next(ts).value, n);
      UnaryNumbers(Next(ts).value, n);
      if right.Parsed? {
        TermLoopNumbers(Binary(ts[0].op, left, right.e), right.rest, right.params);
        OperandNumbers(left, ts, n, right, ts[0].op, ParamsOf(left), TermLoop(left, ts, n), n);
      }
    }
  }

  lemma {:induction false} TermNumbers(ts: seq<Token>, n: nat)
    ensures NumbersParams(ParseTerm(ts, n), ts, n, [])
    decreases |ts|, 3
  {
    hide ParseUnary, TermLoop;
    UnaryNumbers(ts, n);
    var left := ParseUnary(ts, n);
    if left.Parsed? {
      TermLoopNumbers(left.e, left.rest, left.params);
      LoopNumbers(left, ts, n, ParseTerm(ts, n));
    }
  }

  lemma {:induction false} ArithLoopNumbers(left: Expr, ts: seq<Token>, n: nat)
    ensures NumbersParams(ArithLoop(left, ts, n), ts, n, ParamsOf(left))
    decreases |ts|, 4
  {
    hide ParseTerm;
    if StartsWithOp(ts, {Add, Sub}) && Next(ts).Some? {
      var right := ParseTerm(Next(ts).value, n);
      TermNumbers(Next(ts).value, n);
      if right.Parsed? {
        ArithLoopNumbers(Binary(ts[0].op, left, right.e), right.rest, right.params);
        OperandNumbers(left, ts, n, right, ts[0].op, ParamsOf(left), ArithLoop(left, ts, n), n);
      }
    }
  }

  lemma {:induction false} ArithNumbers(ts: seq<Token>, n: nat)
    ensures NumbersParams(ParseArith(ts, n), ts, n, [])
    decreases |ts|, 5
  {
    hide ParseTerm, ArithLoop;
    TermNumbers(ts, n);
    var left := ParseTerm(ts, n);
    if left.Parsed? {
      ArithLoopNumbers(left.e, left.rest, left.params);
      LoopNumbers(left, ts, n, ParseArith(ts, n));
    }
  }

  lemma {:induction false} ComparisonNumbers(ts: seq<Token>, n: nat)
    ensures NumbersParams(ParseComparison(ts, n), ts, n, [])
    decreases |ts|, 6
  {
    hide ParseArith;
    ArithNumbers(ts, n);
    var left := ParseArith(ts, n);
    if left.Parsed? && StartsWithOp(left.rest, {Eq, Ne, Lt, Le, Gt, Ge}) && Next(left.rest).Some? {
      var next := Next(left.rest).value;
      ArithNumbers(next, left.params);
      var right := ParseArith(next, left.params);
      if right.Parsed? {
        var whole := Parsed(Binary(left.rest[0].op, left.e, right.e), right.rest, right.params);
        assert Suffix(right.rest, right.rest);
        OperandNumbers(left.e, left.rest, left.params, right, left.rest[0].op, [], whole, n);
        LoopNumbers(left, ts, n, whole);
      }
    }
  }

  lemma {:induction false} NotNumbers(ts: seq<Token>, n: nat)
    ensures NumbersParams(ParseNot(ts, n), ts, n, [])
    decreases |ts|, 7
  {
    hide ParseComparison;
    if Starts(ts, KwNot) {
      if Next(ts).Some? {
        NextQuestions(ts);
        NotNumbers(Next(ts).value, n);
        var x := ParseNot(Next(ts).value, n);
        if x.Parsed? {
          SuffixTransitive(x.rest, Next(ts).value, ts);
        }
      }
    } else {
      ComparisonNumbers(ts, n);
    }
  }

  lemma {:induction false} AndLoopNumbers(left: Expr, ts: seq<Token>, n: nat)
    ensures NumbersParams(AndLoop(left, ts, n), ts, n, ParamsOf(left))
    decreases |ts|, 8
  {
    hide ParseNot;
    if Starts(ts, KwAnd) && Next(ts).Some? {
      var right := ParseNot(Next(ts).value, n);
      NotNumbers(Next(ts).value, n);
      if right.Parsed? {
        AndLoopNumbers(Binary(And, left, right.e), right.rest, right.params);
        OperandNumbers(left, ts, n, right, And, ParamsOf(left), AndLoop(left, ts, n), n);
      }
    }
  }

  lemma {:induction false} AndNumbers(ts: seq<Token>, n: nat)
    ensures NumbersParams(ParseAnd(ts, n), ts, n, [])
    decreases |ts|, 9
  {
    hide ParseNot, AndLoop;
    NotNumbers(ts, n);
    var left := ParseNot(ts, n);
    if left.Parsed? {
      AndLoopNumbers(left.e, left.rest, left.params);
      LoopNumbers(left, ts, n, ParseAnd(ts, n));
    }
  }

  lemma {:induction false} OrLoopNumbers(left: Expr, ts: seq<Token>, n: nat)
    ensures NumbersParams(OrLoop(left, ts, n), ts, n, ParamsOf(left))
    decreases |ts|, 10
  {
    hide ParseAnd;
    if Starts(ts, KwOr) && Next(ts).Some? {
      var right := ParseAnd(Next(ts).value, n);
      AndNumbers(Next(ts).value, n);
      if right.Parsed? {
        OrLoopNumbers(Binary(Or, left, right.e), right.rest, right.params);
        OperandNumbers(left, ts, n, right, Or, ParamsOf(left), OrLoop(left, ts, n), n);
      }
    }
  }

  /** The k-th question mark of an expression becomes parameter n + k, and n grows by their number. */
  lemma {:induction false} OrNumbers(ts: seq<Token>, n: nat)
    ensures NumbersParams(ParseOr(ts, n), ts, n, [])
    decreases |ts|, 11
  {
    hide ParseAnd, OrLoop;
    AndNumbers(ts, n);
    var left := ParseAnd(ts, n);
    if left.Parsed? {
      OrLoopNumbers(left.e, left.rest, left.params);
      LoopNumbers(left, ts, n, ParseOr(ts, n));
    }
  }

  /** The parser's state: where it stands, whether it has failed, how many parameters it has numbered. */
  class Parser {
    const tokens: seq<Token>
    var pos: nat
    var failed: bool
    var paramCount: nat

    ghost predicate Valid()
      reads this
    {
      pos <= |tokens|
    }

    function Rest(): seq<Token>
      requires Valid()
      reads this
    {
      tokens[pos..]
    }

    constructor (tokens: seq<Token>)
      ensures Valid() && Rest() == tokens && paramCount == 0 && (failed <==> tokens != [] && tokens[0].Invalid?)
    {
      this.tokens := tokens;
      pos, paramCount := 0, 0;
      failed := tokens != [] && tokens[0].Invalid?;
    }

    /** A parse method either fails, which it must when the grammar does, or does what the grammar says. */
    ghost predicate Follows(wasFailed: bool, ts: seq<Token>, n: nat, r: ParseResult, e: Option<Expr>)
      reads this
    {
      && Valid() && (wasFailed ==> failed)
      && (!failed ==> e.Some? && r == Parsed(e.value, Rest(), paramCount) && |Rest()| < |ts|)
    }

    /** The next token becomes current; an invalid one fails the parse. At the end it stays the end. */
    method Advance()
      requires Valid()
      modifies this`pos, this`failed
      ensures Valid() && (old(failed) ==> failed && pos == old(pos))
      ensures !old(failed) && old(Rest()) != [] ==>
        pos == old(pos) + 1 && (failed <==> Next(old(Rest())).None?) && (!failed ==> Next(old(Rest())) == Some(Rest()))
    {
      if failed || pos == |tokens| {
        return;
      }
      assert tokens[pos..][1..] == tokens[pos + 1..];
      pos := pos + 1;
      if pos < |tokens| && tokens[pos].Invalid? {
        failed := true;
      }
    }

    /** A node of the tree, unless memory runs out. */
    method NewNode(node: Expr) returns (e: Option<Expr>)
      requires Valid() && !failed
      modifies this`failed
      ensures Valid() && (!failed ==> e == Some(node)) && (failed ==> e.None?)
    {
      var memory: bool := *;
      if !memory {
        failed := true;
        return None;
      }
      return Some(node);
    }

    method Leaf(node: Expr) returns (e: Option<Expr>)
      requires Valid() && !failed && Rest() != []
      modifies this`pos, this`failed
      ensures Follows(false, old(Rest()), paramCount, Done(node, old(Rest()), paramCount), e)
    {
      e := NewNode(node);
      if !failed {
        Advance();
      }
    }

    method Name() returns (e: Option<Expr>)
      requires Valid() && !failed && Rest() != [] && Rest()[0].Ident?
      modifies this`pos, this`failed
      ensures Follows(false, old(Rest()), paramCount, ParseName(old(Rest()), paramCount), e)
    {
      ghost var ts := Rest();
      var first := Rest()[0].name;
      Advance();
      if failed {
        return None;
      }
      if !Starts(Rest(), Dot) {
        e := NewNode(Column(None, first));
        return;
      }
      Advance();
      if failed {
        return None;
      }
      if Rest() == [] || !Rest()[0].Ident? {
        failed := true;
        return None;
      }
      e := Leaf(Column(Some(first), Rest()[0].name));
    }

    method Primary() returns (e: Option<Expr>)
      requires Valid()
      modifies this`pos, this`failed, this`paramCount
      ensures Follows(old(failed), old(Rest()), old(paramCount), ParsePrimary(old(Rest()), old(paramCount)), e)
      decreases |tokens| - pos, 0
    {
      hide ParseOr, DigitsOf, Unescaped, NumberOf;
      if failed || Rest() == [] {
        failed := true;
        return None;
      }
      match Rest()[0] {
        case Ident(_) =>
          e := Name();
        case LParen =>
          Advance();
          e := OrLevel();
          if failed {
            return None;
          }
          if !Starts(Rest(), RParen) {
            failed := true;
            return None;
          }
          Advance();
        case Digits(text) =>
          var i := IntLiteral(text);
          if i.None? {
            failed := true;
            return None;
          }
          e := Leaf(LitInt(i.value));
        case Quoted(inner) => e := Leaf(LitString(Unescaped(inner)));
        case KwTrue => e := Leaf(LitBool(true));
        case KwFalse => e := Leaf(LitBool(false));
        case KwNull => e := Leaf(LitNull);
        case Question =>
          paramCount := paramCount + 1;
          e := Leaf(Param(paramCount));
        case _ =>
          failed := true;
          return None;
      }
    }

    method Unary() returns (e: Option<Expr>)
      requires Valid()
      modifies this`pos, this`failed, this`paramCount
      ensures Follows(old(failed), old(Rest()), old(paramCount), ParseUnary(old(Rest()), old(paramCount)), e)
      decreases |tokens| - pos, 1
    {
      hide ParsePrimary;
      if failed {
        return None;
      }
      if Starts(Rest(), OpTok(Sub)) {
        Advance();
        e := Unary();
        if failed {
          return None;
        }
        e := NewNode(Neg(e.value));
      } else {
        e := Primary();
      }
    }

    method Term() returns (e: Option<Expr>)
      requires Valid()
      modifies this`pos, this`failed, this`paramCount
      ensures Follows(old(failed), old(Rest()), old(paramCount), ParseTerm(old(Rest()), old(paramCount)), e)
      decreases |tokens| - pos, 2
    {
      hide ParseUnary;
      var left := Unary();
      if failed {
        return None;
      }
      while StartsWithOp(Rest(), {Mul, Div})
        invariant Valid() && !failed && left.Some? && |Rest()| < |old(Rest())| && !old(failed)
        invariant ParseTerm(old(Rest()), old(paramCount)) == TermLoop(left.value, Rest(), paramCount)
        decreases |tokens| - pos
      {
        var op := Rest()[0].op;
        Advance();
        var right := Unary();
        if failed {
          return None;
        }
        left := NewNode(Binary(op, left.value, right.value));
        if failed {
          return None;
        }
      }
      return left;
    }

    method Arith() returns (e: Option<Expr>)
      requires Valid()
      modifies this`pos, this`failed, this`paramCount
      ensures Follows(old(failed), old(Rest()), old(paramCount), ParseArith(old(Rest()), old(paramCount)), e)
      decreases |tokens| - pos, 3
    {
      hide ParseTerm;
      var left := Term();
      if failed {
        return None;
      }
      while StartsWithOp(Rest(), {Add, Sub})
        invariant Valid() && !failed && left.Some? && |Rest()| < |old(Rest())| && !old(failed)
        invariant ParseArith(old(Rest()), old(paramCount)) == ArithLoop(left.value, Rest(), paramCount)
        decreases |tokens| - pos
      {
        var op := Rest()[0].op;
        Advance();
        var right := Term();
        if failed {
          return None;
        }
        left := NewNode(Binary(op, left.value, right.value));
        if failed {
          return None;
        }
      }
      return left;
    }

    method Comparison() returns (e: Option<Expr>)
      requires Valid()
      modifies this`pos, this`failed, this`paramCount
      ensures Follows(old(failed), old(Rest()), old(paramCount), ParseComparison(old(Rest()), old(paramCount)), e)
      decreases |tokens| - pos, 4
    {
      hide ParseArith;
      e := Arith();
      if failed {
        return None;
      }
      if !StartsWithOp(Rest(), {Eq, Ne, Lt, Le, Gt, Ge}) {
        return;
      }
      var op := Rest()[0].op;
      Advance();
      var right := Arith();
      if failed {
        return None;
      }
      e := NewNode(Binary(op, e.value, right.value));
    }

    method NotLevel() returns (e: Option<Expr>)
      requires Valid()
      modifies this`pos, this`failed, this`paramCount
      ensures Follows(old(failed), old(Rest()), old(paramCount), ParseNot(old(Rest()), old(paramCount)), e)
      decreases |tokens| - pos, 5
    {
      hide ParseComparison;
      if failed {
        return None;
      }
      if Starts(Rest(), KwNot) {
        Advance();
        e := NotLevel();
        if failed {
          return None;
        }
        e := NewNode(Not(e.value));
      } else {
        e := Comparison();
      }
    }

    method AndLevel() returns (e: Option<Expr>)
      requires Valid()
      modifies this`pos, this`failed, this`paramCount
      ensures Follows(old(failed), old(Rest()), old(paramCount), ParseAnd(old(Rest()), old(paramCount)), e)
      decreases |tokens| - pos, 6
    {
      hide ParseNot;
      var left := NotLevel();
      if failed {
        return None;
      }
      while Starts(Rest(), KwAnd)
        invariant Valid() && !failed && left.Some? && |Rest()| < |old(Rest())| && !old(failed)
        invariant ParseAnd(old(Rest()), old(paramCount)) == AndLoop(left.value, Rest(), paramCount)
        decreases |tokens| - pos
      {
        var op := And;
        Advance();
        var right := NotLevel();
        if failed {
          return None;
        }
        left := NewNode(Binary(op, left.value, right.value));
        if failed {
          return None;
        }
      }
      return left;
    }

    method OrLevel() returns (e: Option<Expr>)
      requires Valid()
      modifies this`pos, this`failed, this`paramCount
      ensures Follows(old(failed), old(Rest()), old(paramCount), ParseOr(old(Rest()), old(paramCount)), e)
      decreases |tokens| - pos, 7
    {
      hide ParseAnd;
      var left := AndLevel();
      if failed {
        return None;
      }
      while Starts(Rest(), KwOr)
        invariant Valid() && !failed && left.Some? && |Rest()| < |old(Rest())| && !old(failed)
        invariant ParseOr(old(Rest()), old(paramCount)) == OrLoop(left.value, Rest(), paramCount)
        decreases |tokens| - pos
      {
        var op := Or;
        Advance();
        var right := AndLevel();
        if failed {
          return None;
        }
        left := NewNode(Binary(op, left.value, right.value));
        if failed {
          return None;
        }
      }
      return left;
    }
  }
}
