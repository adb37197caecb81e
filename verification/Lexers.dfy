/**
 The scanner: trivia, words, numbers, string literals and operators over the bytes of the
 source. Every call returns the end of the input or moves forward, and a string literal is
 scanned to its own closing apostrophe.
 */
module Lexers {
  import opened Values
  import opened Parsers

  datatype Kind = EndOfInput | InvalidText | Word | Integer | Decimal | StringText | Symbol

  /** A token as a stretch of the source. */
  datatype Lexeme = Lexeme(kind: Kind, start: nat, len: nat, line: nat)

  const NEWLINE: byte := 10
  const MINUS: byte := 45
  const POINT: byte := 46

  predicate IsDigit(c: byte) {
    48 <= c <= 57
  }

  predicate WordStart(c: byte) {
    (65 <= c <= 90) || (97 <= c <= 122) || c == 95
  }

  predicate WordPart(c: byte) {
    WordStart(c) || IsDigit(c)
  }

  /** peek_at: a NUL past the end, so a NUL in the source looks like the end. */
  function Peek(src: Bytes, p: nat): byte {
    if p < |src| then src[p] else 0
  }

  datatype Spot = Spot(pos: nat, line: nat)

  function LineEnd(src: Bytes, p: nat): (q: nat)
    requires p <= |src|
    ensures p <= q <= |src| && (q < |src| ==> src[q] == NEWLINE) && NEWLINE !in src[p .. q]
    decreases |src| - p
  {
    if p == |src| || src[p] == NEWLINE then p
    else
      assert forall q :: p < q <= |src| ==> src[p..q] == [src[p]] + src[p + 1..q];
      LineEnd(src, p + 1)
  }

  predicate Blank(c: byte) {
    c == 32 || c == 9 || c == 13
  }

  /** skip_trivia: blanks, line feeds and comments. */
  function SkipTrivia(src: Bytes, p: nat, line: nat): (r: Spot)
    requires p <= |src|
    ensures p <= r.pos <= |src|
    ensures r.pos < |src| ==> src[r.pos] != NEWLINE && !Blank(src[r.pos]) && !(src[r.pos] == MINUS && Peek(src, r.pos + 1) == MINUS)
    decreases |src| - p
  {
    if p == |src| then Spot(p, line)
    else if src[p] == NEWLINE then SkipTrivia(src, p + 1, line + 1)
    else if Blank(src[p]) then SkipTrivia(src, p + 1, line)
    else if src[p] == MINUS && Peek(src, p + 1) == MINUS then SkipTrivia(src, LineEnd(src, p + 1), line)
    else Spot(p, line)
  }

  function WordEnd(src: Bytes, p: nat): (q: nat)
    requires p <= |src|
    ensures p <= q <= |src| && (forall k :: p <= k < q ==> WordPart(src[k])) && (q < |src| ==> !WordPart(src[q]))
    decreases |src| - p
  {
    if p == |src| || !WordPart(src[p]) then p else WordEnd(src, p + 1)
  }

  function DigitsEnd(src: Bytes, p: nat): (q: nat)
    requires p <= |src|
    ensures p <= q <= |src| && (forall k :: p <= k < q ==> IsDigit(src[k])) && (q < |src| ==> !IsDigit(src[q]))
    decreases |src| - p
  {
    if p == |src| || !IsDigit(src[p]) then p else DigitsEnd(src, p + 1)
  }

  /** Where a string literal ended and how; lines inside it count. */
  datatype StringEnd = StringEnd(closed: bool, pos: nat, line: nat)

  /** From after the opening apostrophe: a doubled one is text, the end or a NUL is an error. */
  function ScanString(src: Bytes, p: nat, line: nat): (r: StringEnd)
    requires p <= |src|
    ensures p <= r.pos <= |src|
    decreases |src| - p
  {
    if Peek(src, p) == 0 then StringEnd(false, p, line)
    else if src[p] == NEWLINE then ScanString(src, p + 1, line + 1)
    else if src[p] != APOSTROPHE then ScanString(src, p + 1, line)
    else if Peek(src, p + 1) == APOSTROPHE then ScanString(src, p + 2, line)
    else StringEnd(true, p + 1, line)
  }

  /** The length of the operator that starts at p, or None if none does. */
  function SymbolLength(src: Bytes, p: nat): (n: Option<nat>)
    requires p < |src|
    ensures n.Some? ==> 0 < n.value && p + n.value <= |src|
  {
    var c, d := src[p], Peek(src, p + 1);
    if c == 33 then (if d == 61 then Some(2) else None)
    else if c == 60 && (d == 61 || d == 62) then Some(2)
    else if c == 62 && d == 61 then Some(2)
    else if c in [40, 41, 42, 43, 44, 45, 46, 47, 59, 60, 61, 62, 63] then Some(1)
    else None
  }

  datatype Scan = Scan(token: Lexeme, pos: nat, line: nat)

  /** lexer_next. */
  function Lex(src: Bytes, p: nat, line: nat): (r: Scan)
    requires p <= |src|
    ensures p <= r.token.start <= r.pos <= |src| && r.token.start + r.token.len == r.pos
    ensures r.token.kind.EndOfInput? <==> SkipTrivia(src, p, line).pos == |src|
    ensures !r.token.kind.EndOfInput? ==> p < r.pos && 0 < r.token.len
  {
    var at := SkipTrivia(src, p, line);
    var i := at.pos;
    if i == |src| then Scan(Lexeme(EndOfInput, i, 0, at.line), i, at.line)
    else if WordStart(src[i]) then
      var q := WordEnd(src, i);
      Scan(Lexeme(Kind.Word, i, q - i, at.line), q, at.line)
    else if IsDigit(src[i]) then
      var q := DigitsEnd(src, i);
      if Peek(src, q) == POINT && IsDigit(Peek(src, q + 1)) then
        var z := DigitsEnd(src, q + 1);
        Scan(Lexeme(Decimal, i, z - i, at.line), z, at.line)
      else Scan(Lexeme(Integer, i, q - i, at.line), q, at.line)
    else if src[i] == APOSTROPHE then
      var end := ScanString(src, i + 1, at.line);
      Scan(Lexeme(if end.closed then StringText else InvalidText, i, end.pos - i, at.line), end.pos, end.line)
    else
      var n := SymbolLength(src, i);
      if n.Some? then Scan(Lexeme(Symbol, i, n.value, at.line), i + n.value, at.line)
      else Scan(Lexeme(InvalidText, i, 1, at.line), i + 1, at.line)
  }

  /******* The scanner's loops *******/

  class Lexer {
    const src: Bytes
    var pos: nat
    var line: nat

    ghost predicate Valid()
      reads this
    {
      pos <= |src|
    }

    constructor (src: Bytes)
      ensures Valid() && this.src == src && pos == 0 && line == 1
    {
      this.src := src;
      pos, line := 0, 1;
    }

    method Skip()
      requires Valid()
      modifies this`pos, this`line
      ensures Valid() && Spot(pos, line) == SkipTrivia(src, old(pos), old(line))
    {
      while true
        invariant Valid() && SkipTrivia(src, pos, line) == SkipTrivia(src, old(pos), old(line))
        decreases |src| - pos
      {
        var c := Peek(src, pos);
        if c == NEWLINE {
          line := line + 1;
          pos := pos + 1;
        } else if Blank(c) {
          pos := pos + 1;
        } else if c == MINUS && Peek(src, pos + 1) == MINUS {
          ghost var start, here := pos, line;
          while pos < |src| && src[pos] != NEWLINE
            invariant start <= pos <= |src| && line == here
            invariant LineEnd(src, pos) == LineEnd(src, start)
            invariant pos == start ==> src[pos] == MINUS
            decreases |src| - pos
          {
            pos := pos + 1;
          }
        } else {
          return;
        }
      }
    }

    method ScanLiteral() returns (closed: bool)
      requires Valid() && pos < |src| && src[pos] == APOSTROPHE
      modifies this`pos, this`line
      ensures Valid() && StringEnd(closed, pos, line) == ScanString(src, old(pos) + 1, old(line))
    {
      var n := 1;
      while true
        invariant 1 <= n && pos == old(pos) && pos + n <= |src|
        invariant ScanString(src, pos + n, line) == ScanString(src, old(pos) + 1, old(line))
        decreases |src| - n
      {
        var c := Peek(src, pos + n);
        if c == 0 {
          pos := pos + n;
          return false;
        }
        if c == NEWLINE {
          line := line + 1;
        }
        if c == APOSTROPHE {
          if Peek(src, pos + n + 1) == APOSTROPHE {
            n := n + 2;
            continue;
          }
          n := n + 1;
          break;
        }
        n := n + 1;
      }
      pos := pos + n;
      return true;
    }

    method ScanWord()
      requires Valid()
      modifies this`pos
      ensures Valid() && pos == WordEnd(src, old(pos))
    {
      var n := 0;
      while WordPart(Peek(src, pos + n))
        invariant pos + n <= |src| && WordEnd(src, pos + n) == WordEnd(src, pos)
        decreases |src| - n
      {
        n := n + 1;
      }
      pos := pos + n;
    }

    /** Digits, and after a point that a digit follows the digits of the fraction. */
    method ScanNumber() returns (decimal: bool)
      requires Valid()
      modifies this`pos
      ensures Valid() && var q := DigitsEnd(src, old(pos));
        && decimal == (Peek(src, q) == POINT && IsDigit(Peek(src, q + 1)))
        && pos == if decimal then DigitsEnd(src, q + 1) else q
    {
      var n := 0;
      while IsDigit(Peek(src, pos + n))
        invariant pos + n <= |src| && DigitsEnd(src, pos + n) == DigitsEnd(src, pos)
        decreases |src| - n
      {
        n := n + 1;
      }
      decimal := Peek(src, pos + n) == POINT && IsDigit(Peek(src, pos + n + 1));
      if decimal {
        ghost var q := pos + n;
        n := n + 1;
        while IsDigit(Peek(src, pos + n))
          invariant q < pos + n <= |src| && DigitsEnd(src, pos + n) == DigitsEnd(src, q + 1)
          decreases |src| - n
        {
          n := n + 1;
        }
      }
      pos := pos + n;
    }

    method NextToken() returns (t: Lexeme)
      requires Valid()
      modifies this`pos, this`line
      ensures Valid() && Scan(t, pos, line) == Lex(src, old(pos), old(line))
    {
      Skip();
      var start, at := pos, line;
      if pos == |src| {
        return Lexeme(EndOfInput, start, 0, at);
      }
      var c := src[pos];
      if WordStart(c) {
        ScanWord();
        return Lexeme(Kind.Word, start, pos - start, at);
      }
      if IsDigit(c) {
        var decimal := ScanNumber();
        return Lexeme(if decimal then Decimal else Integer, start, pos - start, at);
      }
      if c == APOSTROPHE {
        var closed := ScanLiteral();
        return Lexeme(if closed then StringText else InvalidText, start, pos - start, at);
      }
      var n := SymbolLength(src, pos);
      pos := pos + if n.Some? then n.value else 1;
      return Lexeme(if n.Some? then Symbol else InvalidText, start, pos - start, at);
    }
  }

  /******* String literals *******/

  /** A literal with its apostrophes doubled is scanned exactly to its closing apostrophe. */
  lemma {:induction false} EscapedIsScanned(src: Bytes, p: nat, line: nat, s: Bytes, rest: Bytes)
    requires p <= |src| && src[p..] == Escaped(s) + [APOSTROPHE] + rest && 0 !in s
    requires rest == [] || rest[0] != APOSTROPHE
    ensures var r := ScanString(src, p, line); r.closed && r.pos == p + |Escaped(s)| + 1
    decreases |s|
  {
    var code := Escaped(s) + [APOSTROPHE] + rest;
    assert forall k :: 0 <= k < |code| ==> src[p..][k] == src[p + k];
    if s == [] {
      assert src[p] == code[0] == APOSTROPHE;
      assert rest != [] ==> src[p + 1] == code[1] == rest[0];
    } else {
      assert s[0] in s;
      var size := if s[0] == APOSTROPHE then 2 else 1;
      assert src[p] == code[0] == s[0] && (size == 2 ==> src[p + 1] == code[1] == APOSTROPHE);
      assert src[p + size..] == src[p..][size..] == Escaped(s[1..]) + [APOSTROPHE] + rest;
      EscapedIsScanned(src, p + size, if s[0] == NEWLINE then line + 1 else line, s[1..], rest);
    }
  }

  /** Any text without NUL survives being written as a literal, scanned and unescaped. */
  lemma LiteralRoundTrip(src: Bytes, p: nat, line: nat, s: Bytes, rest: Bytes)
    requires p <= |src| && src[p..] == [APOSTROPHE] + Escaped(s) + [APOSTROPHE] + rest && 0 !in s
    requires rest == [] || rest[0] != APOSTROPHE
    ensures var t := Lex(src, p, line).token;
      && t.kind.StringText? && t.start == p && t.len == |Escaped(s)| + 2
      && Unescaped(src[t.start + 1..t.start + t.len - 1]) == s
  {
    var code := Escaped(s);
    assert src[p..][0] == src[p];
    assert src[p + 1..] == src[p..][1..] == code + [APOSTROPHE] + rest;
    EscapedIsScanned(src, p + 1, line, s, rest);
    assert src[p + 1..p + 1 + |code|] == src[p + 1..][..|code|] == code;
    EscapeRoundTrip(s);
  }

  /** One more byte, or one more doubled apostrophe, in front of an escaped text. */
  lemma EscapedInFront(c: byte, rest: Bytes)
    requires Escaped(Unescaped(rest)) == rest
    ensures c != APOSTROPHE ==> Escaped(Unescaped([c] + rest)) == [c] + rest
    ensures Escaped(Unescaped([APOSTROPHE, APOSTROPHE] + rest)) == [APOSTROPHE, APOSTROPHE] + rest
  {
    assert ([c] + rest)[1..] == rest && ([APOSTROPHE, APOSTROPHE] + rest)[2..] == rest;
    assert ([c] + Unescaped(rest))[1..] == Unescaped(rest) && ([APOSTROPHE] + Unescaped(rest))[1..] == Unescaped(rest);
  }

  /** Conversely, whatever is scanned as a literal is the escaped form of the text it denotes. */
  lemma {:induction false} ScannedIsEscaped(src: Bytes, p: nat, line: nat)
    requires p <= |src| && ScanString(src, p, line).closed
    ensures p < ScanString(src, p, line).pos
    ensures var inner := src[p..ScanString(src, p, line).pos - 1]; Escaped(Unescaped(inner)) == inner
    decreases |src| - p
  {
    hide Escaped, Unescaped;
    var end := ScanString(src, p, line).pos;
    if src[p] != APOSTROPHE {
      ScannedIsEscaped(src, p + 1, if src[p] == NEWLINE then line + 1 else line);
      EscapedInFront(src[p], src[p + 1..end - 1]);
      assert src[p..end - 1] == [src[p]] + src[p + 1..end - 1];
    } else if Peek(src, p + 1) == APOSTROPHE {
      ScannedIsEscaped(src, p + 2, line);
      EscapedInFront(APOSTROPHE, src[p + 2..end - 1]);
      assert src[p..end - 1] == [APOSTROPHE, APOSTROPHE] + src[p + 2..end - 1];
    } else {
      assert src[p..end - 1] == [] && Escaped(Unescaped([])) == [] by { NothingEscaped(); }
    }
  }

  lemma NothingEscaped()
    ensures Escaped(Unescaped([])) == []
  {
  }

  /******* The whole source *******/

  /** All tokens up to the end of the input. */
  function LexAll(src: Bytes, p: nat, line: nat): (ts: seq<Lexeme>)
    requires p <= |src|
    ensures |ts| <= |src| - p
    decreases |src| - p
  {
    var r := Lex(src, p, line);
    if r.token.kind.EndOfInput? then [] else [r.token] + LexAll(src, r.pos, r.line)
  }

  /** Tokens come in the order of the source, do not overlap, and none is empty. */
  lemma {:induction false} TokensAdvance(src: Bytes, p: nat, line: nat, k: nat)
    requires p <= |src| && k < |LexAll(src, p, line)|
    ensures var ts := LexAll(src, p, line);
      && p <= ts[k].start && 0 < ts[k].len && ts[k].start + ts[k].len <= |src|
      && (k + 1 < |ts| ==> ts[k].start + ts[k].len <= ts[k + 1].start)
    decreases |src| - p
  {
    var r := Lex(src, p, line);
    if k > 0 {
      TokensAdvance(src, r.pos, r.line, k - 1);
    } else if |LexAll(src, r.pos, r.line)| > 0 {
      TokensAdvance(src, r.pos, r.line, 0);
    }
  }

  /******* What a token is *******/

  const OPERATORS: seq<string> := ["!=", "<=", "<>", ">=", "<", ">", "=", "+", "-", "*", "/", "(", ")", ",", ".", ";", "?"]

  predicate SpelledAt(src: Bytes, p: nat, w: string) {
    p + |w| <= |src| && forall k :: 0 <= k < |w| ==> src[p + k] == w[k] as int
  }

  /** Maximal munch: of the operators spelled at p the longest, and none exactly if none is. */
  lemma SymbolIsLongest(src: Bytes, p: nat)
    requires p < |src|
    ensures var n := SymbolLength(src, p);
      && (n.Some? <==> exists k :: 0 <= k < |OPERATORS| && SpelledAt(src, p, OPERATORS[k]))
      && (n.Some? ==>
            && (exists k :: 0 <= k < |OPERATORS| && SpelledAt(src, p, OPERATORS[k]) && |OPERATORS[k]| == n.value)
            && forall k :: 0 <= k < |OPERATORS| && SpelledAt(src, p, OPERATORS[k]) ==> |OPERATORS[k]| <= n.value)
  {
    var n := SymbolLength(src, p);
    forall k | 0 <= k < |OPERATORS| && SpelledAt(src, p, OPERATORS[k]) ensures n.Some? && |OPERATORS[k]| <= n.value {
      assert src[p + 0] == OPERATORS[k][0] as int;
      assert |OPERATORS[k]| == 2 ==> src[p + 1] == OPERATORS[k][1] as int;
    }
    if n.Some? {
      var k := OperatorIndex(src, p);
    }
  }

  lemma OperatorIndex(src: Bytes, p: nat) returns (k: nat)
    requires p < |src| && SymbolLength(src, p).Some?
    ensures k < |OPERATORS| && SpelledAt(src, p, OPERATORS[k]) && |OPERATORS[k]| == SymbolLength(src, p).value
  {
    var c, d := src[p], Peek(src, p + 1);
    if SymbolLength(src, p).value == 2 {
      k := if c == 33 then 0 else if c == 62 then 3 else if d == 61 then 1 else 2;
    } else {
      k := match c
        case 60 => 4 case 62 => 5 case 61 => 6 case 43 => 7 case 45 => 8 case 42 => 9 case 47 => 10
        case 40 => 11 case 41 => 12 case 44 => 13 case 46 => 14 case 59 => 15 case _ => 16;
    }
  }

  lemma ByteClasses(c: byte)
    ensures var a := c as char;
      && (IsDigit(c) <==> '0' <= a <= '9') && (WordStart(c) <==> 'A' <= a <= 'Z' || 'a' <= a <= 'z' || a == '_')
      && (Blank(c) <==> a in [' ', '\t', '\r']) && (c == NEWLINE <==> a == '\n')
      && (c == APOSTROPHE <==> a == '\'') && (c == POINT <==> a == '.') && (c == MINUS <==> a == '-')
  {
  }

  predicate AllWord(src: Bytes, p: nat, q: nat) {
    p <= q <= |src| && forall k :: p <= k < q ==> WordPart(src[k])
  }

  predicate AllDigit(src: Bytes, p: nat, q: nat) {
    p <= q <= |src| && forall k :: p <= k < q ==> IsDigit(src[k])
  }

  /** A point with a digit behind it. */
  predicate FractionAt(src: Bytes, p: nat) {
    p + 1 < |src| && src[p] == POINT && IsDigit(src[p + 1])
  }

  /** An apostrophe, a text without NUL whose apostrophes are doubled, and an apostrophe that no third one follows. */
  predicate IsLiteral(src: Bytes, i: nat, end: nat) {
    && i + 1 < end <= |src| && src[i] == APOSTROPHE && src[end - 1] == APOSTROPHE && (end < |src| ==> src[end] != APOSTROPHE)
    && var inner := src[i + 1..end - 1]; 0 !in inner && Escaped(Unescaped(inner)) == inner
  }

  /** The stretch is a whole token of this kind: it is well formed, and the next byte does not belong to it. */
  ghost predicate IsToken(src: Bytes, kind: Kind, i: nat, end: nat)
    requires i < end <= |src|
  {
    match kind
    case Word => WordStart(src[i]) && AllWord(src, i, end) && (end < |src| ==> !WordPart(src[end]))
    case Integer => AllDigit(src, i, end) && (end < |src| ==> !IsDigit(src[end])) && !FractionAt(src, end)
    case Decimal =>
      (exists q: nat :: i < q && q + 1 < end && AllDigit(src, i, q) && src[q] == POINT && AllDigit(src, q + 1, end))
      && (end < |src| ==> !IsDigit(src[end]))
    case StringText => IsLiteral(src, i, end)
    case Symbol =>
      && (exists k :: 0 <= k < |OPERATORS| && SpelledAt(src, i, OPERATORS[k]) && i + |OPERATORS[k]| == end)
      && (forall k :: 0 <= k < |OPERATORS| && SpelledAt(src, i, OPERATORS[k]) ==> i + |OPERATORS[k]| <= end)
    case InvalidText =>
      if src[i] == APOSTROPHE then (end < |src| ==> src[end] == 0) && forall z: nat :: !IsLiteral(src, i, z)
      else end == i + 1 && !WordStart(src[i]) && !IsDigit(src[i]) && forall k :: 0 <= k < |OPERATORS| ==> !SpelledAt(src, i, OPERATORS[k])
    case EndOfInput => false
  }

  lemma {:induction false} LiteralEnd(src: Bytes, p: nat, line: nat)
    requires p <= |src|
    ensures var r := ScanString(src, p, line);
      if r.closed then p < r.pos && src[r.pos - 1] == APOSTROPHE && (r.pos < |src| ==> src[r.pos] != APOSTROPHE) && 0 !in src[p..r.pos - 1]
      else r.pos < |src| ==> src[r.pos] == 0
    decreases |src| - p
  {
    if Peek(src, p) != 0 {
      if src[p] != APOSTROPHE {
        LiteralEnd(src, p + 1, if src[p] == NEWLINE then line + 1 else line);
        var r := ScanString(src, p, line);
        assert r.closed ==> src[p..r.pos - 1] == [src[p]] + src[p + 1..r.pos - 1];
      } else if Peek(src, p + 1) == APOSTROPHE {
        LiteralEnd(src, p + 2, line);
        var r := ScanString(src, p, line);
        assert r.closed ==> src[p..r.pos - 1] == [src[p], src[p + 1]] + src[p + 2..r.pos - 1];
      } else {
        assert src[p..p] == [];
      }
    }
  }

  lemma {:induction false} NoNulUnescaped(s: Bytes)
    requires 0 !in s
    ensures 0 !in Unescaped(s)
    decreases |s|
  {
    if s != [] {
      assert s[0] in s;
      NoNulUnescaped(s[1..]);
      if |s| > 1 {
        NoNulUnescaped(s[2..]);
      }
    }
  }

  /** Where a literal stands the scan of it does not run into a NUL or the end. */
  lemma LiteralIsClosed(src: Bytes, i: nat, line: nat, end: nat)
    requires IsLiteral(src, i, end)
    ensures ScanString(src, i + 1, line).closed
  {
    var inner := src[i + 1..end - 1];
    NoNulUnescaped(inner);
    assert src[i + 1..] == inner + [APOSTROPHE] + src[end..];
    EscapedIsScanned(src, i + 1, line, Unescaped(inner), src[end..]);
  }

  lemma NumberToken(src: Bytes, i: nat)
    requires i < |src| && IsDigit(src[i])
    ensures var q := DigitsEnd(src, i);
      if Peek(src, q) == POINT && IsDigit(Peek(src, q + 1)) then
        var z := DigitsEnd(src, q + 1); i < z && IsToken(src, Decimal, i, z)
      else i < q && IsToken(src, Integer, i, q)
  {
    var q := DigitsEnd(src, i);
    if Peek(src, q) == POINT && IsDigit(Peek(src, q + 1)) {
      assert i < q && AllDigit(src, i, q) && AllDigit(src, q + 1, DigitsEnd(src, q + 1));
    }
  }

  lemma LiteralToken(src: Bytes, i: nat, line: nat)
    requires i < |src| && src[i] == APOSTROPHE
    ensures var r := ScanString(src, i + 1, line);
      i < r.pos && IsToken(src, if r.closed then StringText else InvalidText, i, r.pos)
  {
    LiteralEnd(src, i + 1, line);
    if ScanString(src, i + 1, line).closed {
      ScannedIsEscaped(src, i + 1, line);
    } else {
      forall z: nat ensures !IsLiteral(src, i, z) {
        if IsLiteral(src, i, z) {
          LiteralIsClosed(src, i, line, z);
        }
      }
    }
  }

  /** Every token is what its kind says, as long as it can be; an invalid one starts no token at all. */
  lemma TokenMeans(src: Bytes, p: nat, line: nat)
    requires p <= |src|
    ensures var t := Lex(src, p, line).token;
      if t.kind.EndOfInput? then t.start == |src| else IsToken(src, t.kind, t.start, t.start + t.len)
  {
    hide IsToken, ScanString;
    var i := SkipTrivia(src, p, line).pos;
    if i < |src| {
      if WordStart(src[i]) {
        WordToken(src, i);
      } else if IsDigit(src[i]) {
        NumberToken(src, i);
      } else if src[i] == APOSTROPHE {
        LiteralToken(src, i, SkipTrivia(src, p, line).line);
      } else {
        SymbolToken(src, i);
      }
    }
  }

  lemma WordToken(src: Bytes, i: nat)
    requires i < |src| && WordStart(src[i])
    ensures i < WordEnd(src, i) && IsToken(src, Kind.Word, i, WordEnd(src, i))
  {
  }

  lemma SymbolToken(src: Bytes, i: nat)
    requires i < |src| && src[i] != APOSTROPHE && !WordStart(src[i]) && !IsDigit(src[i])
    ensures var n := SymbolLength(src, i);
      if n.Some? then IsToken(src, Symbol, i, i + n.value) else IsToken(src, InvalidText, i, i + 1)
  {
    SymbolIsLongest(src, i);
  }

  /******* What is skipped, and lines *******/

  function Newlines(s: Bytes): nat {
    if s == [] then 0 else Newlines(s[..|s| - 1]) + if s[|s| - 1] == NEWLINE then 1 else 0
  }

  lemma {:induction false} NewlinesConcat(src: Bytes, a: nat, b: nat, c: nat)
    requires a <= b <= c <= |src|
    ensures Newlines(src[a..c]) == Newlines(src[a..b]) + Newlines(src[b..c])
  {
    if b < c {
      NewlinesConcat(src, a, b, c - 1);
      assert src[a..c][..c - a - 1] == src[a..c - 1] && src[b..c][..c - b - 1] == src[b..c - 1];
    } else {
      assert src[b..c] == [];
    }
  }

  lemma NewlinesNext(src: Bytes, a: nat, c: nat)
    requires a < c <= |src|
    ensures Newlines(src[a..c]) == Newlines(src[a + 1..c]) + if src[a] == NEWLINE then 1 else 0
  {
    NewlinesConcat(src, a, a + 1, c);
    assert src[a..a + 1] == [src[a]];
    assert [src[a]][..0] == [];
  }

  lemma {:induction false} NoNewlines(s: Bytes)
    requires NEWLINE !in s
    ensures Newlines(s) == 0
  {
    if s != [] {
      NoNewlines(s[..|s| - 1]);
    }
  }

  /** The comment from p runs to the line feed, or the end of the input, at q. */
  predicate CommentAt(src: Bytes, p: nat, q: nat) {
    && p + 2 <= q <= |src| && src[p] == MINUS && src[p + 1] == MINUS
    && NEWLINE !in src[p..q] && (q < |src| ==> src[q] == NEWLINE)
  }

  /** From p to q there are only blanks, line feeds and whole comments. */
  ghost predicate OnlyTrivia(src: Bytes, p: nat, q: nat)
    requires p <= q <= |src|
    decreases q - p
  {
    || p == q
    || ((Blank(src[p]) || src[p] == NEWLINE) && OnlyTrivia(src, p + 1, q))
    || exists e :: p < e <= q && CommentAt(src, p, e) && OnlyTrivia(src, e, q)
  }

  lemma {:induction false} SkipsOnlyTrivia(src: Bytes, p: nat, line: nat)
    requires p <= |src|
    ensures var r := SkipTrivia(src, p, line); OnlyTrivia(src, p, r.pos) && r.line == line + Newlines(src[p..r.pos])
    decreases |src| - p
  {
    var r := SkipTrivia(src, p, line);
    if p == r.pos {
      assert src[p..p] == [];
    } else if src[p] == NEWLINE || Blank(src[p]) {
      SkipsOnlyTrivia(src, p + 1, if src[p] == NEWLINE then line + 1 else line);
      NewlinesNext(src, p, r.pos);
    } else {
      var e := LineEnd(src, p + 1);
      SkipsOnlyTrivia(src, e, line);
      assert src[p + 1] == MINUS;
      assert e > p + 1;
      assert src[p..e] == [src[p]] + src[p + 1..e];
      assert CommentAt(src, p, e);
      NewlinesConcat(src, p, e, r.pos);
      NoNewlines(src[p..e]);
    }
  }

  lemma {:induction false} LiteralLines(src: Bytes, p: nat, line: nat)
    requires p <= |src|
    ensures var r := ScanString(src, p, line); r.line == line + Newlines(src[p..r.pos])
    decreases |src| - p
  {
    var r := ScanString(src, p, line);
    if Peek(src, p) == 0 {
      assert src[p..p] == [];
    } else if src[p] != APOSTROPHE {
      LiteralLines(src, p + 1, if src[p] == NEWLINE then line + 1 else line);
      NewlinesNext(src, p, r.pos);
    } else if Peek(src, p + 1) == APOSTROPHE {
      LiteralLines(src, p + 2, line);
      NewlinesNext(src, p, r.pos);
      NewlinesNext(src, p + 1, r.pos);
    } else {
      NewlinesNext(src, p, p + 1);
      assert src[p + 1..p + 1] == [];
    }
  }

  lemma LexMoves(src: Bytes, p: nat, line: nat)
    requires p <= |src|
    ensures var r := Lex(src, p, line);
      && OnlyTrivia(src, p, r.token.start) && r.pos == r.token.start + r.token.len
      && r.token.line == line + Newlines(src[p..r.token.start]) && r.line == line + Newlines(src[p..r.pos])
  {
    var at := SkipTrivia(src, p, line);
    var i, r := at.pos, Lex(src, p, line);
    SkipsOnlyTrivia(src, p, line);
    NewlinesConcat(src, p, i, r.pos);
    if i < |src| && src[i] == APOSTROPHE {
      LiteralLines(src, i + 1, at.line);
      NewlinesNext(src, i, r.pos);
    } else {
      TokenHasNoLine(src, p, line);
      NoNewlines(src[i..r.pos]);
    }
  }

  lemma TokenHasNoLine(src: Bytes, p: nat, line: nat)
    requires p <= |src|
    ensures var t := Lex(src, p, line).token;
      t.kind.EndOfInput? || src[t.start] == APOSTROPHE || NEWLINE !in src[t.start..t.start + t.len]
  {
    var t := Lex(src, p, line).token;
    if !t.kind.EndOfInput? && src[t.start] != APOSTROPHE {
      var i, end := t.start, t.start + t.len;
      forall k | i <= k < end ensures src[k] != NEWLINE {
        if t.kind.Symbol? && k == i + 1 {
          assert SymbolLength(src, i) == Some(2);
        }
      }
    }
  }

  /** The source is exactly its tokens with trivia before, between and behind them, and each token knows its line. */
  ghost predicate Reads(src: Bytes, p: nat, line: nat, ts: seq<Lexeme>)
    requires p <= |src|
    decreases |ts|
  {
    if ts == [] then OnlyTrivia(src, p, |src|)
    else
      var t := ts[0];
      var end := t.start + t.len;
      && p <= t.start && 0 < t.len && end <= |src| && OnlyTrivia(src, p, t.start) && IsToken(src, t.kind, t.start, end)
      && t.line == line + Newlines(src[p..t.start])
      && Reads(src, end, line + Newlines(src[p..end]), ts[1..])
  }

  lemma {:induction false} SourceIsTokens(src: Bytes, p: nat, line: nat)
    requires p <= |src|
    ensures Reads(src, p, line, LexAll(src, p, line))
    decreases |src| - p
  {
    hide Lex, IsToken, OnlyTrivia, Newlines;
    var r := Lex(src, p, line);
    LexMoves(src, p, line);
    TokenMeans(src, p, line);
    if !r.token.kind.EndOfInput? {
      SourceIsTokens(src, r.pos, r.line);
      assert ([r.token] + LexAll(src, r.pos, r.line))[1..] == LexAll(src, r.pos, r.line);
    }
  }
}
