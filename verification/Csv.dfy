/**
 The CSV reader and writer of table files (RFC 4180, section 2): the reader gives back what
 the writer wrote, and every call of it ends the input or moves forward.
 */
module Csv {
  import opened Values

  const COMMA: byte := 44
  const QUOTE: byte := 34
  const LF: byte := 10
  const CR: byte := 13
  const MAX_FIELD: int := 0x10_0000

  /******* The writer *******/

  predicate NeedsQuotes(s: Bytes) {
    COMMA in s || QUOTE in s || LF in s || CR in s
  }

  /** Every quote doubled. */
  function Doubled(s: Bytes): Bytes {
    if s == [] then []
    else if s[0] == QUOTE then [QUOTE, QUOTE] + Doubled(s[1..])
    else [s[0]] + Doubled(s[1..])
  }

  function FieldBytes(s: Bytes): Bytes {
    if NeedsQuotes(s) then [QUOTE] + Doubled(s) + [QUOTE] else s
  }

  /** The fields from the first on, separated by commas. */
  function RecordBytes(fields: seq<Bytes>): Bytes {
    if fields == [] then [LF]
    else if |fields| == 1 then FieldBytes(fields[0]) + [LF]
    else FieldBytes(fields[0]) + [COMMA] + RecordBytes(fields[1..])
  }

  function FileBytes(records: seq<seq<Bytes>>): Bytes {
    if records == [] then [] else RecordBytes(records[0]) + FileBytes(records[1..])
  }

  /** csv_field_needs_quotes. */
  method CheckQuotes(s: Bytes) returns (needs: bool)
    ensures needs <==> NeedsQuotes(s)
  {
    var i := 0;
    while i < |s|
      invariant i <= |s| && !NeedsQuotes(s[..i])
    {
      if s[i] == COMMA || s[i] == QUOTE || s[i] == LF || s[i] == CR {
        return true;
      }
      assert s[..i + 1] == s[..i] + [s[i]];
      i := i + 1;
    }
    assert s[..i] == s;
    return false;
  }

  /** write_csv_field onto what is written so far. */
  method WriteField(out: Bytes, s: Bytes) returns (written: Bytes)
    ensures written == out + FieldBytes(s)
  {
    var needs := CheckQuotes(s);
    if !needs {
      return out + s;
    }
    written := out + [QUOTE];
    var i := 0;
    assert s[0..] == s;
    while i < |s|
      invariant i <= |s| && written + Doubled(s[i..]) == out + [QUOTE] + Doubled(s)
    {
      assert s[i..][1..] == s[i + 1..];
      if s[i] == QUOTE {
        written := written + [QUOTE];
      }
      written := written + [s[i]];
      i := i + 1;
    }
    assert written == out + [QUOTE] + Doubled(s) by {
      assert s[i..] == [] && written + Doubled(s[i..]) == written;
    }
    written := written + [QUOTE];
    assert written == out + ([QUOTE] + Doubled(s) + [QUOTE]);
  }

  method WriteRecord(out: Bytes, fields: seq<Bytes>) returns (written: Bytes)
    ensures written == out + RecordBytes(fields)
  {
    written := out;
    var i := 0;
    assert fields[0..] == fields;
    while i < |fields|
      invariant i <= |fields|
      invariant written + (if i == 0 then RecordBytes(fields) else if i == |fields| then [LF] else [COMMA] + RecordBytes(fields[i..])) == out + RecordBytes(fields)
    {
      assert fields[i..][1..] == fields[i + 1..];
      if i > 0 {
        written := written + [COMMA];
      }
      written := WriteField(written, fields[i]);
      i := i + 1;
    }
    written := written + [LF];
  }

  /******* The reader *******/

  datatype FieldError = Unterminated | BadTrailing | TooLarge

  /** Where a field ended, and the line number there. */
  datatype FieldRead =
    | Good(text: Bytes, quoted: bool, next: nat, line: nat)
    | Failed(error: FieldError, next: nat, line: nat)

  datatype Place = Place(next: nat, line: nat)

  /** resync_to_next_row: past the next row end that is not inside quotes. */
  function Resync(d: Bytes, p: nat, line: nat, quoted: bool): (r: Place)
    requires p <= |d|
    ensures p <= r.next <= |d|
    decreases |d| - p
  {
    if p == |d| then Place(p, line)
    else if d[p] == QUOTE then Resync(d, p + 1, line, !quoted)
    else if !quoted && (d[p] == CR || d[p] == LF) then Place(RowEnd(d, p), line + 1)
    else Resync(d, p + 1, if d[p] == LF then line + 1 else line, quoted)
  }

  /** Past a row end; CR LF is one. */
  function RowEnd(d: Bytes, p: nat): (next: nat)
    requires p < |d|
    ensures p < next <= |d|
  {
    if d[p] == CR && p + 1 < |d| && d[p + 1] == LF then p + 2 else p + 1
  }

  /** The rest of a quoted field; text is what was read of it. */
  function ReadQuoted(d: Bytes, p: nat, line: nat, text: Bytes): (r: FieldRead)
    requires p <= |d|
    ensures p <= r.next <= |d|
    decreases |d| - p
  {
    if p == |d| then Failed(Unterminated, p, line)
    else if d[p] == QUOTE && !(p + 1 < |d| && d[p + 1] == QUOTE) then
      if p + 1 < |d| && d[p + 1] != COMMA && d[p + 1] != CR && d[p + 1] != LF then
        var to := Resync(d, p + 1, line, false);
        Failed(BadTrailing, to.next, to.line)
      else Good(text, true, p + 1, line)
    else
      var size := if d[p] == QUOTE then 2 else 1;
      var here := if d[p] == LF then line + 1 else line;
      if |text| + 1 > MAX_FIELD then
        var to := Resync(d, p + size, here, true);
        Failed(TooLarge, to.next, to.line)
      else ReadQuoted(d, p + size, here, text + [d[p]])
  }

  function ReadBare(d: Bytes, p: nat, line: nat, text: Bytes): (r: FieldRead)
    requires p <= |d|
    ensures p <= r.next <= |d|
    ensures p < |d| && d[p] != COMMA && d[p] != CR && d[p] != LF ==> p < r.next
    decreases |d| - p
  {
    if p == |d| || d[p] == COMMA || d[p] == CR || d[p] == LF then Good(text, false, p, line)
    else if |text| + 1 > MAX_FIELD then
      var to := Resync(d, p + 1, line, false);
      Failed(TooLarge, to.next, to.line)
    else ReadBare(d, p + 1, line, text + [d[p]])
  }

  function ReadField(d: Bytes, p: nat, line: nat): (r: FieldRead)
    requires p <= |d|
    ensures p <= r.next <= |d|
    ensures p < |d| && (r.Failed? || (d[p] != COMMA && d[p] != CR && d[p] != LF)) ==> p < r.next
  {
    if p < |d| && d[p] == QUOTE then ReadQuoted(d, p + 1, line, []) else ReadBare(d, p, line, [])
  }

  /** A field as its reader sees it: a C string, which a NUL ends. */
  datatype Field = Field(text: Bytes, quoted: bool)

  function CString(s: Bytes): Bytes {
    if s == [] || s[0] == 0 then [] else [s[0]] + CString(s[1..])
  }

  datatype RecordRead =
    | Fields(fields: seq<Field>, next: nat, line: nat)
    | Broken(error: FieldError, next: nat, line: nat)

  /** A record, the fields already read of it given. */
  function ReadRecord(d: Bytes, p: nat, line: nat, before: seq<Field>): (r: RecordRead)
    requires p <= |d|
    ensures p <= r.next <= |d|
    ensures p < |d| ==> p < r.next
    decreases |d| - p
  {
    var f := ReadField(d, p, line);
    if f.Failed? then Broken(f.error, f.next, f.line)
    else
      var fields := before + [Field(CString(f.text), f.quoted)];
      if f.next == |d| then Fields(fields, f.next, f.line)
      else if d[f.next] == COMMA then ReadRecord(d, f.next + 1, f.line, fields)
      else Fields(fields, RowEnd(d, f.next), f.line + 1)
  }

  /** csv_reader: position, line and the column count of the first record. */
  datatype RowResult = Eof | NoMemory | Row(fields: seq<Field>) | Malformed(line: nat) | WrongCount(line: nat)

  predicate HasBom(d: Bytes) {
    |d| >= 3 && d[0] == 0xEF && d[1] == 0xBB && d[2] == 0xBF
  }

  /** A byte-order mark is skipped. */
  function Start(d: Bytes): (p: nat)
    ensures p <= |d|
  {
    if HasBom(d) then 3 else 0
  }

  class CsvReader {
    const data: Bytes
    var pos: nat
    var line: nat
    var nCols: nat
    var scratch: Bytes

    ghost predicate Valid()
      reads this
    {
      pos <= |data|
    }

    constructor (data: Bytes)
      ensures Valid() && this.data == data && pos == Start(data) && line == 1 && nCols == 0
    {
      this.data := data;
      pos := Start(data);
      line, nCols, scratch := 1, 0, [];
    }

    method SkipToNextRow(quoted: bool)
      requires Valid()
      modifies this`pos, this`line
      ensures Valid() && Place(pos, line) == Resync(data, old(pos), old(line), quoted)
    {
      var inQuotes := quoted;
      while pos < |data|
        invariant Valid() && Resync(data, pos, line, inQuotes) == Resync(data, old(pos), old(line), quoted)
        decreases |data| - pos
      {
        var c := data[pos];
        if c == QUOTE {
          inQuotes := !inQuotes;
        } else if !inQuotes && (c == CR || c == LF) {
          pos := RowEnd(data, pos);
          line := line + 1;
          return;
        } else if c == LF {
          line := line + 1;
        }
        pos := pos + 1;
      }
    }

    /** The rest of a quoted field; None when memory runs out. */
    method ReadQuotedField() returns (e: Option<FieldRead>)
      requires Valid()
      modifies this`pos, this`line, this`scratch
      ensures Valid() && old(pos) <= pos
      ensures e.Some? ==> e.value == ReadQuoted(data, old(pos), old(line), []) && e.value.next == pos && e.value.line == line
    {
      scratch := [];
      while true
        invariant Valid() && old(pos) <= pos
        invariant ReadQuoted(data, old(pos), old(line), []) == ReadQuoted(data, pos, line, scratch)
        decreases |data| - pos
      {
        if pos == |data| {
          return Some(Failed(Unterminated, pos, line));
        }
        var c := data[pos];
        if c == QUOTE && !(pos + 1 < |data| && data[pos + 1] == QUOTE) {
          pos := pos + 1;
          if pos < |data| && data[pos] != COMMA && data[pos] != CR && data[pos] != LF {
            SkipToNextRow(false);
            return Some(Failed(BadTrailing, pos, line));
          }
          return Some(Good(scratch, true, pos, line));
        }
        if c == LF {
          line := line + 1;
        }
        var memory: bool := *;
        if !memory {
          return None;
        }
        scratch := scratch + [c];
        pos := pos + if c == QUOTE then 2 else 1;
        if |scratch| > MAX_FIELD {
          SkipToNextRow(true);
          return Some(Failed(TooLarge, pos, line));
        }
      }
    }

    method ReadBareField() returns (e: Option<FieldRead>)
      requires Valid()
      modifies this`pos, this`line, this`scratch
      ensures Valid() && old(pos) <= pos
      ensures e.Some? ==> e.value == ReadBare(data, old(pos), old(line), []) && e.value.next == pos && e.value.line == line
    {
      scratch := [];
      while pos < |data| && data[pos] != COMMA && data[pos] != CR && data[pos] != LF
        invariant Valid() && old(pos) <= pos && line == old(line) && |scratch| <= MAX_FIELD
        invariant ReadBare(data, old(pos), old(line), []) == ReadBare(data, pos, line, scratch)
        decreases |data| - pos
      {
        var memory: bool := *;
        if !memory {
          return None;
        }
        scratch := scratch + [data[pos]];
        pos := pos + 1;
        if |scratch| > MAX_FIELD {
          SkipToNextRow(false);
          return Some(Failed(TooLarge, pos, line));
        }
      }
      return Some(Good(scratch, false, pos, line));
    }

    method ReadOneField() returns (e: Option<FieldRead>)
      requires Valid()
      modifies this`pos, this`line, this`scratch
      ensures Valid() && old(pos) <= pos
      ensures e.Some? ==> e.value == ReadField(data, old(pos), old(line)) && e.value.next == pos && e.value.line == line
    {
      if pos < |data| && data[pos] == QUOTE {
        pos := pos + 1;
        e := ReadQuotedField();
      } else {
        e := ReadBareField();
      }
    }

    /** csv_reader_next_row: at the end of the input, or one record on. */
    method NextRow() returns (r: RowResult)
      requires Valid()
      modifies this
      ensures Valid()
      ensures r.Eof? <==> old(pos) == |data|
      ensures r.Eof? ==> pos == old(pos)
      ensures !r.Eof? && !r.NoMemory? ==> old(pos) < pos
      ensures !r.Eof? && !r.NoMemory? ==>
        var read := ReadRecord(data, old(pos), old(line), []);
        && pos == read.next && line == read.line
        && if read.Broken? then r == Malformed(old(line)) && nCols == old(nCols)
           else
             && nCols == (if old(nCols) == 0 then |read.fields| else old(nCols))
             && r == if |read.fields| == nCols then Row(read.fields) else WrongCount(old(line))
    {
      if pos == |data| {
        return Eof;
      }
      var startLine := line;
      var fields: seq<Field> := [];
      var more := true;
      while more
        invariant Valid() && old(pos) <= pos && nCols == old(nCols)
        invariant if more then ReadRecord(data, old(pos), old(line), []) == ReadRecord(data, pos, line, fields)
                  else ReadRecord(data, old(pos), old(line), []) == RecordRead.Fields(fields, pos, line)
        decreases more, |data| - pos
      {
        var e := ReadOneField();
        if e.None? {
          return NoMemory;
        }
        if e.value.Failed? {
          return Malformed(startLine);
        }
        fields := fields + [Field(CString(e.value.text), e.value.quoted)];
        if pos == |data| {
          more := false;
        } else if data[pos] == COMMA {
          pos := pos + 1;
        } else {
          pos := RowEnd(data, pos);
          line := line + 1;
          more := false;
        }
      }
      if nCols == 0 {
        nCols := |fields|;
      }
      return if |fields| == nCols then Row(fields) else WrongCount(startLine);
    }
  }

  /******* Round trip *******/

  /** What follows a known beginning. */
  lemma After(d: Bytes, p: nat, a: Bytes, rest: Bytes)
    requires p <= |d| && d[p..] == a + rest
    ensures p + |a| <= |d| && d[p + |a|..] == rest
    ensures (rest != [] ==> p + |a| < |d| && d[p + |a|] == rest[0]) && (a != [] ==> d[p] == a[0])
  {
    assert d[p..][|a|..] == rest && d[p + |a|..] == d[p..][|a|..];
    assert a != [] ==> d[p] == d[p..][0];
    assert rest != [] ==> d[p + |a|] == d[p + |a|..][0];
  }

  /** A field that is not too long to be read. */
  predicate Carried(s: Bytes) {
    |s| <= MAX_FIELD
  }

  lemma {:induction false} CStringWhole(s: Bytes)
    requires 0 !in s
    ensures CString(s) == s
  {
    if s != [] {
      CStringWhole(s[1..]);
    }
  }

  predicate EndsField(c: byte) {
    c == COMMA || c == LF
  }

  /** Reading a doubled text up to its closing quote gives the text back. */
  lemma {:induction false} QuotedRoundTrip(d: Bytes, p: nat, line: nat, text: Bytes, s: Bytes, rest: Bytes) returns (after: nat)
    requires p <= |d| && d[p..] == Doubled(s) + [QUOTE] + rest && rest != [] && EndsField(rest[0]) && |text| + |s| <= MAX_FIELD
    ensures ReadQuoted(d, p, line, text) == Good(text + s, true, p + |Doubled(s)| + 1, after)
    decreases |s|
  {
    var code := Doubled(s) + [QUOTE];
    assert forall k :: 0 <= k < |d| - p ==> d[p + k] == d[p..][k];
    if s == [] {
      assert d[p] == QUOTE && d[p + 1] == rest[0];
      assert text + s == text;
      after := line;
    } else {
      var size := if s[0] == QUOTE then 2 else 1;
      assert d[p] == s[0] && (s[0] == QUOTE ==> d[p + 1] == QUOTE);
      assert d[p + size..] == d[p..][size..] == Doubled(s[1..]) + [QUOTE] + rest;
      after := QuotedRoundTrip(d, p + size, if s[0] == LF then line + 1 else line, text + [s[0]], s[1..], rest);
      assert text + [s[0]] + s[1..] == text + s;
    }
  }

  lemma {:induction false} BareRoundTrip(d: Bytes, p: nat, line: nat, text: Bytes, s: Bytes, rest: Bytes)
    requires p <= |d| && d[p..] == s + rest && rest != [] && EndsField(rest[0]) && |text| + |s| <= MAX_FIELD
    requires !NeedsQuotes(s)
    ensures ReadBare(d, p, line, text) == Good(text + s, false, p + |s|, line)
    decreases |s|
  {
    assert d[p] == d[p..][0];
    if s == [] {
      assert text + s == text;
    } else {
      assert s[0] in s && d[p] == s[0];
      assert d[p + 1..] == d[p..][1..] == s[1..] + rest;
      BareRoundTrip(d, p + 1, line, text + [s[0]], s[1..], rest);
      assert text + [s[0]] + s[1..] == text + s;
    }
  }

  lemma QuotedFieldRoundTrip(d: Bytes, p: nat, line: nat, s: Bytes, rest: Bytes) returns (after: nat)
    requires p <= |d| && d[p..] == [QUOTE] + Doubled(s) + [QUOTE] + rest && rest != [] && EndsField(rest[0]) && |s| <= MAX_FIELD
    ensures ReadField(d, p, line) == Good(s, true, p + |Doubled(s)| + 2, after)
  {
    hide ReadQuoted, ReadBare, Doubled;
    assert [QUOTE] + Doubled(s) + [QUOTE] + rest == [QUOTE] + (Doubled(s) + [QUOTE] + rest);
    After(d, p, [QUOTE], Doubled(s) + [QUOTE] + rest);
    after := QuotedRoundTrip(d, p + 1, line, [], s, rest);
    assert [] + s == s;
  }

  lemma BareFieldRoundTrip(d: Bytes, p: nat, line: nat, s: Bytes, rest: Bytes)
    requires p <= |d| && d[p..] == s + rest && rest != [] && EndsField(rest[0]) && |s| <= MAX_FIELD && !NeedsQuotes(s)
    ensures ReadField(d, p, line) == Good(s, false, p + |s|, line)
  {
    NotAQuote(s, rest);
    After(d, p, [], s + rest);
    hide ReadQuoted, ReadBare, NeedsQuotes;
    BareRoundTrip(d, p, line, [], s, rest);
    assert [] + s == s;
  }

  /** A written field followed by a comma or a line feed is read back, quoted exactly if it had to be. */
  lemma FieldRoundTrip(d: Bytes, p: nat, line: nat, s: Bytes, rest: Bytes) returns (after: nat)
    requires p <= |d| && d[p..] == FieldBytes(s) + rest && rest != [] && EndsField(rest[0]) && |s| <= MAX_FIELD
    ensures ReadField(d, p, line) == Good(s, NeedsQuotes(s), p + |FieldBytes(s)|, after)
    ensures p + |FieldBytes(s)| < |d| && d[p + |FieldBytes(s)|..] == rest && d[p + |FieldBytes(s)|] == rest[0]
  {
    hide ReadField, Doubled, NeedsQuotes;
    After(d, p, FieldBytes(s), rest);
    if NeedsQuotes(s) {
      after := QuotedFieldRoundTrip(d, p, line, s, rest);
    } else {
      BareFieldRoundTrip(d, p, line, s, rest);
      after := line;
    }
  }

  lemma NotAQuote(s: Bytes, rest: Bytes)
    requires !NeedsQuotes(s) && rest != [] && EndsField(rest[0])
    ensures (s + rest)[0] != QUOTE && [] + (s + rest) == s + rest
  {
    assert s != [] ==> s[0] in s && (s + rest)[0] == s[0];
  }

  /** d[p..next] is a field, and the input or the record goes on behind it: quoted with its quotes doubled, or without a delimiter in it. */
  predicate IsField(d: Bytes, p: nat, text: Bytes, quoted: bool, next: nat) {
    && p <= next <= |d| && |text| <= MAX_FIELD && (next < |d| ==> d[next] == COMMA || d[next] == CR || d[next] == LF)
    && (quoted <==> p < |d| && d[p] == QUOTE)
    && d[p..next] == (if quoted then [QUOTE] + Doubled(text) + [QUOTE] else text)
    && (!quoted ==> COMMA !in text && CR !in text && LF !in text)
  }

  lemma {:induction false} QuotedAsRead(d: Bytes, p: nat, line: nat, text: Bytes) returns (s: Bytes)
    requires p <= |d| && |text| <= MAX_FIELD
    ensures var r := ReadQuoted(d, p, line, text);
      r.Good? ==>
        && r.quoted && r.text == text + s && d[p..r.next] == Doubled(s) + [QUOTE] && |r.text| <= MAX_FIELD
        && (r.next < |d| ==> d[r.next] == COMMA || d[r.next] == CR || d[r.next] == LF)
    decreases |d| - p
  {
    var r := ReadQuoted(d, p, line, text);
    s := [];
    if r.Good? {
      if d[p] == QUOTE && !(p + 1 < |d| && d[p + 1] == QUOTE) {
        assert d[p..r.next] == [QUOTE] && text + [] == text;
      } else {
        var size := if d[p] == QUOTE then 2 else 1;
        var more := QuotedAsRead(d, p + size, if d[p] == LF then line + 1 else line, text + [d[p]]);
        s := [d[p]] + more;
        assert text + [d[p]] + more == text + s && s[1..] == more;
        assert d[p..r.next] == d[p..p + size] + d[p + size..r.next];
        assert d[p..p + size] == if size == 2 then [QUOTE, QUOTE] else [d[p]];
      }
    }
  }

  lemma {:induction false} BareAsRead(d: Bytes, p: nat, line: nat, text: Bytes)
    requires p <= |d| && |text| <= MAX_FIELD && COMMA !in text && CR !in text && LF !in text
    ensures var r := ReadBare(d, p, line, text);
      r.Good? ==>
        && !r.quoted && r.text == text + d[p..r.next] && |r.text| <= MAX_FIELD && COMMA !in r.text && CR !in r.text && LF !in r.text
        && (r.next < |d| ==> d[r.next] == COMMA || d[r.next] == CR || d[r.next] == LF)
    decreases |d| - p
  {
    var r := ReadBare(d, p, line, text);
    if r.Good? {
      if p == |d| || d[p] == COMMA || d[p] == CR || d[p] == LF {
        assert d[p..p] == [] && text + [] == text;
      } else {
        BareAsRead(d, p + 1, line, text + [d[p]]);
        assert text + [d[p]] + d[p + 1..r.next] == text + d[p..r.next];
      }
    }
  }

  /** Whatever is read as a field is one, on any input. */
  lemma ReadFieldMeans(d: Bytes, p: nat, line: nat)
    requires p <= |d|
    ensures var r := ReadField(d, p, line); r.Good? ==> IsField(d, p, r.text, r.quoted, r.next)
  {
    hide ReadQuoted, ReadBare, Doubled;
    var r := ReadField(d, p, line);
    if p < |d| && d[p] == QUOTE {
      var s := QuotedAsRead(d, p + 1, line, []);
      if r.Good? {
        assert [] + s == s && d[p..r.next] == [QUOTE] + d[p + 1..r.next];
      }
    } else {
      BareAsRead(d, p, line, []);
      assert r.Good? ==> [] + d[p..r.next] == d[p..r.next];
    }
  }

  /** What reading gives of a field: the text up to its first NUL, flagged quoted if it had to be. */
  function FieldAsRead(s: Bytes): Field {
    Field(CString(s), NeedsQuotes(s))
  }

  function AsRead(fields: seq<Bytes>): seq<Field> {
    seq(|fields|, k requires 0 <= k < |fields| => FieldAsRead(fields[k]))
  }

  predicate AllCarried(fields: seq<Bytes>) {
    forall k :: 0 <= k < |fields| ==> Carried(fields[k])
  }

  /** What follows the first field of a written record. */
  function Tail(fields: seq<Bytes>): (t: Bytes)
    requires fields != []
    ensures t != [] && EndsField(t[0]) && RecordBytes(fields) == FieldBytes(fields[0]) + t
  {
    if |fields| == 1 then [LF]
    else
      assert RecordBytes(fields) == FieldBytes(fields[0]) + ([COMMA] + RecordBytes(fields[1..]));
      [COMMA] + RecordBytes(fields[1..])
  }

  lemma ReadRecordStep(d: Bytes, p: nat, line: nat, before: seq<Field>)
    requires p <= |d| && ReadField(d, p, line).Good? && ReadField(d, p, line).next < |d|
    ensures var f := ReadField(d, p, line);
      var fields := before + [Field(CString(f.text), f.quoted)];
      && (d[f.next] == COMMA ==> ReadRecord(d, p, line, before) == ReadRecord(d, f.next + 1, f.line, fields))
      && (d[f.next] == LF ==> ReadRecord(d, p, line, before) == RecordRead.Fields(fields, f.next + 1, f.line + 1))
  {
    hide ReadField, CString;
  }

  /** A written record is read back field by field. */
  lemma {:induction false} RecordRoundTrip(d: Bytes, p: nat, line: nat, before: seq<Field>, fields: seq<Bytes>, rest: Bytes) returns (after: nat)
    requires p <= |d| && d[p..] == RecordBytes(fields) + rest && fields != [] && AllCarried(fields)
    ensures ReadRecord(d, p, line, before) == RecordRead.Fields(before + AsRead(fields), p + |RecordBytes(fields)|, after)
    decreases |fields|
  {
    hide ReadField, FieldBytes, RecordBytes, NeedsQuotes, CString, AsRead, AllCarried, Carried, ReadRecord;
    FirstCarried(fields);
    var s, tail := fields[0], Tail(fields);
    assert RecordBytes(fields) + rest == FieldBytes(s) + (tail + rest);
    var end := FieldRoundTrip(d, p, line, s, tail + rest);
    ReadRecordStep(d, p, line, before);
    var next := p + |FieldBytes(s)|;
    var first := FieldAsRead(s);
    AsReadFirst(fields);
    After(d, next, tail, rest);
    if |fields| == 1 {
      after := end + 1;
    } else {
      assert tail + rest == [COMMA] + (RecordBytes(fields[1..]) + rest);
      After(d, next, [COMMA], RecordBytes(fields[1..]) + rest);
      after := RecordRoundTrip(d, next + 1, end, before + [first], fields[1..], rest);
      assert before + [first] + AsRead(fields[1..]) == before + ([first] + AsRead(fields[1..]));
    }
  }

  lemma FirstCarried(fields: seq<Bytes>)
    requires AllCarried(fields) && fields != []
    ensures |fields[0]| <= MAX_FIELD && AllCarried(fields[1..])
  {
  }

  lemma AsReadFirst(fields: seq<Bytes>)
    requires fields != []
    ensures AsRead(fields) == [FieldAsRead(fields[0])] + AsRead(fields[1..])
    ensures |fields| == 1 ==> AsRead(fields) == [FieldAsRead(fields[0])]
  {
  }

  /******* Records too long to be read *******/

  /** Resynchronising inside a written quoted field comes out behind it. */
  lemma {:induction false} ResyncQuoted(d: Bytes, p: nat, line: nat, s: Bytes, rest: Bytes) returns (after: nat)
    requires p <= |d| && d[p..] == Doubled(s) + [QUOTE] + rest
    ensures p + |Doubled(s)| + 1 <= |d|
    ensures Resync(d, p, line, true) == Resync(d, p + |Doubled(s)| + 1, after, false)
    decreases |s|
  {
    assert forall k :: 0 <= k < |d| - p ==> d[p + k] == d[p..][k];
    if s == [] {
      assert d[p] == QUOTE;
      after := line;
    } else {
      var size := if s[0] == QUOTE then 2 else 1;
      assert d[p] == s[0] && (s[0] == QUOTE ==> d[p + 1] == QUOTE);
      assert d[p + size..] == d[p..][size..] == Doubled(s[1..]) + [QUOTE] + rest;
      after := ResyncQuoted(d, p + size, if s[0] == LF then line + 1 else line, s[1..], rest);
    }
  }

  lemma {:induction false} ResyncBare(d: Bytes, p: nat, line: nat, s: Bytes, rest: Bytes)
    requires p <= |d| && d[p..] == s + rest && !NeedsQuotes(s)
    ensures p + |s| <= |d| && Resync(d, p, line, false) == Resync(d, p + |s|, line, false)
    decreases |s|
  {
    if s != [] {
      assert d[p] == d[p..][0] == s[0] && s[0] in s;
      assert d[p + 1..] == d[p..][1..] == s[1..] + rest;
      ResyncBare(d, p + 1, line, s[1..], rest);
    }
  }

  lemma ResyncField(d: Bytes, p: nat, line: nat, s: Bytes, rest: Bytes) returns (after: nat)
    requires p <= |d| && d[p..] == FieldBytes(s) + rest
    ensures p + |FieldBytes(s)| <= |d| && d[p + |FieldBytes(s)|..] == rest
    ensures Resync(d, p, line, false) == Resync(d, p + |FieldBytes(s)|, after, false)
  {
    hide Doubled, NeedsQuotes;
    After(d, p, FieldBytes(s), rest);
    if NeedsQuotes(s) {
      assert [QUOTE] + Doubled(s) + [QUOTE] + rest == [QUOTE] + (Doubled(s) + [QUOTE] + rest);
      After(d, p, [QUOTE], Doubled(s) + [QUOTE] + rest);
      after := ResyncQuoted(d, p + 1, line, s, rest);
    } else {
      ResyncBare(d, p, line, s, rest);
      after := line;
    }
  }

  lemma ResyncSeparator(d: Bytes, p: nat, line: nat)
    requires p < |d|
    ensures d[p] == COMMA ==> Resync(d, p, line, false) == Resync(d, p + 1, line, false)
    ensures d[p] == LF ==> Resync(d, p, line, false) == Place(p + 1, line + 1)
  {
  }

  /** From behind the first field of a written record resynchronising ends at the next record. */
  lemma {:induction false} ResyncTail(d: Bytes, p: nat, line: nat, fields: seq<Bytes>, rest: Bytes) returns (after: nat)
    requires p <= |d| && fields != [] && d[p..] == Tail(fields) + rest
    ensures Resync(d, p, line, false) == Place(p + |Tail(fields)|, after)
    decreases |fields|
  {
    hide FieldBytes, RecordBytes, NeedsQuotes, Resync;
    After(d, p, Tail(fields), rest);
    ResyncSeparator(d, p, line);
    if |fields| == 1 {
      after := line + 1;
    } else {
      var more := fields[1..];
      assert Tail(fields) + rest == [COMMA] + (FieldBytes(more[0]) + (Tail(more) + rest));
      After(d, p, [COMMA], FieldBytes(more[0]) + (Tail(more) + rest));
      var l := ResyncField(d, p + 1, line, more[0], Tail(more) + rest);
      after := ResyncTail(d, p + 1 + |FieldBytes(more[0])|, l, more, rest);
    }
  }

  lemma {:induction false} QuotedTooLong(d: Bytes, p: nat, line: nat, text: Bytes, s: Bytes, rest: Bytes) returns (after: nat)
    requires p <= |d| && d[p..] == Doubled(s) + [QUOTE] + rest && |text| <= MAX_FIELD < |text| + |s|
    ensures p + |Doubled(s)| + 1 <= |d|
    ensures var r := ReadQuoted(d, p, line, text);
      r.Failed? && r.error == TooLarge && Place(r.next, r.line) == Resync(d, p + |Doubled(s)| + 1, after, false)
    decreases |s|
  {
    assert forall k :: 0 <= k < |d| - p ==> d[p + k] == d[p..][k];
    var size := if s[0] == QUOTE then 2 else 1;
    var here := if s[0] == LF then line + 1 else line;
    assert d[p] == s[0] && (s[0] == QUOTE ==> d[p + 1] == QUOTE);
    assert d[p + size..] == d[p..][size..] == Doubled(s[1..]) + [QUOTE] + rest;
    if |text| + 1 > MAX_FIELD {
      after := ResyncQuoted(d, p + size, here, s[1..], rest);
    } else {
      after := QuotedTooLong(d, p + size, here, text + [s[0]], s[1..], rest);
    }
  }

  lemma {:induction false} BareTooLong(d: Bytes, p: nat, line: nat, text: Bytes, s: Bytes, rest: Bytes)
    requires p <= |d| && d[p..] == s + rest && !NeedsQuotes(s) && |text| <= MAX_FIELD < |text| + |s|
    ensures p + |s| <= |d|
    ensures var r := ReadBare(d, p, line, text);
      r.Failed? && r.error == TooLarge && Place(r.next, r.line) == Resync(d, p + |s|, line, false)
    decreases |s|
  {
    assert d[p] == d[p..][0] == s[0] && s[0] in s;
    assert d[p + 1..] == d[p..][1..] == s[1..] + rest;
    if |text| + 1 > MAX_FIELD {
      ResyncBare(d, p + 1, line, s[1..], rest);
    } else {
      BareTooLong(d, p + 1, line, text + [s[0]], s[1..], rest);
    }
  }

  lemma QuotedFieldTooLong(d: Bytes, p: nat, line: nat, s: Bytes, rest: Bytes) returns (after: nat)
    requires p <= |d| && d[p..] == [QUOTE] + Doubled(s) + [QUOTE] + rest && |s| > MAX_FIELD
    ensures p + |Doubled(s)| + 2 <= |d|
    ensures var r := ReadField(d, p, line);
      r.Failed? && r.error == TooLarge && Place(r.next, r.line) == Resync(d, p + |Doubled(s)| + 2, after, false)
  {
    hide ReadQuoted, ReadBare, Doubled, Resync;
    assert [QUOTE] + Doubled(s) + [QUOTE] + rest == [QUOTE] + (Doubled(s) + [QUOTE] + rest);
    After(d, p, [QUOTE], Doubled(s) + [QUOTE] + rest);
    after := QuotedTooLong(d, p + 1, line, [], s, rest);
  }

  lemma BareFieldTooLong(d: Bytes, p: nat, line: nat, s: Bytes, rest: Bytes)
    requires p <= |d| && d[p..] == s + rest && rest != [] && EndsField(rest[0]) && !NeedsQuotes(s) && |s| > MAX_FIELD
    ensures p + |s| <= |d|
    ensures var r := ReadField(d, p, line);
      r.Failed? && r.error == TooLarge && Place(r.next, r.line) == Resync(d, p + |s|, line, false)
  {
    NotAQuote(s, rest);
    After(d, p, [], s + rest);
    hide ReadQuoted, ReadBare, NeedsQuotes, Resync;
    BareTooLong(d, p, line, [], s, rest);
  }

  lemma FieldTooLong(d: Bytes, p: nat, line: nat, s: Bytes, rest: Bytes) returns (after: nat)
    requires p <= |d| && d[p..] == FieldBytes(s) + rest && rest != [] && EndsField(rest[0]) && |s| > MAX_FIELD
    ensures p + |FieldBytes(s)| <= |d| && d[p + |FieldBytes(s)|..] == rest
    ensures var r := ReadField(d, p, line);
      r.Failed? && r.error == TooLarge && Place(r.next, r.line) == Resync(d, p + |FieldBytes(s)|, after, false)
  {
    hide ReadField, Doubled, NeedsQuotes, Resync;
    After(d, p, FieldBytes(s), rest);
    if NeedsQuotes(s) {
      after := QuotedFieldTooLong(d, p, line, s, rest);
    } else {
      BareFieldTooLong(d, p, line, s, rest);
      after := line;
    }
  }

  /** A written record with a field over the limit is skipped as a whole, and nothing behind it. */
  lemma {:induction false} RecordTooLong(d: Bytes, p: nat, line: nat, before: seq<Field>, fields: seq<Bytes>, rest: Bytes) returns (after: nat)
    requires p <= |d| && d[p..] == RecordBytes(fields) + rest && !AllCarried(fields)
    ensures ReadRecord(d, p, line, before) == Broken(TooLarge, p + |RecordBytes(fields)|, after)
    decreases |fields|
  {
    hide ReadField, FieldBytes, RecordBytes, NeedsQuotes, CString, ReadRecord, Resync, Tail;
    var k :| 0 <= k < |fields| && !Carried(fields[k]);
    var s, tail := fields[0], Tail(fields);
    FirstFieldSplit(fields, rest);
    if Carried(s) {
      var end := FieldRoundTrip(d, p, line, s, tail + rest);
      ReadRecordStep(d, p, line, before);
      var next := p + |FieldBytes(s)|;
      After(d, next, [COMMA], RecordBytes(fields[1..]) + rest);
      assert !Carried(fields[1..][k - 1]);
      after := RecordTooLong(d, next + 1, end, before + [Field(CString(s), NeedsQuotes(s))], fields[1..], rest);
    } else {
      after := FirstTooLong(d, p, line, before, fields, rest);
    }
  }

  lemma FirstFieldSplit(fields: seq<Bytes>, rest: Bytes)
    requires fields != []
    ensures RecordBytes(fields) + rest == FieldBytes(fields[0]) + (Tail(fields) + rest)
    ensures |RecordBytes(fields)| == |FieldBytes(fields[0])| + |Tail(fields)|
    ensures Tail(fields) + rest != [] && (Tail(fields) + rest)[0] == Tail(fields)[0]
    ensures |fields| > 1 ==>
      Tail(fields) + rest == [COMMA] + (RecordBytes(fields[1..]) + rest) && |Tail(fields)| == 1 + |RecordBytes(fields[1..])|
  {
    hide FieldBytes, RecordBytes;
    Regroup(FieldBytes(fields[0]), Tail(fields), rest);
    if |fields| > 1 {
      Regroup([COMMA], RecordBytes(fields[1..]), rest);
    }
  }

  lemma Regroup(a: Bytes, b: Bytes, c: Bytes)
    ensures a + b + c == a + (b + c)
  {
  }

  lemma FirstTooLong(d: Bytes, p: nat, line: nat, before: seq<Field>, fields: seq<Bytes>, rest: Bytes) returns (after: nat)
    requires p <= |d| && d[p..] == RecordBytes(fields) + rest && fields != [] && !Carried(fields[0])
    ensures ReadRecord(d, p, line, before) == Broken(TooLarge, p + |RecordBytes(fields)|, after)
  {
    hide ReadField, FieldBytes, RecordBytes, NeedsQuotes, CString, ReadRecord, Resync;
    var s, tail := fields[0], Tail(fields);
    assert RecordBytes(fields) + rest == FieldBytes(s) + (tail + rest);
    var l := FieldTooLong(d, p, line, s, tail + rest);
    after := ResyncTail(d, p + |FieldBytes(s)|, l, fields, rest);
    BrokenField(d, p, line, before);
  }

  lemma BrokenField(d: Bytes, p: nat, line: nat, before: seq<Field>)
    requires p <= |d| && ReadField(d, p, line).Failed?
    ensures var f := ReadField(d, p, line); ReadRecord(d, p, line, before) == Broken(f.error, f.next, f.line)
  {
  }

  /** The records a reader hands out from p on, each read where the one before ended. */
  ghost predicate Reads(d: Bytes, p: nat, line: nat, records: seq<seq<Field>>)
    requires p <= |d|
    decreases |records|
  {
    if records == [] then p == |d|
    else
      && p < |d|
      && var r := ReadRecord(d, p, line, []);
         r.Fields? && r.fields == records[0] && Reads(d, r.next, r.line, records[1..])
  }

  function AllAsRead(records: seq<seq<Bytes>>): seq<seq<Field>> {
    seq(|records|, k requires 0 <= k < |records| => AsRead(records[k]))
  }

  lemma {:induction false} FileRoundTripFrom(d: Bytes, p: nat, line: nat, records: seq<seq<Bytes>>)
    requires p <= |d| && d[p..] == FileBytes(records)
    requires forall k :: 0 <= k < |records| ==> records[k] != [] && AllCarried(records[k])
    ensures Reads(d, p, line, AllAsRead(records))
    decreases |records|
  {
    hide ReadRecord, RecordBytes, AsRead, AllCarried;
    if records != [] {
      var first, rest := records[0], records[1..];
      RecordNotEmpty(first);
      var after := RecordRoundTrip(d, p, line, [], first, FileBytes(rest));
      After(d, p, RecordBytes(first), FileBytes(rest));
      FileRoundTripFrom(d, p + |RecordBytes(first)|, after, rest);
      assert AllAsRead(records)[0] == AsRead(first) && AllAsRead(records)[1..] == AllAsRead(rest);
      assert [] + AsRead(first) == AsRead(first);
    }
  }

  lemma RecordNotEmpty(fields: seq<Bytes>)
    ensures RecordBytes(fields) != []
  {
  }

  /** Reading a written file gives back its records, then the end of the input. */
  lemma FileRoundTrip(records: seq<seq<Bytes>>)
    requires forall k :: 0 <= k < |records| ==> records[k] != [] && AllCarried(records[k])
    requires !HasBom(FileBytes(records))
    ensures Reads(FileBytes(records), Start(FileBytes(records)), 1, AllAsRead(records))
  {
    var d := FileBytes(records);
    assert d[0..] == d;
    FileRoundTripFrom(d, 0, 1, records);
  }

  ghost predicate Regular(records: seq<seq<Field>>, n: nat) {
    n > 0 && forall k :: 0 <= k < |records| ==> |records[k]| == n
  }

  /** The rows a load takes from p on: malformed records are skipped, and so are those of another length than the first, n. */
  function Rows(d: Bytes, p: nat, line: nat, n: nat): seq<seq<Field>>
    requires p <= |d|
    decreases |d| - p
  {
    if p == |d| then []
    else
      var r := ReadRecord(d, p, line, []);
      if r.Broken? then Rows(d, r.next, r.line, n)
      else if n == 0 || |r.fields| == n then [r.fields] + Rows(d, r.next, r.line, |r.fields|)
      else Rows(d, r.next, r.line, n)
  }

  /** A file without malformed or odd records gives all of them. */
  lemma {:induction false} RegularRows(d: Bytes, p: nat, line: nat, records: seq<seq<Field>>, n: nat, m: nat)
    requires p <= |d| && Reads(d, p, line, records) && Regular(records, n) && (m == 0 || m == n)
    ensures Rows(d, p, line, m) == records
    decreases |records|
  {
    hide ReadRecord;
    if records != [] {
      var r := ReadRecord(d, p, line, []);
      assert |records[0]| == n;
      RegularRows(d, r.next, r.line, records[1..], n, n);
      assert records == [records[0]] + records[1..];
    }
  }

  /** Written records as a load takes them: those with a field over the limit are missing. */
  function Readable(records: seq<seq<Bytes>>): (rows: seq<seq<Field>>) {
    if records == [] then []
    else (if AllCarried(records[0]) then [AsRead(records[0])] else []) + Readable(records[1..])
  }

  lemma RowTaken(d: Bytes, p: nat, line: nat, n: nat)
    requires p < |d| && ReadRecord(d, p, line, []).Fields? && (n == 0 || |ReadRecord(d, p, line, []).fields| == n)
    ensures var r := ReadRecord(d, p, line, []); Rows(d, p, line, n) == [r.fields] + Rows(d, r.next, r.line, |r.fields|)
  {
  }

  lemma RowSkipped(d: Bytes, p: nat, line: nat, n: nat)
    requires p < |d| && ReadRecord(d, p, line, []).Broken?
    ensures var r := ReadRecord(d, p, line, []); Rows(d, p, line, n) == Rows(d, r.next, r.line, n)
  {
  }

  /** Whatever was written, a load takes just the records without a field over the limit. */
  lemma {:induction false} WrittenRows(d: Bytes, p: nat, line: nat, records: seq<seq<Bytes>>, n: nat, m: nat)
    requires p <= |d| && d[p..] == FileBytes(records) && n > 0 && (m == 0 || m == n)
    requires forall k :: 0 <= k < |records| ==> |records[k]| == n
    ensures Rows(d, p, line, m) == Readable(records)
    decreases |records|
  {
    hide ReadRecord, RecordBytes, AsRead, AllCarried, Rows;
    if records == [] {
      NothingLeft(d, p, line, m);
    } else {
      var first, rest := records[0], records[1..];
      RecordNotEmpty(first);
      After(d, p, RecordBytes(first), FileBytes(rest));
      var next := p + |RecordBytes(first)|;
      if AllCarried(first) {
        var after := RecordRoundTrip(d, p, line, [], first, FileBytes(rest));
        assert [] + AsRead(first) == AsRead(first);
        AsReadLength(first);
        RowTaken(d, p, line, m);
        WrittenRows(d, next, after, rest, n, n);
      } else {
        var after := RecordTooLong(d, p, line, [], first, FileBytes(rest));
        RowSkipped(d, p, line, m);
        WrittenRows(d, next, after, rest, n, m);
      }
    }
  }

  lemma NothingLeft(d: Bytes, p: nat, line: nat, n: nat)
    requires p <= |d| && d[p..] == []
    ensures Rows(d, p, line, n) == []
  {
  }

  lemma AsReadLength(fields: seq<Bytes>)
    ensures |AsRead(fields)| == |fields|
  {
  }

  /** The header: the first record, unless it is malformed or missing. */
  predicate HasHeader(d: Bytes) {
    Start(d) < |d| && ReadRecord(d, Start(d), 1, []).Fields?
  }

  /** The loop of a load: the header, then row after row until the end of the input. None: no header, or no memory. */
  method ReadAll(data: Bytes) returns (rows: Option<seq<seq<Field>>>)
    ensures rows.Some? ==> HasHeader(data) && rows.value == Rows(data, Start(data), 1, 0)
  {
    hide ReadRecord;
    var reader := new CsvReader(data);
    var header := reader.NextRow();
    if !header.Row? {
      return None;
    }
    var read: seq<seq<Field>> := [header.fields];
    while true
      invariant reader.Valid() && reader.data == data && fresh(reader)
      invariant Rows(data, Start(data), 1, 0) == read + Rows(data, reader.pos, reader.line, reader.nCols)
      decreases |data| - reader.pos
    {
      var r := reader.NextRow();
      if r.Eof? {
        return Some(read);
      }
      if r.NoMemory? {
        return None;
      }
      if r.Row? {
        assert read + ([r.fields] + Rows(data, reader.pos, reader.line, reader.nCols)) == (read + [r.fields]) + Rows(data, reader.pos, reader.line, reader.nCols);
        read := read + [r.fields];
      }
    }
  }

  /** write_csv_body: header and rows alike. */
  method WriteAll(records: seq<seq<Bytes>>) returns (written: Bytes)
    ensures written == FileBytes(records)
  {
    hide RecordBytes;
    written := [];
    var k := 0;
    assert records[0..] == records;
    while k < |records|
      invariant k <= |records| && written + FileBytes(records[k..]) == FileBytes(records)
    {
      assert records[k..][0] == records[k] && records[k..][1..] == records[k + 1..];
      written := WriteRecord(written, records[k]);
      k := k + 1;
    }
    assert records[k..] == [];
  }

  /**
   Of what the writer wrote the reader gives back every record without a field over the limit: each field
   up to its first NUL, flagged quoted exactly if it had to be.
   */
  method WriteThenRead(records: seq<seq<Bytes>>, n: nat) returns (file: Bytes, rows: Option<seq<seq<Field>>>)
    requires n > 0 && forall k :: 0 <= k < |records| ==> |records[k]| == n
    ensures file == FileBytes(records)
    ensures rows.Some? && !HasBom(file) ==> rows.value == Readable(records)
  {
    hide ReadRecord, RecordBytes, FileBytes, Rows, AllCarried;
    file := WriteAll(records);
    rows := ReadAll(file);
    if !HasBom(file) {
      assert file[0..] == file;
      WrittenRows(file, Start(file), 1, records, n, 0);
    }
  }
}
