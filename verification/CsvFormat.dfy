/** How the CSV reader splits a file into rows and a row into fields, and exactly which tables survive being written. */
module CsvFormat {

  const NUL: char := '\0'
  const ESCAPE: char := '\\'

  datatype Mode = Plain | Enclosed

  /** The separators, and the character around each field in enclosed mode. */
  datatype Format = Format(fieldTerm: char, lineTerm: char, enclosed: char, mode: Mode) {
    predicate Unambiguous() {
      && fieldTerm != NUL && lineTerm != NUL && fieldTerm != lineTerm
      && (mode.Enclosed? ==> enclosed != NUL && enclosed != fieldTerm && enclosed != lineTerm)
      && (mode.Enclosed? ==> enclosed != ESCAPE && fieldTerm != ESCAPE)
    }
  }

  type Row = seq<string>

  // ----- Reading

  /** A buffer taken as a C string ends at its first NUL. */
  function CString(s: string): string {
    if s == "" || s[0] == NUL then "" else [s[0]] + CString(s[1..])
  }

  /** It is what the buffer holds before its first NUL, and the whole buffer exactly when that has no NUL. */
  lemma {:induction false} CStringIsCut(s: string)
    ensures NUL !in CString(s) && CString(s) <= s && (CString(s) < s ==> s[|CString(s)|] == NUL)
    ensures CString(s) == s <==> NUL !in s
  {
    if s != "" && s[0] != NUL {
      CStringIsCut(s[1..]);
      assert s == [s[0]] + s[1..];
    }
  }

  /** The fields from `i` on, when the current one began at `start`. */
  function PlainFrom(fmt: Format, line: string, i: nat, start: nat): Row
    requires start <= i <= |line|
    decreases |line| - i
  {
    if i == |line| then []
    else if line[i] == fmt.fieldTerm then [CString(line[start..i])] + PlainFrom(fmt, line, i + 1, i + 1)
    else if line[i] == fmt.lineTerm then [CString(line[start..i])] + PlainFrom(fmt, line, i + 1, start)
    else PlainFrom(fmt, line, i + 1, start)
  }

  /** Whether a field is open, where its enclosure began, and the fields closed so far. */
  datatype Scan = Scan(open: bool, start: nat, row: Row)

  /** An enclosure character right after a backslash does not count. */
  predicate IsReal(fmt: Format, line: string, i: nat)
    requires i < |line|
  {
    line[i] == fmt.enclosed && !(i > 0 && line[i - 1] == ESCAPE)
  }

  function Step(fmt: Format, line: string, i: nat, s: Scan): (t: Scan)
    requires i < |line| && (s.open ==> s.start < i)
    ensures t.open ==> t.start <= i
  {
    if !IsReal(fmt, line, i) then s
    else if s.open then Scan(false, s.start, s.row + [CString(line[s.start + 1..i])])
    else Scan(true, i, s.row)
  }

  function ScanFrom(fmt: Format, line: string, i: nat, s: Scan): (t: Scan)
    requires i <= |line| && (s.open ==> s.start < i)
    ensures t.open ==> t.start < |line|
    decreases |line| - i
  {
    if i == |line| then s else ScanFrom(fmt, line, i + 1, Step(fmt, line, i, s))
  }

  /** A line without a closed field is one field; otherwise a field left open takes the rest of the line. */
  function Finished(line: string, s: Scan): Row
    requires s.open ==> s.start < |line|
  {
    if s.row == [] then [CString(line)]
    else if s.open then s.row + [CString(line[s.start + 1..])]
    else s.row
  }

  /**
   * The fields of a line that was read together with its terminator and a final NUL; nothing was read at the end of the
   * file.
   */
  function RowOf(fmt: Format, line: string): Row {
    if line == "" then []
    else match fmt.mode
      case Plain => PlainFrom(fmt, line, 0, 0)
      case Enclosed => Finished(line, ScanFrom(fmt, line, 0, Scan(false, 0, [])))
  }

  /** Where the first line of `s` ends, its terminator included. */
  function LineEnd(s: string, lineTerm: char): (n: nat)
    ensures n <= |s| && (s != "" ==> n > 0) && (n < |s| ==> s[n - 1] == lineTerm)
    ensures forall k :: 0 <= k < n - 1 ==> s[k] != lineTerm
  {
    if s == "" then 0 else if s[0] == lineTerm then 1 else 1 + LineEnd(s[1..], lineTerm)
  }

  /** The buffers that repeated reading fills from the rest of a file; at the end of the file it fills none. */
  function Lines(rest: string, lineTerm: char): seq<string>
    decreases |rest|
  {
    if rest == "" then [""]
    else
      var n := LineEnd(rest, lineTerm);
      [rest[..n] + [NUL]] + if n < |rest| then Lines(rest[n..], lineTerm) else []
  }

  function RowsOf(fmt: Format, lines: seq<string>): (r: seq<Row>)
    ensures |r| == |lines|
  {
    if lines == [] then [] else [RowOf(fmt, lines[0])] + RowsOf(fmt, lines[1..])
  }

  /** All the rows in the rest of a file. */
  function Rows(fmt: Format, rest: string): seq<Row> {
    RowsOf(fmt, Lines(rest, fmt.lineTerm))
  }

  lemma {:induction false} RowAtLine(fmt: Format, lines: seq<string>, i: nat)
    requires i < |lines|
    ensures RowsOf(fmt, lines)[i] == RowOf(fmt, lines[i])
  {
    if i == 0 {
    } else {
      RowAtLine(fmt, lines[1..], i - 1);
    }
  }

  lemma {:induction false} RowsOfConcat(fmt: Format, a: seq<string>, b: seq<string>)
    ensures RowsOf(fmt, a + b) == RowsOf(fmt, a) + RowsOf(fmt, b)
  {
    if a == [] {
      assert a + b == b;
    } else {
      assert (a + b)[1..] == a[1..] + b;
      RowsOfConcat(fmt, a[1..], b);
    }
  }

  // ----- Writing

  function Field(fmt: Format, f: string): string {
    if fmt.mode.Plain? then f else [fmt.enclosed] + f + [fmt.enclosed]
  }

  function Body(fmt: Format, row: Row): string
    requires row != []
  {
    if |row| == 1 then Field(fmt, row[0]) else Field(fmt, row[0]) + [fmt.fieldTerm] + Body(fmt, row[1..])
  }

  function Line(fmt: Format, row: Row): string
    requires row != []
  {
    Body(fmt, row) + [fmt.lineTerm]
  }

  predicate IsTable(rows: seq<Row>) {
    forall i :: 0 <= i < |rows| ==> rows[i] != []
  }

  function Text(fmt: Format, rows: seq<Row>): string
    requires IsTable(rows)
  {
    if rows == [] then "" else Line(fmt, rows[0]) + Text(fmt, rows[1..])
  }

  // ----- What survives

  /** Every enclosure character within the field has a backslash before it, and the field does not end in a backslash. */
  predicate IsEscaped(fmt: Format, f: string) {
    && (forall k :: 0 <= k < |f| ==> !IsReal(fmt, f, k))
    && (f != "" ==> f[|f| - 1] != '\\')
  }

  predicate FieldSurvives(fmt: Format, f: string) {
    && fmt.lineTerm !in f && NUL !in f
    && match fmt.mode
       case Plain => fmt.fieldTerm !in f
       case Enclosed => IsEscaped(fmt, f)
  }

  predicate Survives(fmt: Format, row: Row) {
    forall i :: 0 <= i < |row| ==> FieldSurvives(fmt, row[i])
  }

  predicate Mentions(row: Row, c: char) {
    exists i :: 0 <= i < |row| && c in row[i]
  }

  // ----- Counting separators

  function Count(s: string, c: char): nat {
    if s == "" then 0 else (if s[0] == c then 1 else 0) + Count(s[1..], c)
  }

  lemma {:induction false} CountConcat(s: string, t: string, c: char)
    ensures Count(s + t, c) == Count(s, c) + Count(t, c)
  {
    if s == "" {
      assert s + t == t;
    } else {
      assert (s + t)[1..] == s[1..] + t;
      CountConcat(s[1..], t, c);
    }
  }

  lemma {:induction false} CountIsZero(s: string, c: char)
    ensures Count(s, c) == 0 <==> c !in s
  {
    if s == "" {
    } else {
      CountIsZero(s[1..], c);
      assert s == [s[0]] + s[1..];
    }
  }

  lemma MentionsTail(row: Row, c: char)
    requires row != []
    ensures Mentions(row, c) <==> c in row[0] || Mentions(row[1..], c)
  {
    if Mentions(row[1..], c) {
      var i :| 0 <= i < |row[1..]| && c in row[1..][i];
      assert c in row[i + 1];
    }
    if Mentions(row, c) && c !in row[0] {
      var i :| 0 <= i < |row| && c in row[i];
      assert c in row[1..][i - 1];
    }
  }

  lemma {:induction false} BodyMentions(fmt: Format, row: Row, c: char)
    requires row != [] && c != fmt.fieldTerm && (fmt.mode.Enclosed? ==> c != fmt.enclosed)
    ensures c in Body(fmt, row) <==> Mentions(row, c)
  {
    if |row| > 1 {
      BodyMentions(fmt, row[1..], c);
      MentionsTail(row, c);
    } else {
      assert row == [row[0]];
    }
  }

  /** A written plain row has one field separator fewer than fields, exactly when no field contains one. */
  lemma {:induction false} BodySeparators(fmt: Format, row: Row)
    requires row != [] && fmt.mode.Plain?
    ensures Count(Body(fmt, row), fmt.fieldTerm) >= |row| - 1
    ensures Count(Body(fmt, row), fmt.fieldTerm) == |row| - 1 <==> !Mentions(row, fmt.fieldTerm)
  {
    var c := fmt.fieldTerm;
    CountIsZero(row[0], c);
    if |row| == 1 {
    } else {
      BodySeparators(fmt, row[1..]);
      CountConcat(row[0] + [c], Body(fmt, row[1..]), c);
      CountConcat(row[0], [c], c);
      assert Count([c], c) == 1;
      MentionsTail(row, c);
    }
  }

  /** A written table has one line terminator for each row, exactly when no field contains one. */
  lemma {:induction false} TextTerminators(fmt: Format, rows: seq<Row>)
    requires IsTable(rows) && fmt.Unambiguous()
    ensures Count(Text(fmt, rows), fmt.lineTerm) >= |rows|
    ensures Count(Text(fmt, rows), fmt.lineTerm) == |rows| <==>
      forall i :: 0 <= i < |rows| ==> !Mentions(rows[i], fmt.lineTerm)
  {
    if rows == [] {
    } else {
      var c := fmt.lineTerm;
      TextTerminators(fmt, rows[1..]);
      BodyMentions(fmt, rows[0], c);
      CountIsZero(Body(fmt, rows[0]), c);
      CountConcat(Line(fmt, rows[0]), Text(fmt, rows[1..]), c);
      CountConcat(Body(fmt, rows[0]), [c], c);
      assert Count([c], c) == 1;
      assert rows == [rows[0]] + rows[1..];
    }
  }

  /** A terminated file has as many lines as line terminators. */
  lemma {:induction false} LineCount(rest: string, c: char)
    requires rest != "" && rest[|rest| - 1] == c
    ensures |Lines(rest, c)| == Count(rest, c)
    decreases |rest|
  {
    var n := LineEnd(rest, c);
    assert rest == rest[..n - 1] + [c] + rest[n..];
    CountIsZero(rest[..n - 1], c);
    CountConcat(rest[..n - 1] + [c], rest[n..], c);
    CountConcat(rest[..n - 1], [c], c);
    assert Count([c], c) == 1;
    if n == |rest| {
    } else {
      LineCount(rest[n..], c);
    }
  }

  /** The buffers that the written rows fill, when their lines are found. */
  function Written(fmt: Format, rows: seq<Row>): (r: seq<string>)
    requires IsTable(rows)
    ensures |r| == |rows|
  {
    if rows == [] then [] else [Line(fmt, rows[0]) + [NUL]] + Written(fmt, rows[1..])
  }

  lemma {:induction false} LineEndIs(body: string, rest: string, c: char)
    requires c !in body
    ensures LineEnd(body + [c] + rest, c) == |body| + 1
  {
    var s := body + [c] + rest;
    var n := LineEnd(s, c);
    assert s[|body|] == c;
    assert forall k :: 0 <= k < |body| ==> s[k] == body[k] && s[k] in body;
  }

  /** The first line of a text is the first row, and the rest is read on its own. */
  lemma FirstLineIsFound(fmt: Format, text: string, row: Row, rest: string)
    requires row != [] && fmt.Unambiguous() && !Mentions(row, fmt.lineTerm) && text == Line(fmt, row) + rest
    ensures Lines(text, fmt.lineTerm) == [Line(fmt, row) + [NUL]] + if rest == "" then [] else Lines(rest, fmt.lineTerm)
  {
    BodyMentions(fmt, row, fmt.lineTerm);
    LineEndIs(Body(fmt, row), rest, fmt.lineTerm);
    assert text[..|Line(fmt, row)|] == Line(fmt, row);
    assert text[|Line(fmt, row)|..] == rest;
  }

  lemma {:induction false} WrittenAt(fmt: Format, rows: seq<Row>, i: nat)
    requires IsTable(rows) && i < |rows|
    ensures Written(fmt, rows)[i] == Line(fmt, rows[i]) + [NUL]
  {
    if i == 0 {
    } else {
      WrittenAt(fmt, rows[1..], i - 1);
    }
  }

  lemma Regroup(first: seq<string>, middle: seq<string>, last: seq<string>)
    ensures first + (middle + last) == (first + middle) + last
  {
  }

  lemma TextFromFirst(fmt: Format, rows: seq<Row>, rest: string, text: string) returns (more: string)
    requires IsTable(rows) && rows != [] && text == Text(fmt, rows) + rest
    ensures more == Text(fmt, rows[1..]) + rest && text == Line(fmt, rows[0]) + more
  {
    more := Text(fmt, rows[1..]) + rest;
  }

  /** Without a line terminator inside a field, every line is found again, whatever follows. */
  lemma {:induction false} LinesAreFound(fmt: Format, rows: seq<Row>, rest: string, text: string)
    requires IsTable(rows) && rows != [] && fmt.Unambiguous() && text == Text(fmt, rows) + rest
    requires forall i :: 0 <= i < |rows| ==> !Mentions(rows[i], fmt.lineTerm)
    ensures Lines(text, fmt.lineTerm) == Written(fmt, rows) + if rest == "" then [] else Lines(rest, fmt.lineTerm)
  {
    var more := TextFromFirst(fmt, rows, rest, text);
    FirstLineIsFound(fmt, text, rows[0], more);
    if |rows| > 1 {
      LinesAreFound(fmt, rows[1..], rest, more);
      Regroup([Line(fmt, rows[0]) + [NUL]], Written(fmt, rows[1..]), if rest == "" then [] else Lines(rest, fmt.lineTerm));
    } else {
      assert more == rest;
    }
  }
}
