/** Which tables read back as they were written, in both modes, and what a missing last line terminator costs. */
module CsvRoundTrip {
  import opened CsvFormat

  // ----- Fields never contain a NUL

  predicate IsCut(row: Row) {
    forall i :: 0 <= i < |row| ==> NUL !in row[i]
  }

  lemma {:induction false} PlainIsCut(fmt: Format, line: string, i: nat, start: nat)
    requires start <= i <= |line|
    ensures IsCut(PlainFrom(fmt, line, i, start))
    decreases |line| - i
  {
    if i == |line| {
    } else {
      CStringIsCut(line[start..i]);
      PlainIsCut(fmt, line, i + 1, start);
      PlainIsCut(fmt, line, i + 1, i + 1);
    }
  }

  lemma {:induction false} ScanIsCut(fmt: Format, line: string, i: nat, s: Scan)
    requires i <= |line| && (s.open ==> s.start < i) && IsCut(s.row)
    ensures IsCut(ScanFrom(fmt, line, i, s).row)
    decreases |line| - i
  {
    if i == |line| {
    } else {
      if s.open {
        CStringIsCut(line[s.start + 1..i]);
      }
      ScanIsCut(fmt, line, i + 1, Step(fmt, line, i, s));
    }
  }

  lemma RowIsCut(fmt: Format, line: string)
    ensures IsCut(RowOf(fmt, line))
  {
    PlainIsCut(fmt, line, 0, 0);
    ScanIsCut(fmt, line, 0, Scan(false, 0, []));
    CStringIsCut(line);
    var t := ScanFrom(fmt, line, 0, Scan(false, 0, []));
    if t.open {
      CStringIsCut(line[t.start + 1..]);
    }
  }

  // ----- Plain rows

  lemma {:induction false} PlainSkip(fmt: Format, line: string, i: nat, j: nat, start: nat)
    requires start <= i <= j <= |line|
    requires forall k :: i <= k < j ==> line[k] != fmt.fieldTerm && line[k] != fmt.lineTerm
    ensures PlainFrom(fmt, line, i, start) == PlainFrom(fmt, line, j, start)
    decreases j - i
  {
    if i == j {
    } else {
      PlainSkip(fmt, line, i + 1, j, start);
    }
  }

  /** The line of a row, seen from its first field. */
  lemma FirstField(fmt: Format, pre: string, row: Row, tail: string) returns (rest: string)
    requires row != []
    ensures pre + Body(fmt, row) + tail == pre + Field(fmt, row[0]) + rest
    ensures |row| == 1 ==> rest == tail
    ensures |row| > 1 ==> rest == [fmt.fieldTerm] + Body(fmt, row[1..]) + tail
    ensures |row| > 1 ==>
      pre + Body(fmt, row) + tail == (pre + Field(fmt, row[0]) + [fmt.fieldTerm]) + Body(fmt, row[1..]) + tail
  {
    if |row| == 1 {
      rest := tail;
    } else {
      rest := [fmt.fieldTerm] + Body(fmt, row[1..]) + tail;
    }
  }

  /** What ends a line in the buffer: its terminator, if the file had one, and the NUL that the reader adds. */
  function Tail(fmt: Format, terminated: bool): string {
    if terminated then [fmt.lineTerm, NUL] else [NUL]
  }

  lemma NoSeparatorInside(fmt: Format, line: string, pre: string, f: string, rest: string)
    requires line == pre + f + rest && fmt.fieldTerm !in f && fmt.lineTerm !in f
    ensures PlainFrom(fmt, line, |pre|, |pre|) == PlainFrom(fmt, line, |pre| + |f|, |pre|)
    ensures line[|pre|..|pre| + |f|] == f
  {
    assert forall k :: |pre| <= k < |pre| + |f| ==> line[k] == f[k - |pre|] && line[k] in f;
    PlainSkip(fmt, line, |pre|, |pre| + |f|, |pre|);
  }

  lemma PlainLastField(fmt: Format, line: string, pre: string, f: string, terminated: bool)
    requires line == pre + f + Tail(fmt, terminated)
    requires fmt.Unambiguous() && fmt.fieldTerm !in f && fmt.lineTerm !in f
    ensures PlainFrom(fmt, line, |pre|, |pre|) == if terminated then [CString(f)] else []
  {
    var b := |pre| + |f|;
    NoSeparatorInside(fmt, line, pre, f, Tail(fmt, terminated));
    if terminated {
      assert line[b] == fmt.lineTerm && line[b + 1] == NUL && |line| == b + 2;
      assert PlainFrom(fmt, line, b + 1, |pre|) == PlainFrom(fmt, line, b + 2, |pre|);
    } else {
      assert line[b] == NUL && |line| == b + 1;
    }
  }

  function AllCut(row: Row): (r: Row)
    ensures |r| == |row| && forall i :: 0 <= i < |row| ==> r[i] == CString(row[i])
  {
    if row == [] then [] else [CString(row[0])] + AllCut(row[1..])
  }

  lemma AllCutIff(row: Row)
    ensures AllCut(row) == row <==> IsCut(row)
  {
    forall i | 0 <= i < |row| ensures AllCut(row)[i] == row[i] <==> NUL !in row[i] {
      CStringIsCut(row[i]);
    }
  }

  /** The fields that a terminated or unterminated line gives back. */
  function Kept(row: Row, terminated: bool): Row
    requires row != []
  {
    if terminated then row else row[..|row| - 1]
  }

  /** Fields without separators come back up to their first NUL, but the last one only if the line is terminated. */
  lemma {:induction false} PlainScan(fmt: Format, line: string, pre: string, row: Row, terminated: bool)
    requires fmt.Unambiguous() && fmt.mode.Plain? && row != [] && line == pre + Body(fmt, row) + Tail(fmt, terminated)
    requires !Mentions(row, fmt.fieldTerm) && !Mentions(row, fmt.lineTerm)
    ensures PlainFrom(fmt, line, |pre|, |pre|) == AllCut(Kept(row, terminated))
    decreases |row|
  {
    MentionsTail(row, fmt.fieldTerm);
    MentionsTail(row, fmt.lineTerm);
    if |row| == 1 {
      PlainLastField(fmt, line, pre, row[0], terminated);
    } else {
      var next := pre + row[0] + [fmt.fieldTerm];
      var rest := FirstField(fmt, pre, row, Tail(fmt, terminated));
      NoSeparatorInside(fmt, line, pre, row[0], rest);
      assert line[|pre| + |row[0]|] == fmt.fieldTerm;
      PlainScan(fmt, line, next, row[1..], terminated);
      assert Kept(row, terminated)[1..] == Kept(row[1..], terminated);
    }
  }

  lemma {:induction false} PlainCount(fmt: Format, line: string, i: nat, start: nat)
    requires start <= i <= |line| && fmt.fieldTerm != fmt.lineTerm
    ensures |PlainFrom(fmt, line, i, start)| == Count(line[i..], fmt.fieldTerm) + Count(line[i..], fmt.lineTerm)
    decreases |line| - i
  {
    if i == |line| {
    } else {
      PlainCount(fmt, line, i + 1, start);
      PlainCount(fmt, line, i + 1, i + 1);
      assert line[i..][1..] == line[i + 1..];
    }
  }

  lemma CountPair(a: char, b: char, c: char)
    ensures Count([a, b], c) == (if a == c then 1 else 0) + (if b == c then 1 else 0)
  {
    var s := [a, b];
    assert s[1..] == [b] && [b][1..] == "";
    assert Count(s, c) == (if a == c then 1 else 0) + Count([b], c);
  }

  /** The reader finds as many fields in a written row as it has, exactly when no field contains a separator. */
  lemma PlainFieldCount(fmt: Format, row: Row)
    requires fmt.Unambiguous() && fmt.mode.Plain? && row != [] && !Mentions(row, fmt.lineTerm)
    ensures |RowOf(fmt, Line(fmt, row) + [NUL])| == |row| <==> !Mentions(row, fmt.fieldTerm)
  {
    var line := Line(fmt, row) + [NUL];
    var body := Body(fmt, row);
    var tail := [fmt.lineTerm, NUL];
    assert line == body + tail && line[0..] == line;
    PlainCount(fmt, line, 0, 0);
    BodyMentions(fmt, row, fmt.lineTerm);
    CountIsZero(body, fmt.lineTerm);
    CountConcat(body, tail, fmt.lineTerm);
    CountConcat(body, tail, fmt.fieldTerm);
    CountPair(fmt.lineTerm, NUL, fmt.lineTerm);
    CountPair(fmt.lineTerm, NUL, fmt.fieldTerm);
    assert Count(tail, fmt.lineTerm) == 1 && Count(tail, fmt.fieldTerm) == 0;
    BodySeparators(fmt, row);
  }

  lemma PlainRowIff(fmt: Format, row: Row)
    requires fmt.Unambiguous() && fmt.mode.Plain? && row != [] && !Mentions(row, fmt.lineTerm)
    ensures RowOf(fmt, Line(fmt, row) + [NUL]) == row <==> Survives(fmt, row)
  {
    PlainFieldCount(fmt, row);
    RowIsCut(fmt, Line(fmt, row) + [NUL]);
    if !Mentions(row, fmt.fieldTerm) {
      assert "" + Body(fmt, row) + Tail(fmt, true) == Line(fmt, row) + [NUL];
      PlainScan(fmt, Line(fmt, row) + [NUL], "", row, true);
      AllCutIff(row);
    }
  }

  // ----- Enclosed rows

  predicate NoReal(fmt: Format, line: string, i: nat, j: nat)
    requires j <= |line|
  {
    forall k :: i <= k < j ==> !IsReal(fmt, line, k)
  }

  lemma {:induction false} ScanSkip(fmt: Format, line: string, i: nat, j: nat, s: Scan)
    requires i <= j <= |line| && (s.open ==> s.start < i) && NoReal(fmt, line, i, j)
    ensures ScanFrom(fmt, line, i, s) == ScanFrom(fmt, line, j, s)
    decreases j - i
  {
    if i == j {
    } else {
      ScanSkip(fmt, line, i + 1, j, s);
    }
  }

  lemma {:induction false} ScanGrows(fmt: Format, line: string, i: nat, s: Scan)
    requires i <= |line| && (s.open ==> s.start < i)
    ensures s.row <= ScanFrom(fmt, line, i, s).row
    decreases |line| - i
  {
    if i == |line| {
    } else {
      ScanGrows(fmt, line, i + 1, Step(fmt, line, i, s));
    }
  }

  /** A real enclosure character at `a` opens a field, which stays open as long as no other one comes. */
  lemma FieldOpens(fmt: Format, line: string, a: nat, s: Scan, j: nat)
    requires !s.open && a < j <= |line| && IsReal(fmt, line, a) && NoReal(fmt, line, a + 1, j)
    ensures ScanFrom(fmt, line, a, s) == ScanFrom(fmt, line, j, Scan(true, a, s.row))
  {
    ScanSkip(fmt, line, a + 1, j, Scan(true, a, s.row));
  }

  /** The next real one, at `j`, closes it. */
  lemma FieldCloses(fmt: Format, line: string, a: nat, s: Scan, j: nat)
    requires !s.open && a < j < |line| && IsReal(fmt, line, a) && NoReal(fmt, line, a + 1, j) && IsReal(fmt, line, j)
    ensures ScanFrom(fmt, line, a, s) == ScanFrom(fmt, line, j + 1, Scan(false, a, s.row + [CString(line[a + 1..j])]))
  {
    FieldOpens(fmt, line, a, s, j);
  }

  /** The line holds the field `f` between enclosures at `a`, and no backslash comes before it. */
  predicate FieldAt(fmt: Format, line: string, a: nat, f: string) {
    && a + |f| + 2 <= |line| && line[a] == fmt.enclosed && line[a + |f| + 1] == fmt.enclosed
    && line[a + 1..a + 1 + |f|] == f && (a > 0 ==> line[a - 1] != ESCAPE)
  }

  /** The line holds the fields of `row` from `a` to `b`. */
  predicate RowAt(fmt: Format, line: string, a: nat, row: Row, b: nat)
    decreases |row|
  {
    && row != [] && FieldAt(fmt, line, a, row[0])
    && var next := a + |row[0]| + 2;
       if |row| == 1 then b == next
       else next < |line| && line[next] == fmt.fieldTerm && RowAt(fmt, line, next + 1, row[1..], b)
  }

  lemma {:induction false} RowReaches(fmt: Format, line: string, a: nat, row: Row, b: nat)
    requires RowAt(fmt, line, a, row, b)
    ensures a + |row[0]| + 2 <= b <= |line|
    decreases |row|
  {
    if |row| == 1 {
    } else {
      RowReaches(fmt, line, a + |row[0]| + 3, row[1..], b);
    }
  }

  lemma FieldIsThere(fmt: Format, line: string, a: nat, f: string, rest: string)
    requires fmt.mode.Enclosed? && a <= |line| && line[a..] == Field(fmt, f) + rest && (a > 0 ==> line[a - 1] != ESCAPE)
    ensures FieldAt(fmt, line, a, f) && line[a + |f| + 2..] == rest
  {
    var written := line[a..];
    assert written[0] == fmt.enclosed && written[1..|f| + 1] == f && written[|f| + 1] == fmt.enclosed;
    assert line[a + 1..a + 1 + |f|] == written[1..|f| + 1];
    assert written[|f| + 2..] == rest;
  }

  lemma OnlyFieldIsThere(fmt: Format, line: string, a: nat, row: Row, tail: string, b: nat)
    requires fmt.mode.Enclosed? && |row| == 1 && b + |tail| == |line|
    requires a <= |line| && line[a..] == Body(fmt, row) + tail && (a > 0 ==> line[a - 1] != ESCAPE)
    ensures RowAt(fmt, line, a, row, b)
  {
    FieldIsThere(fmt, line, a, row[0], tail);
    assert |line[a + |row[0]| + 2..]| == |tail|;
  }

  lemma FirstFieldIsThere(fmt: Format, line: string, a: nat, row: Row, tail: string, next: nat)
    requires fmt.mode.Enclosed? && |row| > 1 && next == a + |row[0]| + 3
    requires a <= |line| && line[a..] == Body(fmt, row) + tail && (a > 0 ==> line[a - 1] != ESCAPE)
    ensures FieldAt(fmt, line, a, row[0]) && next <= |line| && line[next - 1] == fmt.fieldTerm
    ensures line[next..] == Body(fmt, row[1..]) + tail
  {
    var rest := [fmt.fieldTerm] + (Body(fmt, row[1..]) + tail);
    assert Body(fmt, row) + tail == Field(fmt, row[0]) + rest;
    FieldIsThere(fmt, line, a, row[0], rest);
    assert line[next - 1] == line[next - 1..][0];
    assert line[next..] == line[next - 1..][1..];
  }

  lemma RowFromFirst(fmt: Format, line: string, a: nat, row: Row, b: nat, next: nat)
    requires |row| > 1 && next == a + |row[0]| + 3 && FieldAt(fmt, line, a, row[0]) && next <= |line|
    requires line[next - 1] == fmt.fieldTerm && RowAt(fmt, line, next, row[1..], b)
    ensures RowAt(fmt, line, a, row, b)
  {
  }

  /** Writing a row puts it there. */
  lemma {:induction false} RowIsThere(fmt: Format, line: string, a: nat, row: Row, tail: string, b: nat)
    requires fmt.Unambiguous() && fmt.mode.Enclosed? && row != [] && b + |tail| == |line|
    requires a <= |line| && line[a..] == Body(fmt, row) + tail && (a > 0 ==> line[a - 1] != ESCAPE)
    ensures RowAt(fmt, line, a, row, b)
    decreases |row|
  {
    if |row| == 1 {
      OnlyFieldIsThere(fmt, line, a, row, tail, b);
    } else {
      var next := a + |row[0]| + 3;
      FirstFieldIsThere(fmt, line, a, row, tail, next);
      RowIsThere(fmt, line, next, row[1..], tail, b);
      RowFromFirst(fmt, line, a, row, b, next);
    }
  }

  /** An enclosure character within the field counts in the line as it does in the field. */
  lemma InnerIsReal(fmt: Format, line: string, a: nat, f: string, k: nat)
    requires fmt.Unambiguous() && fmt.mode.Enclosed? && FieldAt(fmt, line, a, f) && k < |f|
    ensures IsReal(fmt, line, a + 1 + k) <==> IsReal(fmt, f, k)
  {
    assert line[a + 1 + k] == line[a + 1..a + 1 + |f|][k] == f[k];
    if k > 0 {
      assert line[a + k] == line[a + 1..a + 1 + |f|][k - 1] == f[k - 1];
    }
  }

  /** The closing one counts unless a backslash ends the field. */
  lemma ClosingIsReal(fmt: Format, line: string, a: nat, f: string)
    requires fmt.Unambiguous() && fmt.mode.Enclosed? && FieldAt(fmt, line, a, f)
    ensures IsReal(fmt, line, a + 1 + |f|) <==> f == "" || f[|f| - 1] != ESCAPE
  {
    if f != "" {
      assert line[a + |f|] == line[a + 1..a + 1 + |f|][|f| - 1] == f[|f| - 1];
    }
  }

  lemma NoRealInside(fmt: Format, line: string, a: nat, f: string, n: nat)
    requires fmt.Unambiguous() && fmt.mode.Enclosed? && FieldAt(fmt, line, a, f) && n <= |f| && NoReal(fmt, f, 0, n)
    ensures NoReal(fmt, line, a + 1, a + 1 + n)
  {
    forall x | a + 1 <= x < a + 1 + n ensures !IsReal(fmt, line, x) {
      assert !IsReal(fmt, f, x - a - 1);
      InnerIsReal(fmt, line, a, f, x - a - 1);
    }
  }

  /** A well-escaped field is read whole. */
  lemma FieldIsRead(fmt: Format, line: string, a: nat, f: string, s: Scan)
    requires fmt.Unambiguous() && fmt.mode.Enclosed? && FieldAt(fmt, line, a, f) && !s.open
    requires IsEscaped(fmt, f) && NUL !in f
    ensures ScanFrom(fmt, line, a, s) == ScanFrom(fmt, line, a + |f| + 2, Scan(false, a, s.row + [f]))
  {
    NoRealInside(fmt, line, a, f, |f|);
    ClosingIsReal(fmt, line, a, f);
    FieldCloses(fmt, line, a, s, a + 1 + |f|);
    CStringIsCut(f);
  }

  /** A separator does not change the scan. */
  lemma SeparatorIsSkipped(fmt: Format, line: string, i: nat, s: Scan)
    requires fmt.Unambiguous() && fmt.mode.Enclosed? && i < |line| && line[i] == fmt.fieldTerm && !s.open
    ensures ScanFrom(fmt, line, i, s) == ScanFrom(fmt, line, i + 1, s)
  {
  }

  predicate AllEscaped(fmt: Format, row: Row) {
    forall i :: 0 <= i < |row| ==> IsEscaped(fmt, row[i])
  }

  /** Well-escaped fields are read one after the other. */
  lemma {:induction false} EnclosedScan(fmt: Format, line: string, a: nat, row: Row, b: nat, s: Scan)
    requires fmt.Unambiguous() && fmt.mode.Enclosed? && RowAt(fmt, line, a, row, b) && !s.open
    requires AllEscaped(fmt, row) && IsCut(row) && NoReal(fmt, line, b, |line|)
    ensures !ScanFrom(fmt, line, a, s).open && ScanFrom(fmt, line, a, s).row == s.row + row
    decreases |row|
  {
    var next := a + |row[0]| + 2;
    var t := Scan(false, a, s.row + [row[0]]);
    FieldIsRead(fmt, line, a, row[0], s);
    if |row| == 1 {
      ScanSkip(fmt, line, next, |line|, t);
      assert row == [row[0]];
    } else {
      SeparatorIsSkipped(fmt, line, next, t);
      EnclosedScan(fmt, line, next + 1, row[1..], b, t);
      assert s.row + row == t.row + row[1..];
    }
  }

  lemma FinishedKeeps(line: string, s: Scan)
    requires s.row != [] && (s.open ==> s.start < |line|)
    ensures s.row <= Finished(line, s)
  {
  }

  lemma {:induction false} CStringReaches(s: string, n: nat)
    requires n <= |s| && NUL !in s[..n]
    ensures |CString(s)| >= n
  {
    if n == 0 {
    } else {
      assert s[0] == s[..n][0];
      assert s[1..][..n - 1] == s[..n][1..];
      CStringReaches(s[1..], n - 1);
    }
  }

  /** Once a field has come out with another length, the row differs. */
  lemma WrongFieldStays(fmt: Format, line: string, i: nat, s: Scan, before: Row, row: Row, wrong: string)
    requires i <= |line| && (s.open ==> s.start < i) && s.row == before + [wrong] && row != [] && |wrong| != |row[0]|
    ensures Finished(line, ScanFrom(fmt, line, i, s)) != before + row
  {
    ScanGrows(fmt, line, i, s);
    var t := ScanFrom(fmt, line, i, s);
    FinishedKeeps(line, t);
    var r := Finished(line, t);
    assert r[|before|] == t.row[|before|] == s.row[|before|] == wrong;
    assert (before + row)[|before|] == row[0];
  }

  /** An enclosure character without a backslash ends the field too early. */
  lemma BareEnclosureCuts(fmt: Format, line: string, a: nat, row: Row, s: Scan, k: nat)
    requires fmt.Unambiguous() && fmt.mode.Enclosed? && row != [] && FieldAt(fmt, line, a, row[0]) && !s.open
    requires k < |row[0]| && IsReal(fmt, row[0], k) && NoReal(fmt, row[0], 0, k)
    ensures Finished(line, ScanFrom(fmt, line, a, s)) != s.row + row
  {
    NoRealInside(fmt, line, a, row[0], k);
    InnerIsReal(fmt, line, a, row[0], k);
    ReadsShort(fmt, line, a, row, s, a + 1 + k);
  }

  /** A field closed before its own end comes out too short. */
  lemma ReadsShort(fmt: Format, line: string, a: nat, row: Row, s: Scan, j: nat)
    requires row != [] && !s.open && a < j < |line| && j <= a + |row[0]|
    requires IsReal(fmt, line, a) && NoReal(fmt, line, a + 1, j) && IsReal(fmt, line, j)
    ensures Finished(line, ScanFrom(fmt, line, a, s)) != s.row + row
  {
    FieldCloses(fmt, line, a, s, j);
    var wrong := CString(line[a + 1..j]);
    CStringIsCut(line[a + 1..j]);
    WrongFieldStays(fmt, line, j + 1, Scan(false, a, s.row + [wrong]), s.row, row, wrong);
  }

  /** A field closed after its own end comes out too long. */
  lemma ReadsLong(fmt: Format, line: string, a: nat, row: Row, s: Scan, j: nat)
    requires row != [] && !s.open && a + |row[0]| + 1 < j < |line| && NUL !in line[a + 1..j]
    requires IsReal(fmt, line, a) && NoReal(fmt, line, a + 1, j) && IsReal(fmt, line, j)
    ensures Finished(line, ScanFrom(fmt, line, a, s)) != s.row + row
  {
    FieldCloses(fmt, line, a, s, j);
    var wrong := CString(line[a + 1..j]);
    CStringIsCut(line[a + 1..j]);
    WrongFieldStays(fmt, line, j + 1, Scan(false, a, s.row + [wrong]), s.row, row, wrong);
  }

  /** The field ends in a backslash, but contains no real enclosure character. */
  predicate EndsInEscape(fmt: Format, f: string) {
    f != "" && f[|f| - 1] == ESCAPE && NoReal(fmt, f, 0, |f|)
  }

  /** The closing enclosure of such a field does not count. */
  lemma ClosingIsHidden(fmt: Format, line: string, a: nat, f: string)
    requires fmt.Unambiguous() && fmt.mode.Enclosed? && FieldAt(fmt, line, a, f) && EndsInEscape(fmt, f)
    ensures NoReal(fmt, line, a + 1, a + 2 + |f|)
  {
    NoRealInside(fmt, line, a, f, |f|);
    ClosingIsReal(fmt, line, a, f);
  }

  /** A field still open at the end of the line is longer than what was written. */
  lemma LeftOpenIsLonger(line: string, a: nat, f: string, row: Row)
    requires a + |f| + 2 <= |line| && NUL !in line[..a + |f| + 2]
    ensures Finished(line, Scan(true, a, row)) != row + [f]
  {
    var b := a + |f| + 2;
    if row == [] {
      CStringReaches(line, b);
      assert ([] + [f])[0] == f;
    } else {
      assert line[a + 1..][..|f| + 1] == line[..b][a + 1..];
      CStringReaches(line[a + 1..], |f| + 1);
      assert (row + [f])[|row|] == f;
    }
  }

  /** A backslash at the end of the last field hides its closing enclosure. */
  lemma LastBackslashHidesEnd(fmt: Format, line: string, a: nat, f: string, s: Scan)
    requires fmt.Unambiguous() && fmt.mode.Enclosed? && FieldAt(fmt, line, a, f) && !s.open && EndsInEscape(fmt, f)
    requires NUL !in line[..a + |f| + 2] && NoReal(fmt, line, a + |f| + 2, |line|)
    ensures Finished(line, ScanFrom(fmt, line, a, s)) != s.row + [f]
  {
    ClosingIsHidden(fmt, line, a, f);
    assert NoReal(fmt, line, a + 1, |line|);
    FieldOpens(fmt, line, a, s, |line|);
    LeftOpenIsLonger(line, a, f, s.row);
  }

  /** A backslash at the end of any other field joins it to the next one. */
  lemma InnerBackslashJoins(fmt: Format, line: string, a: nat, row: Row, b: nat, s: Scan)
    requires fmt.Unambiguous() && fmt.mode.Enclosed? && RowAt(fmt, line, a, row, b) && !s.open && |row| > 1
    requires EndsInEscape(fmt, row[0]) && b <= |line| && NUL !in line[..b]
    ensures Finished(line, ScanFrom(fmt, line, a, s)) != s.row + row
  {
    ClosingIsHidden(fmt, line, a, row[0]);
    var j := a + |row[0]| + 3;
    assert FieldAt(fmt, line, j, row[1..][0]);
    assert NoReal(fmt, line, a + 1, j);
    RowReaches(fmt, line, j, row[1..], b);
    assert line[a + 1..j] == line[..b][a + 1..j];
    ReadsLong(fmt, line, a, row, s, j);
  }

  /** A badly escaped first field spoils the row. */
  lemma BadFieldSpoils(fmt: Format, line: string, a: nat, row: Row, b: nat, s: Scan)
    requires fmt.Unambiguous() && fmt.mode.Enclosed? && RowAt(fmt, line, a, row, b) && !s.open
    requires !IsEscaped(fmt, row[0]) && b <= |line| && NUL !in line[..b] && NoReal(fmt, line, b, |line|)
    ensures Finished(line, ScanFrom(fmt, line, a, s)) != s.row + row
  {
    if k: nat :| k < |row[0]| && IsReal(fmt, row[0], k) {
      var first := FirstReal(fmt, row[0], k);
      BareEnclosureCuts(fmt, line, a, row, s, first);
    } else if |row| == 1 {
      assert EndsInEscape(fmt, row[0]);
      LastBackslashHidesEnd(fmt, line, a, row[0], s);
      assert row == [row[0]];
    } else {
      InnerBackslashJoins(fmt, line, a, row, b, s);
    }
  }

  lemma {:induction false} FirstReal(fmt: Format, f: string, k: nat) returns (first: nat)
    requires k < |f| && IsReal(fmt, f, k)
    ensures first <= k && IsReal(fmt, f, first) && NoReal(fmt, f, 0, first)
  {
    first := 0;
    while !IsReal(fmt, f, first)
      invariant first <= k && forall i :: 0 <= i < first ==> !IsReal(fmt, f, i)
      decreases k - first
    {
      first := first + 1;
    }
  }

  /** One badly escaped field anywhere spoils the row. */
  lemma {:induction false} EnclosedDiffers(fmt: Format, line: string, a: nat, row: Row, b: nat, s: Scan)
    requires fmt.Unambiguous() && fmt.mode.Enclosed? && RowAt(fmt, line, a, row, b) && !s.open
    requires !AllEscaped(fmt, row) && IsCut(row) && b <= |line| && NUL !in line[..b] && NoReal(fmt, line, b, |line|)
    ensures Finished(line, ScanFrom(fmt, line, a, s)) != s.row + row
    decreases |row|
  {
    if !IsEscaped(fmt, row[0]) {
      BadFieldSpoils(fmt, line, a, row, b, s);
    } else {
      var i :| 0 <= i < |row| && !IsEscaped(fmt, row[i]);
      assert row[1..][i - 1] == row[i];
      var next := a + |row[0]| + 2;
      var t := Scan(false, a, s.row + [row[0]]);
      FieldIsRead(fmt, line, a, row[0], s);
      SeparatorIsSkipped(fmt, line, next, t);
      EnclosedDiffers(fmt, line, next + 1, row[1..], b, t);
      assert s.row + row == t.row + row[1..];
    }
  }

  lemma NoRealAfter(fmt: Format, line: string, head: string, tail: string)
    requires fmt.enclosed !in tail && line == head + tail
    ensures NoReal(fmt, line, |head|, |line|)
  {
    forall x | |head| <= x < |line| ensures !IsReal(fmt, line, x) {
      assert line[x] == tail[x - |head|];
    }
  }

  /** A row of NUL-free fields reads back exactly when all of them are well escaped, whether or not its line is terminated. */
  lemma EnclosedRowIff(fmt: Format, row: Row, terminated: bool)
    requires fmt.Unambiguous() && fmt.mode.Enclosed? && row != [] && IsCut(row)
    ensures RowOf(fmt, Body(fmt, row) + Tail(fmt, terminated)) == row <==> AllEscaped(fmt, row)
  {
    var body := Body(fmt, row);
    var line := body + Tail(fmt, terminated);
    var s := Scan(false, 0, []);
    assert line[0..] == line;
    RowIsThere(fmt, line, 0, row, Tail(fmt, terminated), |body|);
    NoRealAfter(fmt, line, body, Tail(fmt, terminated));
    BodyMentions(fmt, row, NUL);
    assert line[..|body|] == body;
    assert [] + row == row;
    if AllEscaped(fmt, row) {
      EnclosedScan(fmt, line, 0, row, |body|, s);
    } else {
      EnclosedDiffers(fmt, line, 0, row, |body|, s);
    }
  }

  // ----- Tables

  lemma RowIff(fmt: Format, row: Row)
    requires fmt.Unambiguous() && row != [] && !Mentions(row, fmt.lineTerm)
    ensures RowOf(fmt, Line(fmt, row) + [NUL]) == row <==> Survives(fmt, row)
  {
    RowIsCut(fmt, Line(fmt, row) + [NUL]);
    if fmt.mode.Plain? {
      PlainRowIff(fmt, row);
    } else if IsCut(row) {
      EnclosedRowIff(fmt, row, true);
      assert Line(fmt, row) + [NUL] == Body(fmt, row) + Tail(fmt, true);
    }
  }

  lemma WrittenIff(fmt: Format, rows: seq<Row>)
    requires fmt.Unambiguous() && IsTable(rows) && forall i :: 0 <= i < |rows| ==> !Mentions(rows[i], fmt.lineTerm)
    ensures RowsOf(fmt, Written(fmt, rows)) == rows <==> forall i :: 0 <= i < |rows| ==> Survives(fmt, rows[i])
  {
    forall i | 0 <= i < |rows| ensures RowsOf(fmt, Written(fmt, rows))[i] == rows[i] <==> Survives(fmt, rows[i]) {
      WrittenAt(fmt, rows, i);
      RowAtLine(fmt, Written(fmt, rows), i);
      RowIff(fmt, rows[i]);
    }
  }

  lemma CleanRowsAreFound(fmt: Format, rows: seq<Row>)
    requires fmt.Unambiguous() && IsTable(rows) && rows != []
    requires forall i :: 0 <= i < |rows| ==> !Mentions(rows[i], fmt.lineTerm)
    ensures Lines(Text(fmt, rows), fmt.lineTerm) == Written(fmt, rows)
  {
    var text := Text(fmt, rows);
    assert text == text + "";
    LinesAreFound(fmt, rows, "", text);
    assert Written(fmt, rows) + [] == Written(fmt, rows);
  }

  lemma MentioningFails(fmt: Format, row: Row)
    requires Mentions(row, fmt.lineTerm)
    ensures !Survives(fmt, row)
  {
    var i :| 0 <= i < |row| && fmt.lineTerm in row[i];
    assert !FieldSurvives(fmt, row[i]);
  }

  /** A line terminator within a field makes too many lines. */
  lemma ExtraLines(fmt: Format, rows: seq<Row>, i: nat)
    requires fmt.Unambiguous() && IsTable(rows) && i < |rows| && Mentions(rows[i], fmt.lineTerm)
    ensures |Rows(fmt, Text(fmt, rows))| > |rows|
  {
    TextEndsALine(fmt, rows);
    TextTerminators(fmt, rows);
    LineCount(Text(fmt, rows), fmt.lineTerm);
  }

  /** A written table reads back exactly when each of its fields survives. */
  lemma TableRoundTripIff(fmt: Format, rows: seq<Row>)
    requires fmt.Unambiguous() && IsTable(rows) && rows != []
    ensures Rows(fmt, Text(fmt, rows)) == rows <==> forall i :: 0 <= i < |rows| ==> Survives(fmt, rows[i])
  {
    if i: nat :| i < |rows| && Mentions(rows[i], fmt.lineTerm) {
      ExtraLines(fmt, rows, i);
      MentioningFails(fmt, rows[i]);
    } else {
      CleanRowsAreFound(fmt, rows);
      WrittenIff(fmt, rows);
    }
  }

  lemma {:induction false} TextEndsALine(fmt: Format, rows: seq<Row>)
    requires IsTable(rows) && rows != []
    ensures Text(fmt, rows) != "" && Text(fmt, rows)[|Text(fmt, rows)| - 1] == fmt.lineTerm
  {
    if |rows| == 1 {
    } else {
      TextEndsALine(fmt, rows[1..]);
    }
  }

  /** A line without its terminator: a plain one loses its last field, an enclosed one is complete. */
  lemma UnterminatedRow(fmt: Format, row: Row)
    requires fmt.Unambiguous() && row != [] && Survives(fmt, row)
    ensures RowOf(fmt, Body(fmt, row) + [NUL]) == if fmt.mode.Plain? then row[..|row| - 1] else row
  {
    if fmt.mode.Plain? {
      assert "" + Body(fmt, row) + Tail(fmt, false) == Body(fmt, row) + [NUL];
      PlainScan(fmt, Body(fmt, row) + [NUL], "", row, false);
      AllCutIff(row[..|row| - 1]);
    } else {
      EnclosedRowIff(fmt, row, false);
    }
  }

  lemma OneLine(fmt: Format, body: string)
    requires body != "" && fmt.lineTerm !in body
    ensures Lines(body, fmt.lineTerm) == [body + [NUL]]
  {
    LineEndOfAll(body, fmt.lineTerm);
    assert body[..|body|] == body;
  }

  lemma OneMoreRow(fmt: Format, lines: seq<string>, line: string)
    ensures RowsOf(fmt, lines + [line]) == RowsOf(fmt, lines) + [RowOf(fmt, line)]
  {
    RowsOfConcat(fmt, lines, [line]);
    assert [line][1..] == [];
  }

  lemma LastLineIsFound(fmt: Format, rows: seq<Row>, last: Row, text: string)
    requires fmt.Unambiguous() && IsTable(rows) && last != [] && !Mentions(last, fmt.lineTerm)
    requires forall i :: 0 <= i < |rows| ==> !Mentions(rows[i], fmt.lineTerm)
    requires Body(fmt, last) != "" && text == Text(fmt, rows) + Body(fmt, last)
    ensures Lines(text, fmt.lineTerm) == Written(fmt, rows) + [Body(fmt, last) + [NUL]]
  {
    BodyMentions(fmt, last, fmt.lineTerm);
    OneLine(fmt, Body(fmt, last));
    if rows == [] {
      assert text == Body(fmt, last);
    } else {
      LinesAreFound(fmt, rows, Body(fmt, last), text);
    }
  }

  /** What a file gives back whose last row lacks its terminator. */
  function WithLast(fmt: Format, rows: seq<Row>, last: Row): seq<Row>
    requires last != []
  {
    rows + [if fmt.mode.Plain? then last[..|last| - 1] else last]
  }

  /** Such a file comes back except, in plain mode, for that row's last field. */
  lemma LastRowUnterminated(fmt: Format, rows: seq<Row>, last: Row, text: string)
    requires fmt.Unambiguous() && IsTable(rows) && last != [] && Survives(fmt, last)
    requires forall i :: 0 <= i < |rows| ==> Survives(fmt, rows[i])
    requires Body(fmt, last) != "" && text == Text(fmt, rows) + Body(fmt, last)
    ensures Rows(fmt, text) == WithLast(fmt, rows, last)
  {
    assert !Mentions(last, fmt.lineTerm) && forall i :: 0 <= i < |rows| ==> !Mentions(rows[i], fmt.lineTerm);
    LastLineIsFound(fmt, rows, last, text);
    WrittenIff(fmt, rows);
    OneMoreRow(fmt, Written(fmt, rows), Body(fmt, last) + [NUL]);
    UnterminatedRow(fmt, last);
  }

  lemma LineEndOfAll(s: string, c: char)
    requires c !in s
    ensures LineEnd(s, c) == |s|
  {
  }
}
