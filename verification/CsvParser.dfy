/** The CSV reader itself: one line at a time, one row for each line. */
module CsvParser {
  import opened CsvFormat
  import opened CsvRoundTrip

  /** The buffer that one read fills. */
  function FirstLine(rest: string, lineTerm: char): string {
    if rest == "" then "" else rest[..LineEnd(rest, lineTerm)] + [NUL]
  }

  lemma LinesFromFirst(rest: string, c: char, n: nat, more: seq<string>)
    requires n == LineEnd(rest, c) && more == if n < |rest| then Lines(rest[n..], c) else []
    ensures Lines(rest, c) == [FirstLine(rest, c)] + more
  {
  }

  lemma RowsOfFirst(fmt: Format, line: string, more: seq<string>)
    ensures RowsOf(fmt, [line] + more) == [RowOf(fmt, line)] + RowsOf(fmt, more)
  {
    assert ([line] + more)[1..] == more;
  }

  /** One read, then the rest. */
  lemma RowsFromFirst(fmt: Format, rest: string, n: nat)
    requires n == LineEnd(rest, fmt.lineTerm)
    ensures Rows(fmt, rest) ==
      [RowOf(fmt, FirstLine(rest, fmt.lineTerm))] + if n < |rest| then Rows(fmt, rest[n..]) else []
  {
    var more := if n < |rest| then Lines(rest[n..], fmt.lineTerm) else [];
    LinesFromFirst(rest, fmt.lineTerm, n, more);
    RowsOfFirst(fmt, FirstLine(rest, fmt.lineTerm), more);
  }

  lemma {:induction false} LineEndFrom(input: string, start: nat, at: nat, c: char)
    requires start <= at <= |input| && forall k :: start <= k < at ==> input[k] != c
    ensures LineEnd(input[start..], c) == at - start + LineEnd(input[at..], c)
    decreases at - start
  {
    if start == at {
    } else {
      LineEndFrom(input, start + 1, at, c);
      assert input[start..][1..] == input[start + 1..];
    }
  }

  class Parser {
    const input: string
    const fmt: Format
    var pos: nat
    var moreRows: bool
    var recordCount: nat

    predicate Valid()
      reads this
    {
      pos <= |input|
    }

    /** The rows that a loop over has_more_rows and get_row still finds. */
    ghost function Remaining(): seq<Row>
      reads this
      requires Valid()
    {
      if moreRows then Rows(fmt, input[pos..]) else []
    }

    constructor (input: string, fmt: Format)
      ensures Valid() && this.input == input && this.fmt == fmt && Remaining() == Rows(fmt, input) && recordCount == 0
    {
      this.input, this.fmt, pos, moreRows, recordCount := input, fmt, 0, true, 0;
      new;
      assert input[0..] == input;
    }

    /** Takes the next line, with its terminator and a final NUL; nothing at the end of the file. */
    method ReadSingleLine() returns (line: string)
      requires Valid()
      modifies this`pos, this`moreRows
      ensures Valid() && line == FirstLine(input[old(pos)..], fmt.lineTerm)
      ensures pos == old(pos) + LineEnd(input[old(pos)..], fmt.lineTerm)
      ensures moreRows == (old(moreRows) && pos < |input|)
    {
      var original := pos;
      var current := original;
      while true
        invariant original <= current <= |input| && moreRows == old(moreRows)
        invariant forall k :: original <= k < current ==> input[k] != fmt.lineTerm
        decreases |input| - current
      {
        if current == |input| {
          moreRows := false;
          break;
        } else if input[current] == fmt.lineTerm {
          LineEndFrom(input, original, current, fmt.lineTerm);
          current := current + 1;
          break;
        } else {
          current := current + 1;
        }
      }
      if current == |input| {
        AllRead(original);
      }
      if moreRows {
        moreRows := current < |input|;
      }
      if current > original {
        line := input[original..current] + [NUL];
        assert input[original..][..current - original] == input[original..current];
      } else {
        line := "";
      }
      pos := current;
    }

    lemma AllRead(original: nat)
      requires original <= |input|
      requires forall k :: original <= k < |input| - 1 ==> input[k] != fmt.lineTerm
      ensures LineEnd(input[original..], fmt.lineTerm) == |input| - original
    {
      if original < |input| {
        LineEndFrom(input, original, |input| - 1, fmt.lineTerm);
        assert input[|input| - 1..][1..] == "";
      }
    }

    method GetFieldsWithoutEnclosure(line: string) returns (row: Row)
      ensures row == if line == "" then [] else PlainFrom(fmt, line, 0, 0)
    {
      row := [];
      if |line| > 0 {
        var fieldStart := 0;
        var charPos := 0;
        while charPos < |line|
          invariant fieldStart <= charPos <= |line|
          invariant row + PlainFrom(fmt, line, charPos, fieldStart) == PlainFrom(fmt, line, 0, 0)
        {
          var c := line[charPos];
          if c == fmt.fieldTerm {
            row := row + [CString(line[fieldStart..charPos])];
            fieldStart := charPos + 1;
          } else if c == fmt.lineTerm {
            row := row + [CString(line[fieldStart..charPos])];
          }
          charPos := charPos + 1;
        }
      }
    }

    method GetFieldsWithEnclosure(line: string) returns (row: Row)
      ensures row == if line == "" then [] else Finished(line, ScanFrom(fmt, line, 0, Scan(false, 0, [])))
    {
      row := [];
      if |line| > 0 {
        var state := 0;
        var fieldStart := 0;
        var charPos := 0;
        while charPos < |line|
          invariant charPos <= |line| && 0 <= state <= 1 && (state == 1 ==> fieldStart < charPos)
          invariant ScanFrom(fmt, line, charPos, Scan(state == 1, fieldStart, row)) ==
            ScanFrom(fmt, line, 0, Scan(false, 0, []))
        {
          var c := line[charPos];
          if c == fmt.enclosed {
            state := state + 1;
            var previous := NUL;
            if charPos > 0 {
              previous := line[charPos - 1];
              if previous == ESCAPE {
                state := state - 1;
              }
            }
            if state == 1 && previous != ESCAPE {
              fieldStart := charPos;
            } else if state == 2 {
              row := row + [CString(line[fieldStart + 1..charPos])];
              state := 0;
            }
          }
          charPos := charPos + 1;
        }
        if |row| == 0 {
          row := [CString(line)];
        } else if state == 1 {
          row := row + [CString(line[fieldStart + 1..])];
        }
      }
    }

    method GetRow() returns (row: Row)
      requires Valid()
      modifies this
      ensures Valid() && row == RowOf(fmt, FirstLine(input[old(pos)..], fmt.lineTerm))
      ensures old(moreRows) ==> old(Remaining()) == [row] + Remaining()
      ensures !old(moreRows) ==> !moreRows
      ensures pos == old(pos) + LineEnd(input[old(pos)..], fmt.lineTerm) && recordCount == old(recordCount) + 1
    {
      ghost var rest := input[pos..];
      var line := ReadSingleLine();
      match fmt.mode {
        case Plain => row := GetFieldsWithoutEnclosure(line);
        case Enclosed => row := GetFieldsWithEnclosure(line);
      }
      recordCount := recordCount + 1;
      RowsFromFirst(fmt, rest, LineEnd(rest, fmt.lineTerm));
      assert rest[LineEnd(rest, fmt.lineTerm)..] == input[pos..];
    }

    /** Throws away the first `count` rows, or all of them. */
    method SkipLines(count: nat)
      requires Valid()
      modifies this
      ensures Valid() && recordCount == 0
      ensures Remaining() == old(Remaining())[if count <= |old(Remaining())| then count else |old(Remaining())|..]
    {
      var left := count;
      ghost var all := Remaining();
      while moreRows && left > 0
        invariant Valid() && 0 <= left <= count && count - left <= |all|
        invariant Remaining() == all[count - left..]
        decreases left
      {
        ghost var before := Remaining();
        var row := GetRow();
        assert Remaining() == before[1..];
        left := left - 1;
      }
      recordCount := 0;
    }

    /** The loop for which has_more_rows and get_row are made. */
    method ReadAll() returns (rows: seq<Row>)
      requires Valid()
      modifies this
      ensures Valid() && rows == old(Remaining()) && !moreRows
    {
      rows := [];
      while moreRows
        invariant Valid() && rows + Remaining() == old(Remaining())
        decreases |Remaining()|
      {
        var row := GetRow();
        rows := rows + [row];
      }
    }
  }

  /** Reading back a written table gives that table, exactly when all its fields survive. */
  method ReadBack(fmt: Format, rows: seq<Row>) returns (back: seq<Row>)
    requires fmt.Unambiguous() && IsTable(rows) && rows != []
    ensures back == rows <==> forall i :: 0 <= i < |rows| ==> Survives(fmt, rows[i])
  {
    var parser := new Parser(Text(fmt, rows), fmt);
    back := parser.ReadAll();
    TableRoundTripIff(fmt, rows);
  }
}
