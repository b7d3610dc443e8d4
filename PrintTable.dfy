/** `print_table` of the Python 3 program: the lines it prints for a list of
    fetched rows under a list of headers. Column widths come from
    `zip(headers, *data)`, every field is left-aligned with `"{:<w}"`, fields
    are joined with " | ", and a rule of dashes follows the header line. */
module PrintTable {
  import opened Schema

  /** A value fetched from SQLite: INTEGER, TEXT or NULL. */
  datatype Cell = IntCell(n: int) | TextCell(s: string) | NullCell

  // Python's `str` of a fetched value.

  function DigitChar(d: nat): (c: char)
    requires d < 10
    ensures '0' <= c <= '9' && c as int - '0' as int == d
  {
    ('0' as int + d) as char
  }

  /** The decimal numeral of `n`, without leading zeros. */
  function Digits(n: nat): (s: string)
    ensures |s| >= 1
    ensures forall i :: 0 <= i < |s| ==> '0' <= s[i] <= '9'
    ensures s[0] == '0' <==> n == 0
  {
    if n < 10 then [DigitChar(n)] else Digits(n / 10) + [DigitChar(n % 10)]
  }

  ghost predicate IsNumeral(s: string)
  {
    forall i :: 0 <= i < |s| ==> '0' <= s[i] <= '9'
  }

  /** The value of a decimal numeral. */
  function NumeralValue(s: string): nat
    requires IsNumeral(s)
  {
    if s == [] then 0 else NumeralValue(s[..|s| - 1]) * 10 + (s[|s| - 1] as int - '0' as int)
  }

  /** `str(x)`: an INTEGER prints as its decimal numeral, TEXT as itself, and
      NULL as "None". */
  function Str(c: Cell): string
  {
    match c
    case IntCell(n) => if n < 0 then "-" + Digits(-n) else Digits(n)
    case TextCell(s) => s
    case NullCell => "None"
  }

  /** Reading back what `str` printed for an integer. */
  function IntValue(s: string): int
    requires |s| >= 1 && IsNumeral(if s[0] == '-' then s[1..] else s)
  {
    if s[0] == '-' then 0 - NumeralValue(s[1..]) as int else NumeralValue(s)
  }

  lemma {:induction false} DigitsRoundTrip(n: nat)
    ensures IsNumeral(Digits(n))
    ensures NumeralValue(Digits(n)) == n
  {
    if n >= 10 {
      DigitsRoundTrip(n / 10);
      var s := Digits(n);
      assert s[..|s| - 1] == Digits(n / 10);
    }
  }

  /** The printed integer names the fetched one: `str` loses nothing. */
  lemma StrIntRoundTrip(n: int)
    ensures var s := Str(IntCell(n));
            |s| >= 1 && IsNumeral(if s[0] == '-' then s[1..] else s) && IntValue(s) == n
  {
    if n < 0 {
      DigitsRoundTrip(-n);
      assert ("-" + Digits(-n))[1..] == Digits(-n);
    } else {
      DigitsRoundTrip(n);
    }
  }

  // The column widths.

  /** How many columns `zip(headers, *data)` yields: as many as the shortest
      of the header list and the rows. */
  function ColumnCount(headers: seq<string>, data: seq<seq<Cell>>): (k: nat)
    ensures k <= |headers|
    ensures forall i :: 0 <= i < |data| ==> k <= |data[i]|
  {
    if data == [] then |headers|
    else
      var k0 := ColumnCount(headers, data[..|data| - 1]);
      var last := |data[|data| - 1]|;
      if last < k0 then last else k0
  }

  /** Width of column j: the longest `str` among the header and the row cells. */
  function ColumnWidth(headers: seq<string>, data: seq<seq<Cell>>, j: nat): (w: nat)
    requires j < |headers|
    requires forall i :: 0 <= i < |data| ==> j < |data[i]|
  {
    if data == [] then |headers[j]|
    else
      var w0 := ColumnWidth(headers, data[..|data| - 1], j);
      var c := |Str(data[|data| - 1][j])|;
      if c > w0 then c else w0
  }

  /** zip stops at the shortest: the column count is the header count or
      the length of some row. */
  lemma {:induction false} ColumnCountIsShortest(headers: seq<string>, data: seq<seq<Cell>>)
    ensures var k := ColumnCount(headers, data);
            k == |headers| || exists i :: 0 <= i < |data| && k == |data[i]|
  {
    if data != [] {
      var init := data[..|data| - 1];
      ColumnCountIsShortest(headers, init);
      if ColumnCount(headers, init) != |headers| && ColumnCount(headers, data) == ColumnCount(headers, init) {
        var i :| 0 <= i < |init| && ColumnCount(headers, init) == |init[i]|;
        assert data[i] == init[i];
      }
    }
  }

  /** The width of a column is the maximum length: at least the header's and
      every cell's, and equal to one of them. */
  lemma {:induction false} ColumnWidthIsMax(headers: seq<string>, data: seq<seq<Cell>>, j: nat)
    requires j < |headers|
    requires forall i :: 0 <= i < |data| ==> j < |data[i]|
    ensures var w := ColumnWidth(headers, data, j);
            && w >= |headers[j]|
            && (forall i :: 0 <= i < |data| ==> w >= |Str(data[i][j])|)
            && (w == |headers[j]| || exists i :: 0 <= i < |data| && w == |Str(data[i][j])|)
  {
    if data != [] {
      var init := data[..|data| - 1];
      ColumnWidthIsMax(headers, init, j);
      var w0 := ColumnWidth(headers, init, j);
      forall i | 0 <= i < |data| ensures ColumnWidth(headers, data, j) >= |Str(data[i][j])| {
        if i < |init| {
          assert data[i] == init[i];
        }
      }
      if w0 != |headers[j]| && ColumnWidth(headers, data, j) == w0 {
        var i :| 0 <= i < |init| && w0 == |Str(init[i][j])|;
        assert data[i] == init[i];
      }
    }
  }

  /** `col_widths`. */
  function Widths(headers: seq<string>, data: seq<seq<Cell>>): (ws: seq<nat>)
    ensures |ws| == ColumnCount(headers, data)
  {
    var k := ColumnCount(headers, data);
    seq(k, j requires 0 <= j < k => ColumnWidth(headers, data, j))
  }

  /** Every width fits its header and every cell below it, and is no wider
      than the widest of them. */
  lemma WidthsFitColumns(headers: seq<string>, data: seq<seq<Cell>>)
    ensures var ws := Widths(headers, data);
            forall j :: 0 <= j < |ws| ==>
              && ws[j] >= |headers[j]|
              && (forall i :: 0 <= i < |data| ==> ws[j] >= |Str(data[i][j])|)
              && (ws[j] == |headers[j]| || exists i :: 0 <= i < |data| && ws[j] == |Str(data[i][j])|)
  {
    var ws := Widths(headers, data);
    forall j | 0 <= j < |ws|
      ensures && ws[j] >= |headers[j]|
              && (forall i :: 0 <= i < |data| ==> ws[j] >= |Str(data[i][j])|)
              && (ws[j] == |headers[j]| || exists i :: 0 <= i < |data| && ws[j] == |Str(data[i][j])|)
    {
      ColumnWidthIsMax(headers, data, j);
    }
  }

  /** The sum of the first n widths. */
  function SumTo(ws: seq<nat>, n: nat): nat
    requires n <= |ws|
  {
    if n == 0 then 0 else SumTo(ws, n - 1) + ws[n - 1]
  }

  /** `sum(col_widths)`. */
  function Sum(ws: seq<nat>): nat
  {
    SumTo(ws, |ws|)
  }

  // Formatting one line.

  function Spaces(n: nat): (s: string)
    ensures |s| == n && forall i :: 0 <= i < n ==> s[i] == ' '
  {
    seq(n, _ => ' ')
  }

  /** `"{:<w}".format(s)`: the text, left-aligned and filled with spaces to
      width w; a longer text is kept whole. */
  function Pad(s: string, w: nat): (r: string)
    ensures |r| == if |s| < w then w else |s|
  {
    if |s| < w then s + Spaces(w - |s|) else s
  }

  /** The padded field starts with the text and continues with spaces only. */
  lemma PadKeepsText(s: string, w: nat)
    ensures Pad(s, w)[..|s|] == s
    ensures forall i :: |s| <= i < |Pad(s, w)| ==> Pad(s, w)[i] == ' '
  {
  }

  ghost predicate Fits(fields: seq<string>, ws: seq<nat>)
  {
    |fields| == |ws| && forall j :: 0 <= j < |ws| ==> |fields[j]| <= ws[j]
  }

  /** Every field padded to its column's width. */
  function Padded(fields: seq<string>, ws: seq<nat>): (parts: seq<string>)
    requires |fields| == |ws|
    ensures |parts| == |ws|
  {
    seq(|ws|, j requires 0 <= j < |ws| => Pad(fields[j], ws[j]))
  }

  /** The first n parts joined by " | ". */
  function Join(parts: seq<string>, n: nat): string
    requires n <= |parts|
  {
    if n == 0 then ""
    else if n == 1 then parts[0]
    else Join(parts, n - 1) + (" | " + parts[n - 1])
  }

  /** `format_str.format(*fields)`: the padded fields joined by " | ". */
  function FormatFields(fields: seq<string>, ws: seq<nat>): string
    requires |fields| == |ws|
  {
    Join(Padded(fields, ws), |ws|)
  }

  /** Each part is exactly as long as its column's width. */
  ghost predicate Sized(parts: seq<string>, ws: seq<nat>)
  {
    |parts| == |ws| && forall j :: 0 <= j < |ws| ==> |parts[j]| == ws[j]
  }

  lemma PaddedSized(fields: seq<string>, ws: seq<nat>)
    requires Fits(fields, ws)
    ensures Sized(Padded(fields, ws), ws)
  {
  }

  lemma {:induction false} JoinLength(parts: seq<string>, ws: seq<nat>, n: nat)
    requires Sized(parts, ws) && 1 <= n <= |ws|
    ensures |Join(parts, n)| == SumTo(ws, n) + 3 * (n - 1)
  {
    if n > 1 {
      JoinLength(parts, ws, n - 1);
    }
  }

  /** A formatted line is as long as its fields' widths plus a three-character
      separator between each two of them. */
  lemma FormatFieldsLength(fields: seq<string>, ws: seq<nat>)
    requires Fits(fields, ws)
    ensures |fields| == 0 ==> FormatFields(fields, ws) == ""
    ensures |fields| > 0 ==> |FormatFields(fields, ws)| == Sum(ws) + 3 * (|ws| - 1)
  {
    if |fields| > 0 {
      PaddedSized(fields, ws);
      JoinLength(Padded(fields, ws), ws, |ws|);
    }
  }

  /** Where field j starts in a formatted line. */
  function Offset(ws: seq<nat>, j: nat): nat
    requires j <= |ws|
  {
    SumTo(ws, j) + 3 * j
  }

  /** Text p sits at position a of line. */
  ghost predicate At(line: string, a: nat, p: string)
  {
    a + |p| <= |line| && line[a..a + |p|] == p
  }

  lemma AtEnd(prefix: string, last: string)
    ensures At(prefix + (" | " + last), |prefix| + 3, last)
  {
  }

  /** Text at a position of a prefix is still there once more text follows. */
  lemma AtPrefix(prefix: string, rest: string, a: nat, p: string)
    requires At(prefix, a, p)
    ensures At(prefix + rest, a, p)
  {
    assert (prefix + rest)[a..a + |p|] == prefix[a..a + |p|];
  }

  /** Part j of the first n parts sits at its offset. */
  lemma {:induction false} PartAt(parts: seq<string>, ws: seq<nat>, n: nat, j: nat)
    requires Sized(parts, ws) && j < n <= |ws|
    ensures At(Join(parts, n), Offset(ws, j), parts[j])
  {
    if n == 1 {
    } else if j == n - 1 {
      JoinLength(parts, ws, n - 1);
      AtEnd(Join(parts, n - 1), parts[n - 1]);
    } else {
      PartAt(parts, ws, n - 1, j);
      AtPrefix(Join(parts, n - 1), " | " + parts[n - 1], Offset(ws, j), parts[j]);
    }
  }

  /** Field j of a formatted line sits at its offset and holds its text,
      filled with spaces to its width. */
  lemma FieldAt(fields: seq<string>, ws: seq<nat>, j: nat)
    requires Fits(fields, ws)
    requires j < |ws|
    ensures var line := FormatFields(fields, ws);
            && Offset(ws, j) + ws[j] <= |line|
            && line[Offset(ws, j)..Offset(ws, j) + ws[j]] == Pad(fields[j], ws[j])
  {
    PaddedSized(fields, ws);
    PartAt(Padded(fields, ws), ws, |ws|, j);
  }

  /** `"-" * n`: n dashes, and none when n is not positive. */
  function Rule(n: int): (r: string)
    ensures |r| == if n > 0 then n else 0
    ensures forall i :: 0 <= i < |r| ==> r[i] == '-'
  {
    if n <= 0 then [] else seq(n, _ => '-')
  }

  function Texts(cells: seq<Cell>): (r: seq<string>)
    ensures |r| == |cells|
  {
    seq(|cells|, j requires 0 <= j < |cells| => Str(cells[j]))
  }

  /** The line printed for each row: its first |ws| cells, formatted. */
  function RowLines(rows: seq<seq<Cell>>, ws: seq<nat>): (r: seq<string>)
    requires forall i :: 0 <= i < |rows| ==> |ws| <= |rows[i]|
    ensures |r| == |rows|
  {
    if rows == [] then [] else [FormatFields(Texts(rows[0][..|ws|]), ws)] + RowLines(rows[1..], ws)
  }

  lemma {:induction false} RowLineAt(rows: seq<seq<Cell>>, ws: seq<nat>, i: nat)
    requires forall i :: 0 <= i < |rows| ==> |ws| <= |rows[i]|
    requires i < |rows|
    ensures RowLines(rows, ws)[i] == FormatFields(Texts(rows[i][..|ws|]), ws)
    decreases i
  {
    if i > 0 {
      RowLineAt(rows[1..], ws, i - 1);
    }
  }

  const NoRecords := "No records found."

  /** The rule's length as the program computes it: from the number of
      headers, not the number of columns. */
  function RuleLength(headers: seq<string>, data: seq<seq<Cell>>): int
  {
    Sum(Widths(headers, data)) + 3 * (|headers| - 1)
  }

  /** What `print_table` prints once every field is formatted from its `str`:
      "No records found." for no rows; otherwise the header line, the rule,
      and one line per row. */
  function Print(data: seq<seq<Cell>>, headers: seq<string>): seq<string>
  {
    if data == [] then [NoRecords]
    else
      var k, ws := ColumnCount(headers, data), Widths(headers, data);
      [FormatFields(headers[..k], ws), Rule(RuleLength(headers, data))] + RowLines(data, ws)
  }

  /** No rows, and only then, prints the single "No records found." line and no
      header; otherwise a header, a rule and one line per row. */
  lemma PrintNoRecords(data: seq<seq<Cell>>, headers: seq<string>)
    ensures Print(data, headers) == [NoRecords] <==> data == []
    ensures data != [] ==> |Print(data, headers)| == |data| + 2
  {
  }

  /** The rule is all dashes, sum(widths) + 3 * (len(headers) - 1) of them. */
  lemma PrintRule(data: seq<seq<Cell>>, headers: seq<string>)
    requires data != []
    ensures var rule, n := Print(data, headers)[1], RuleLength(headers, data);
            && |rule| == (if n > 0 then n else 0)
            && forall i :: 0 <= i < |rule| ==> rule[i] == '-'
  {
  }

  lemma FieldsFit(data: seq<seq<Cell>>, headers: seq<string>, i: nat)
    requires i < |data|
    ensures var k, ws := ColumnCount(headers, data), Widths(headers, data);
            Fits(headers[..k], ws) && Fits(Texts(data[i][..k]), ws)
  {
    WidthsFitColumns(headers, data);
  }

  lemma PrintedLines(data: seq<seq<Cell>>, headers: seq<string>, i: nat)
    requires i < |data|
    ensures var lines, k, ws := Print(data, headers), ColumnCount(headers, data), Widths(headers, data);
            && |lines| == |data| + 2
            && lines[0] == FormatFields(headers[..k], ws)
            && lines[1] == Rule(RuleLength(headers, data))
            && lines[i + 2] == FormatFields(Texts(data[i][..k]), ws)
  {
    RowLineAt(data, Widths(headers, data), i);
  }

  /** Every column of the header line holds that header, padded to the
      column's width, at the column's offset. */
  lemma PrintShowsHeaders(data: seq<seq<Cell>>, headers: seq<string>, j: nat)
    requires data != []
    requires j < ColumnCount(headers, data)
    ensures var lines, ws := Print(data, headers), Widths(headers, data);
            var a := Offset(ws, j);
            && |lines| == |data| + 2
            && a + ws[j] <= |lines[0]|
            && lines[0][a..a + ws[j]] == Pad(headers[j], ws[j])
  {
    var k, ws := ColumnCount(headers, data), Widths(headers, data);
    PrintedLines(data, headers, 0);
    FieldsFit(data, headers, 0);
    FieldAt(headers[..k], ws, j);
  }

  /** Every column of a row's line holds that cell's `str`, padded to the
      column's width, at the same offset as its header. */
  lemma PrintShowsCells(data: seq<seq<Cell>>, headers: seq<string>, i: nat, j: nat)
    requires i < |data|
    requires j < ColumnCount(headers, data)
    ensures var lines, ws := Print(data, headers), Widths(headers, data);
            var a := Offset(ws, j);
            && |lines| == |data| + 2
            && a + ws[j] <= |lines[i + 2]|
            && lines[i + 2][a..a + ws[j]] == Pad(Str(data[i][j]), ws[j])
  {
    var k, ws := ColumnCount(headers, data), Widths(headers, data);
    var fields := Texts(data[i][..k]);
    PrintedLines(data, headers, i);
    FieldsFit(data, headers, i);
    FieldAt(fields, ws, j);
    assert fields[j] == Str(data[i][j]);
  }

  lemma PrintedLineLength(data: seq<seq<Cell>>, headers: seq<string>, n: nat)
    requires data != [] && |headers| >= 1
    requires ColumnCount(headers, data) == |headers|
    requires n < |data| + 2
    ensures |Print(data, headers)| == |data| + 2
    ensures |Print(data, headers)[n]| == RuleLength(headers, data)
  {
    var k, ws := ColumnCount(headers, data), Widths(headers, data);
    var i := if n < 2 then 0 else n - 2;
    PrintedLines(data, headers, i);
    FieldsFit(data, headers, i);
    if n == 0 {
      FormatFieldsLength(headers[..k], ws);
    } else if n >= 2 {
      FormatFieldsLength(Texts(data[i][..k]), ws);
    }
  }

  /** When every row has a cell for every header, the header line, the rule
      and every row line have the same length. */
  lemma PrintAligned(data: seq<seq<Cell>>, headers: seq<string>)
    requires data != [] && |headers| >= 1
    requires forall i :: 0 <= i < |data| ==> |data[i]| >= |headers|
    ensures var lines := Print(data, headers);
            forall l :: l in lines ==> |l| == RuleLength(headers, data)
  {
    var lines := Print(data, headers);
    ColumnCountIsShortest(headers, data);
    forall l | l in lines ensures |l| == RuleLength(headers, data) {
      var n :| 0 <= n < |lines| && lines[n] == l;
      PrintedLineLength(data, headers, n);
    }
  }

  // The program as written, under Python 3.

  /** What was printed before `print_table` returned or raised. */
  datatype Printed = Printed(lines: seq<string>, typeError: bool)

  /** `format_str.format(*row)` in Python 3: a NULL cell reaches
      `NoneType.__format__` with the non-empty spec "<w", which raises
      TypeError; otherwise the row's line. */
  function RowAsWritten(cells: seq<Cell>, ws: seq<nat>): Option<string>
    requires |cells| == |ws|
  {
    if NullCell in cells then None else Some(FormatFields(Texts(cells), ws))
  }

  /** The row loop: print each row's line until one raises. */
  function RowsAsWritten(rows: seq<seq<Cell>>, ws: seq<nat>): Printed
    requires forall i :: 0 <= i < |rows| ==> |ws| <= |rows[i]|
  {
    if rows == [] then Printed([], false)
    else
      match RowAsWritten(rows[0][..|ws|], ws)
      case None => Printed([], true)
      case Some(line) =>
        var rest := RowsAsWritten(rows[1..], ws);
        Printed([line] + rest.lines, rest.typeError)
  }

  function PrintAsWritten(data: seq<seq<Cell>>, headers: seq<string>): Printed
  {
    if data == [] then Printed([NoRecords], false)
    else
      var k, ws := ColumnCount(headers, data), Widths(headers, data);
      var rows := RowsAsWritten(data, ws);
      Printed([FormatFields(headers[..k], ws), Rule(RuleLength(headers, data))] + rows.lines, rows.typeError)
  }

  /** Some row has a NULL among its first w cells. */
  ghost predicate HasNull(rows: seq<seq<Cell>>, w: nat)
    requires forall i :: 0 <= i < |rows| ==> w <= |rows[i]|
  {
    exists i :: 0 <= i < |rows| && NullCell in rows[i][..w]
  }

  lemma HasNullCons(rows: seq<seq<Cell>>, w: nat)
    requires rows != []
    requires forall i :: 0 <= i < |rows| ==> w <= |rows[i]|
    ensures HasNull(rows, w) <==> NullCell in rows[0][..w] || HasNull(rows[1..], w)
  {
    var tail := rows[1..];
    if HasNull(rows, w) {
      var i :| 0 <= i < |rows| && NullCell in rows[i][..w];
      if i > 0 {
        assert tail[i - 1] == rows[i];
      }
    }
    if HasNull(tail, w) {
      var i :| 0 <= i < |tail| && NullCell in tail[i][..w];
      assert rows[i + 1] == tail[i];
    }
  }

  lemma {:induction false} RowsAsWrittenSpec(rows: seq<seq<Cell>>, ws: seq<nat>)
    requires forall i :: 0 <= i < |rows| ==> |ws| <= |rows[i]|
    ensures var p := RowsAsWritten(rows, ws);
            && (p.typeError <==> HasNull(rows, |ws|))
            && |p.lines| <= |rows|
            && p.lines == RowLines(rows, ws)[..|p.lines|]
            && (!p.typeError ==> p.lines == RowLines(rows, ws))
    decreases |rows|
  {
    if rows != [] {
      RowsAsWrittenSpec(rows[1..], ws);
      HasNullCons(rows, |ws|);
      var line := FormatFields(Texts(rows[0][..|ws|]), ws);
      var p, q := RowsAsWritten(rows, ws), RowsAsWritten(rows[1..], ws);
      assert RowLines(rows, ws) == [line] + RowLines(rows[1..], ws);
      if NullCell !in rows[0][..|ws|] {
        assert p == Printed([line] + q.lines, q.typeError);
        PrefixAfterHead([line], RowLines(rows[1..], ws), q.lines);
      }
    }
  }

  /** The row loop stops at the first row holding a NULL: every row printed
      before the raise is free of NULLs, and the row that raised holds one. */
  lemma {:induction false} RowsAsWrittenStop(rows: seq<seq<Cell>>, ws: seq<nat>)
    requires forall i :: 0 <= i < |rows| ==> |ws| <= |rows[i]|
    ensures var p := RowsAsWritten(rows, ws);
            && (forall i :: 0 <= i < |p.lines| && i < |rows| ==> NullCell !in rows[i][..|ws|])
            && (p.typeError ==> |p.lines| < |rows| && NullCell in rows[|p.lines|][..|ws|])
    decreases |rows|
  {
    if rows != [] && NullCell !in rows[0][..|ws|] {
      RowsAsWrittenStop(rows[1..], ws);
      var p, q := RowsAsWritten(rows, ws), RowsAsWritten(rows[1..], ws);
      assert p.lines == [FormatFields(Texts(rows[0][..|ws|]), ws)] + q.lines;
      forall i | 0 <= i < |p.lines| && i < |rows| ensures NullCell !in rows[i][..|ws|] {
        if i > 0 {
          assert rows[i] == rows[1..][i - 1];
        }
      }
      if p.typeError {
        assert rows[|p.lines|] == rows[1..][|q.lines|];
      }
    }
  }

  /** As written, `print_table` raises TypeError exactly when some row has a
      NULL among its printed columns. What it has printed by then is a prefix
      of the corrected table; without a NULL it prints the corrected table. */
  lemma PrintAsWrittenRaisesOnNull(data: seq<seq<Cell>>, headers: seq<string>)
    ensures var p, k := PrintAsWritten(data, headers), ColumnCount(headers, data);
            && (p.typeError <==> HasNull(data, k))
            && (data != [] ==> 2 <= |p.lines|)
            && |p.lines| <= |Print(data, headers)|
            && p.lines == Print(data, headers)[..|p.lines|]
            && (!p.typeError ==> p.lines == Print(data, headers))
  {
    if data != [] {
      var k, ws := ColumnCount(headers, data), Widths(headers, data);
      var head := [FormatFields(headers[..k], ws), Rule(RuleLength(headers, data))];
      var rows, all := RowsAsWritten(data, ws), RowLines(data, ws);
      RowsAsWrittenSpec(data, ws);
      var full, p := Print(data, headers), PrintAsWritten(data, headers);
      assert full == head + all;
      assert p == Printed(head + rows.lines, rows.typeError);
      PrefixAfterHead(head, all, rows.lines);
    }
  }

  /** Putting the same head before a prefix and before the whole keeps it a prefix. */
  lemma PrefixAfterHead(head: seq<string>, all: seq<string>, part: seq<string>)
    requires |part| <= |all| && part == all[..|part|]
    ensures head + part == (head + all)[..|head| + |part|]
  {
  }

  /** Where the output as written stops: after the header, the rule and the
      lines of the rows before the first row with a kept NULL, which is the row
      that raises. */
  lemma PrintAsWrittenStopsAtNull(data: seq<seq<Cell>>, headers: seq<string>)
    ensures var p, k := PrintAsWritten(data, headers), ColumnCount(headers, data);
            && (forall i :: 0 <= i < |p.lines| - 2 && i < |data| ==> NullCell !in data[i][..k])
            && (p.typeError ==> 2 <= |p.lines| < |data| + 2 && NullCell in data[|p.lines| - 2][..k])
  {
    if data != [] {
      var k, ws := ColumnCount(headers, data), Widths(headers, data);
      var rows := RowsAsWritten(data, ws);
      RowsAsWrittenStop(data, ws);
      assert |PrintAsWritten(data, headers).lines| == 2 + |rows.lines|;
    }
  }
}
