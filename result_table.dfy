/** `print_query_results`: renders a query's result set as an aligned text
    table. The cursor is given as its column names and its fetched rows,
    each cell already turned into text by `str()`, or `None` for SQL NULL.
    What would be printed is returned as a sequence of lines. */
module ResultTable {
  import opened Wrappers
  import opened Text

  type Cell = Option<string>
  type Row = seq<Cell>

  /** Printed instead of a table when the query returned no rows. */
  const NoResults: string := "Nincs találat."
  /** Between two cells of the header and of every data row. */
  const ColumnSep: string := " | "
  /** Between two runs of dashes on the separator line. */
  const RuleSep: string := "-+-"

  /** NULL is shown as the empty string, never as "None". */
  function CellText(v: Cell): string {
    match v
    case None => ""
    case Some(t) => t
  }

  /** The cursor's rows have one cell per column. */
  predicate WellShaped(names: seq<string>, rows: seq<Row>) {
    forall k :: 0 <= k < |rows| ==> |rows[k]| == |names|
  }

  /** `max_len` for column `idx` once the inner loop has looked at `rows`:
      the header length, raised by every longer cell. */
  function ColumnWidth(name: string, rows: seq<Row>, idx: nat): nat
    requires forall k :: 0 <= k < |rows| ==> idx < |rows[k]|
  {
    if rows == [] then |name|
    else
      var m := ColumnWidth(name, rows[..|rows| - 1], idx);
      var l := |CellText(rows[|rows| - 1][idx])|;
      if l > m then l else m
  }

  /** The width of a column is the maximum of its header length and the
      lengths of its cells: no smaller than any of them, and equal to one. */
  lemma {:induction false} ColumnWidthIsMax(name: string, rows: seq<Row>, idx: nat)
    requires forall k :: 0 <= k < |rows| ==> idx < |rows[k]|
    ensures ColumnWidth(name, rows, idx) >= |name|
    ensures forall k :: 0 <= k < |rows| ==> ColumnWidth(name, rows, idx) >= |CellText(rows[k][idx])|
    ensures ColumnWidth(name, rows, idx) == |name|
            || exists k :: 0 <= k < |rows| && ColumnWidth(name, rows, idx) == |CellText(rows[k][idx])|
  {
    if rows != [] {
      var init := rows[..|rows| - 1];
      ColumnWidthIsMax(name, init, idx);
      assert forall k :: 0 <= k < |init| ==> init[k] == rows[k];
      var w := ColumnWidth(name, rows, idx);
      if w != ColumnWidth(name, init, idx) {
        assert w == |CellText(rows[|rows| - 1][idx])|;
      } else if w != |name| {
        var k :| 0 <= k < |init| && w == |CellText(init[k][idx])|;
        assert w == |CellText(rows[k][idx])|;
      }
    }
  }

  /** `col_widths`: one width per column. */
  function Widths(names: seq<string>, rows: seq<Row>): (ws: seq<nat>)
    requires WellShaped(names, rows)
    ensures |ws| == |names|
  {
    seq(|names|, i requires 0 <= i < |names| => ColumnWidth(names[i], rows, i))
  }

  /** The first loop of `print_query_results`: for each column, start from
      the header length and raise it to every longer cell. */
  method ColumnWidths(names: seq<string>, rows: seq<Row>) returns (widths: seq<nat>)
    requires WellShaped(names, rows)
    ensures widths == Widths(names, rows)
    ensures forall i :: 0 <= i < |names| ==> widths[i] >= |names[i]|
    ensures forall i, k :: 0 <= i < |names| && 0 <= k < |rows| ==> widths[i] >= |CellText(rows[k][i])|
    ensures forall i :: 0 <= i < |names| ==>
              widths[i] == |names[i]| || exists k :: 0 <= k < |rows| && widths[i] == |CellText(rows[k][i])|
  {
    widths := [];
    var idx := 0;
    while idx < |names|
      invariant 0 <= idx <= |names|
      invariant |widths| == idx
      invariant forall i :: 0 <= i < idx ==> widths[i] == ColumnWidth(names[i], rows, i)
    {
      var maxLen := |names[idx]|;
      var n := 0;
      while n < |rows|
        invariant 0 <= n <= |rows|
        invariant maxLen == ColumnWidth(names[idx], rows[..n], idx)
      {
        assert rows[..n + 1][..n] == rows[..n];
        var valStr := CellText(rows[n][idx]);
        if |valStr| > maxLen {
          maxLen := |valStr|;
        }
        n := n + 1;
      }
      assert rows[..|rows|] == rows;
      widths := widths + [maxLen];
      idx := idx + 1;
    }
    forall i | 0 <= i < |names|
      ensures widths[i] >= |names[i]|
      ensures forall k :: 0 <= k < |rows| ==> widths[i] >= |CellText(rows[k][i])|
      ensures widths[i] == |names[i]| || exists k :: 0 <= k < |rows| && widths[i] == |CellText(rows[k][i])|
    {
      ColumnWidthIsMax(names[i], rows, i);
    }
  }

  /** Each text left-justified to its column's width. */
  function Padded(texts: seq<string>, ws: seq<nat>): (ps: seq<string>)
    requires |texts| == |ws|
    ensures |ps| == |texts|
  {
    seq(|texts|, i requires 0 <= i < |texts| => LJust(texts[i], ws[i]))
  }

  /** The texts of a row's cells, NULL as "". */
  function RowTexts(row: Row): (ts: seq<string>)
    ensures |ts| == |row|
  {
    seq(|row|, i requires 0 <= i < |row| => CellText(row[i]))
  }

  /** `" | ".join(name.ljust(w) ...)` */
  function HeaderLine(names: seq<string>, ws: seq<nat>): string
    requires |names| == |ws|
  {
    Join(Padded(names, ws), ColumnSep)
  }

  /** The runs of dashes, one per column. */
  function Dashes(ws: seq<nat>): (ds: seq<string>)
    ensures |ds| == |ws|
  {
    seq(|ws|, i requires 0 <= i < |ws| => Repeat('-', ws[i]))
  }

  /** `"-+-".join("-" * w ...)` */
  function RuleLine(ws: seq<nat>): string {
    Join(Dashes(ws), RuleSep)
  }

  /** `" | ".join(cell.ljust(w) ...)` for one data row. */
  function RowLine(row: Row, ws: seq<nat>): string
    requires |row| == |ws|
  {
    Join(Padded(RowTexts(row), ws), ColumnSep)
  }

  /** Everything `print_query_results` prints, one string per line. */
  function Rendered(names: seq<string>, rows: seq<Row>): seq<string>
    requires WellShaped(names, rows)
  {
    if |rows| == 0 then [NoResults]
    else
      var ws := Widths(names, rows);
      [HeaderLine(names, ws), RuleLine(ws)] + seq(|rows|, k requires 0 <= k < |rows| => RowLine(rows[k], ws))
  }

  /** `print_query_results` as written: the width loop, the header, the
      separator, then one line per row. */
  method PrintQueryResults(names: seq<string>, rows: seq<Row>) returns (lines: seq<string>)
    requires WellShaped(names, rows)
    ensures lines == Rendered(names, rows)
  {
    if |rows| == 0 {
      return [NoResults];
    }
    var widths := ColumnWidths(names, rows);
    var header := HeaderLine(names, widths);
    var sep := RuleLine(widths);
    var body := PrintRows(rows, widths);
    lines := [header, sep] + body;
  }

  /** The last loop of `print_query_results`: one line per row, in order. */
  method PrintRows(rows: seq<Row>, widths: seq<nat>) returns (lines: seq<string>)
    requires forall k :: 0 <= k < |rows| ==> |rows[k]| == |widths|
    ensures lines == seq(|rows|, j requires 0 <= j < |rows| => RowLine(rows[j], widths))
  {
    lines := [];
    var k := 0;
    while k < |rows|
      invariant 0 <= k <= |rows|
      invariant |lines| == k
      invariant forall j :: 0 <= j < k ==> lines[j] == RowLine(rows[j], widths)
    {
      lines := lines + [RowLine(rows[k], widths)];
      k := k + 1;
    }
  }

  /** Left-justifying a text no longer than its width yields exactly that
      width, starting with the text, the rest spaces. */
  lemma PaddedWidths(texts: seq<string>, ws: seq<nat>)
    requires |texts| == |ws|
    requires forall i :: 0 <= i < |ws| ==> |texts[i]| <= ws[i]
    ensures Lengths(Padded(texts, ws)) == ws
  {
  }

  /** In a line of parts of widths `ws`, part `i` sits at `Offset(ws, i)`
      and the line is `JoinedWidth(ws)` long. */
  lemma PartAt(parts: seq<string>, sep: string, ws: seq<nat>, i: nat)
    requires Lengths(parts) == ws && i < |ws|
    ensures |Join(parts, sep)| == JoinedWidth(ws, |sep|)
    ensures Offset(ws, |sep|, i) + ws[i] <= |Join(parts, sep)|
    ensures Join(parts, sep)[Offset(ws, |sep|, i)..Offset(ws, |sep|, i) + ws[i]] == parts[i]
  {
    JoinLength(parts, sep);
    JoinSegment(parts, sep, i);
  }

  /** Every header name and every cell fits in its column. */
  lemma CellsFit(names: seq<string>, rows: seq<Row>)
    requires WellShaped(names, rows)
    ensures forall i :: 0 <= i < |names| ==> |names[i]| <= Widths(names, rows)[i]
    ensures forall k, i :: 0 <= k < |rows| && 0 <= i < |names| ==>
              |RowTexts(rows[k])[i]| <= Widths(names, rows)[i]
  {
    forall i | 0 <= i < |names|
      ensures |names[i]| <= Widths(names, rows)[i]
      ensures forall k :: 0 <= k < |rows| ==> |RowTexts(rows[k])[i]| <= Widths(names, rows)[i]
    {
      ColumnWidthIsMax(names[i], rows, i);
    }
  }

  /** The parts line `l` of a non-empty table joins: the padded names,
      the runs of dashes, or the padded cells of row `l - 2`. */
  function PartsOfLine(names: seq<string>, rows: seq<Row>, l: nat): (ps: seq<string>)
    requires WellShaped(names, rows)
    requires l < |rows| + 2
    ensures |ps| == |names|
  {
    var ws := Widths(names, rows);
    if l == 0 then Padded(names, ws)
    else if l == 1 then Dashes(ws)
    else Padded(RowTexts(rows[l - 2]), ws)
  }

  /** The separator line `l` joins its parts with. */
  function SepOfLine(l: nat): string {
    if l == 1 then RuleSep else ColumnSep
  }

  /** Line `l` of a non-empty table joins its parts, each exactly as wide
      as its column. */
  lemma LineParts(names: seq<string>, rows: seq<Row>, l: nat)
    requires WellShaped(names, rows)
    requires |rows| > 0 && l < |rows| + 2
    ensures |Rendered(names, rows)| == |rows| + 2
    ensures Rendered(names, rows)[l] == Join(PartsOfLine(names, rows, l), SepOfLine(l))
    ensures Lengths(PartsOfLine(names, rows, l)) == Widths(names, rows)
    ensures |SepOfLine(l)| == 3
  {
    var ws := Widths(names, rows);
    CellsFit(names, rows);
    if l == 0 {
      PaddedWidths(names, ws);
    } else if l >= 2 {
      PaddedWidths(RowTexts(rows[l - 2]), ws);
    }
  }

  /** With no rows only the "no results" message is printed: no header and
      no separator. */
  lemma NoRowsOnlyMessage(names: seq<string>)
    ensures WellShaped(names, [])
    ensures Rendered(names, []) == [NoResults]
  {
  }

  /** The header, the separator and every row line are equally long: the
      sum of the widths plus three characters between each two columns. */
  lemma LinesSameLength(names: seq<string>, rows: seq<Row>)
    requires WellShaped(names, rows)
    requires |rows| > 0
    ensures var out := Rendered(names, rows);
            |out| == |rows| + 2
            && forall l :: 0 <= l < |out| ==> |out[l]| == JoinedWidth(Widths(names, rows), 3)
  {
    var out := Rendered(names, rows);
    forall l | 0 <= l < |out|
      ensures |out[l]| == JoinedWidth(Widths(names, rows), 3)
    {
      LineParts(names, rows, l);
      JoinLength(PartsOfLine(names, rows, l), SepOfLine(l));
    }
  }

  /** What column `i` of line `l` holds: the padded name on the header,
      dashes on the separator, the padded cell on a data row. */
  function ExpectedCell(names: seq<string>, rows: seq<Row>, l: nat, i: nat): string
    requires WellShaped(names, rows)
    requires l < |rows| + 2 && i < |names|
  {
    var w := Widths(names, rows)[i];
    if l == 0 then LJust(names[i], w)
    else if l == 1 then Repeat('-', w)
    else LJust(CellText(rows[l - 2][i]), w)
  }

  /** `line` holds `text` at offset `o`, over exactly `w` characters. */
  predicate HasSegment(line: string, o: nat, w: nat, text: string) {
    o + w <= |line| && line[o..o + w] == text
  }

  /** Column `i` of line `l` sits at the column's offset and holds what
      `ExpectedCell` says. */
  lemma CellOnLine(names: seq<string>, rows: seq<Row>, l: nat, i: nat)
    requires WellShaped(names, rows)
    requires |rows| > 0 && l < |rows| + 2 && i < |names|
    ensures |Rendered(names, rows)| == |rows| + 2
    ensures HasSegment(Rendered(names, rows)[l], Offset(Widths(names, rows), 3, i),
                       Widths(names, rows)[i], ExpectedCell(names, rows, l, i))
  {
    var ws := Widths(names, rows);
    var ps := PartsOfLine(names, rows, l);
    var sep := SepOfLine(l);
    LineParts(names, rows, l);
    PartAt(ps, sep, ws, i);
    PartIsExpectedCell(names, rows, l, i);
    assert HasSegment(Join(ps, sep), Offset(ws, |sep|, i), ws[i], ps[i]);
  }

  /** Part `i` of line `l` is what `ExpectedCell` says. */
  lemma PartIsExpectedCell(names: seq<string>, rows: seq<Row>, l: nat, i: nat)
    requires WellShaped(names, rows)
    requires l < |rows| + 2 && i < |names|
    ensures PartsOfLine(names, rows, l)[i] == ExpectedCell(names, rows, l, i)
  {
  }

  /** Column `i` starts at the same offset on every line, and there the
      header holds the name, the separator `width` dashes and each row its
      cell, each padded with spaces to exactly the column's width. */
  lemma ColumnAligned(names: seq<string>, rows: seq<Row>, i: nat)
    requires WellShaped(names, rows)
    requires |rows| > 0 && i < |names|
    ensures |Rendered(names, rows)| == |rows| + 2
    ensures forall l :: 0 <= l < |rows| + 2 ==>
              HasSegment(Rendered(names, rows)[l], Offset(Widths(names, rows), 3, i),
                         Widths(names, rows)[i], ExpectedCell(names, rows, l, i))
  {
    LineParts(names, rows, 0);
    forall l | 0 <= l < |rows| + 2
      ensures HasSegment(Rendered(names, rows)[l], Offset(Widths(names, rows), 3, i),
                         Widths(names, rows)[i], ExpectedCell(names, rows, l, i))
    {
      CellOnLine(names, rows, l, i);
    }
  }

  /** A NULL cell occupies its column with spaces only: it is printed as
      the empty string, padded, and never as "None". */
  lemma NullCellIsBlank(names: seq<string>, rows: seq<Row>, k: nat, i: nat)
    requires WellShaped(names, rows)
    requires k < |rows| && i < |names| && rows[k][i] == None
    ensures |Rendered(names, rows)| == |rows| + 2
    ensures HasSegment(Rendered(names, rows)[k + 2], Offset(Widths(names, rows), 3, i),
                       Widths(names, rows)[i], Repeat(' ', Widths(names, rows)[i]))
  {
    CellOnLine(names, rows, k + 2, i);
    var w := Widths(names, rows)[i];
    assert ExpectedCell(names, rows, k + 2, i) == LJust("", w) == Repeat(' ', w);
  }

  /** The separator line is made of '-' and '+' only. */
  lemma RuleIsDashesAndPluses(ws: seq<nat>)
    ensures forall j :: 0 <= j < |RuleLine(ws)| ==> RuleLine(ws)[j] == '-' || RuleLine(ws)[j] == '+'
  {
    JoinCharsFrom(Dashes(ws), RuleSep, c => c == '-' || c == '+');
  }

  /** The worked example: columns "id" and "name", rows (1, "Al") and
      (2, NULL) give widths 2 and 4 and an empty cell for the NULL. */
  lemma Example()
    ensures Rendered(["id", "name"], [[Some("1"), Some("Al")], [Some("2"), None]])
            == ["id | name", "---+-----", "1  | Al  ", "2  |     "]
  {
    var rows: seq<Row> := [[Some("1"), Some("Al")], [Some("2"), None]];
    var ws := Widths(["id", "name"], rows);
    ExampleWidths();
    assert ws == [2, 4];
    ExamplePadding();
    ExampleJoins();
    assert RowLine(rows[0], ws) == "1  | Al  " && RowLine(rows[1], ws) == "2  |     ";
  }

  /** The example's widths: "id" beats "1" and "2"; "name" beats "Al". */
  lemma ExampleWidths()
    ensures Widths(["id", "name"], [[Some("1"), Some("Al")], [Some("2"), None]]) == [2, 4]
  {
    var rows: seq<Row> := [[Some("1"), Some("Al")], [Some("2"), None]];
    assert rows[..1][..0] == [] && rows[..2][..1] == rows[..1] && rows[..2] == rows;
    assert ColumnWidth("id", rows, 0) == 2;
    assert ColumnWidth("name", rows, 1) == 4;
  }

  /** The example's padded cells and dashes. */
  lemma ExamplePadding()
    ensures Padded(["id", "name"], [2, 4]) == ["id", "name"]
    ensures Dashes([2, 4]) == ["--", "----"]
    ensures Padded(RowTexts([Some("1"), Some("Al")]), [2, 4]) == ["1 ", "Al  "]
    ensures Padded(RowTexts([Some("2"), None]), [2, 4]) == ["2 ", "    "]
  {
    assert Repeat('-', 2) == "--" && Repeat('-', 4) == "----";
    assert Repeat(' ', 1) == " " && Repeat(' ', 2) == "  " && Repeat(' ', 4) == "    ";
    assert LJust("1", 2) == "1 " && LJust("2", 2) == "2 ";
    assert LJust("Al", 4) == "Al  " && LJust("", 4) == "    ";
    assert RowTexts([Some("1"), Some("Al")]) == ["1", "Al"] && RowTexts([Some("2"), None]) == ["2", ""];
  }

  /** The example's lines, joined. */
  lemma ExampleJoins()
    ensures Join(["id", "name"], ColumnSep) == "id | name"
    ensures Join(["--", "----"], RuleSep) == "---+-----"
    ensures Join(["1 ", "Al  "], ColumnSep) == "1  | Al  "
    ensures Join(["2 ", "    "], ColumnSep) == "2  |     "
  {
    assert ["id", "name"][1..] == ["name"];
    assert ["--", "----"][1..] == ["----"];
    assert ["1 ", "Al  "][1..] == ["Al  "];
    assert ["2 ", "    "][1..] == ["    "];
  }
}
