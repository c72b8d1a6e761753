/** The row and sheet logic of `read_xlsx_content`: every sheet under its
    header, each row as the tab-joined values of its non-empty cells, empty rows
    left out, sheets separated by a blank line. */
module Spreadsheet {
  import opened Wrappers
  import opened Text

  /** A cell is `None` when empty, otherwise the text `str(cell.value)`. */
  type Row = seq<Option<string>>

  datatype Sheet = Sheet(title: string, rows: seq<Row>)

  /** The outcome of loading the workbook. */
  datatype Workbook = Loaded(sheets: seq<Sheet>) | NotFound | Unreadable(error: string)

  /** `row_values`: the values of the non-empty cells, in column order. */
  function Present(row: Row): (values: seq<string>)
    ensures |values| <= |row|
    decreases |row|
  {
    if |row| == 0 then []
    else (if row[0].Some? then [row[0].value] else []) + Present(row[1..])
  }

  predicate EmptyRow(row: Row) {
    forall k :: 0 <= k < |row| ==> row[k].None?
  }

  /** The line a row contributes, if any. */
  function RowLine(row: Row): Option<string> {
    var values := Present(row);
    if |values| == 0 then None else Some(Join(values, "\t"))
  }

  /** The lines of the rows that have content, in order. */
  function RowLines(rows: seq<Row>): (lines: seq<string>)
    ensures |lines| <= |rows|
    decreases |rows|
  {
    if |rows| == 0 then []
    else
      match RowLine(rows[0])
      case None => RowLines(rows[1..])
      case Some(line) => [line] + RowLines(rows[1..])
  }

  function Header(title: string): string {
    "--- 工作表: " + title + " ---"
  }

  /** One sheet: the header line, then the row lines, joined by newlines. */
  function SheetText(s: Sheet): string {
    Join([Header(s.title)] + RowLines(s.rows), "\n")
  }

  function SheetTexts(sheets: seq<Sheet>): (texts: seq<string>)
    ensures |texts| == |sheets|
    ensures forall k :: 0 <= k < |sheets| ==> texts[k] == SheetText(sheets[k])
  {
    seq(|sheets|, k requires 0 <= k < |sheets| => SheetText(sheets[k]))
  }

  /** `read_xlsx_content`, given the result of loading the workbook at `path`:
      an empty workbook gives "", one sheet gives its text, and a later sheet
      follows the first after a blank line; the two error texts quote the path. */
  function ReadXlsx(path: string, book: Workbook): (r: string)
    ensures book.Loaded? && |book.sheets| == 0 ==> r == ""
    ensures book.Loaded? && |book.sheets| == 1 ==> r == SheetText(book.sheets[0])
    ensures book.Loaded? && |book.sheets| > 1 ==> StartsWith(r, SheetText(book.sheets[0]) + "\n\n")
    ensures book.NotFound? ==> EndsWith(r, "'" + path + "'")
    ensures book.Unreadable? ==> EndsWith(r, "' 时出错: " + book.error)
  {
    match book
    case Loaded(sheets) =>
      if |sheets| > 1 then
        assert SheetTexts(sheets) == [SheetText(sheets[0])] + SheetTexts(sheets[1..]);
        JoinCons(SheetText(sheets[0]), SheetTexts(sheets[1..]), "\n\n");
        Join(SheetTexts(sheets), "\n\n")
      else Join(SheetTexts(sheets), "\n\n")
    case NotFound => "错误：Excel 文件未找到 '" + path + "'"
    case Unreadable(error) => "读取 XLSX 文件 '" + path + "' 时出错: " + error
  }

  // ---------------------------------------------------------------------------
  // Properties

  /** A row contributes nothing exactly when all its cells are empty. */
  lemma {:induction false} PresentEmpty(row: Row)
    ensures |Present(row)| == 0 <==> EmptyRow(row)
    decreases |row|
  {
    if |row| > 0 {
      PresentEmpty(row[1..]);
      assert forall k :: 1 <= k < |row| ==> row[k] == row[1..][k - 1];
    }
  }

  lemma RowLineNone(row: Row)
    ensures RowLine(row).None? <==> EmptyRow(row)
  {
    PresentEmpty(row);
  }

  /** Collecting values commutes with putting cells side by side. */
  lemma {:induction false} PresentAppend(a: Row, b: Row)
    ensures Present(a + b) == Present(a) + Present(b)
    decreases |a|
  {
    if |a| > 0 {
      assert (a + b)[1..] == a[1..] + b;
      PresentAppend(a[1..], b);
    } else {
      assert a + b == b;
    }
  }

  /** Every collected value is the value of some cell, and every non-empty
      cell's value is collected. */
  lemma {:induction false} PresentValues(row: Row)
    ensures forall v :: v in Present(row) <==> Some(v) in row
    decreases |row|
  {
    if |row| > 0 {
      PresentValues(row[1..]);
      assert row == [row[0]] + row[1..];
    }
  }

  predicate NoTabs(row: Row) {
    forall k :: 0 <= k < |row| ==> row[k].Some? ==> '\t' !in row[k].value
  }

  /** When no value holds a tab, the row line splits back into the values. */
  lemma RowLineSplits(row: Row)
    requires NoTabs(row) && !EmptyRow(row)
    ensures RowLine(row).Some?
    ensures Split(RowLine(row).value, '\t') == Present(row)
  {
    RowLineNone(row);
    PresentValues(row);
    var values := Present(row);
    forall k | 0 <= k < |values|
      ensures '\t' !in values[k]
    {
      assert values[k] in values;
      var j :| 0 <= j < |row| && row[j] == Some(values[k]);
    }
    SplitJoin(values, '\t');
  }

  /** The rows that have content. */
  function Filled(rows: seq<Row>): nat
    decreases |rows|
  {
    if |rows| == 0 then 0 else (if EmptyRow(rows[0]) then 0 else 1) + Filled(rows[1..])
  }

  /** One line per row with content. */
  lemma {:induction false} RowLinesCount(rows: seq<Row>)
    ensures |RowLines(rows)| == Filled(rows)
    decreases |rows|
  {
    if |rows| > 0 {
      RowLineNone(rows[0]);
      RowLinesCount(rows[1..]);
    }
  }

  lemma {:induction false} RowLinesAppend(a: seq<Row>, b: seq<Row>)
    ensures RowLines(a + b) == RowLines(a) + RowLines(b)
    decreases |a|
  {
    if |a| > 0 {
      assert (a + b)[1..] == a[1..] + b;
      RowLinesAppend(a[1..], b);
    } else {
      assert a + b == b;
    }
  }

  predicate NoNewlines(row: Row) {
    forall k :: 0 <= k < |row| ==> row[k].Some? ==> '\n' !in row[k].value
  }

  /** Row lines hold no newline when the cell values hold none. */
  lemma {:induction false} RowLinesWithoutNewline(rows: seq<Row>)
    requires forall r :: 0 <= r < |rows| ==> NoNewlines(rows[r])
    ensures forall k :: 0 <= k < |RowLines(rows)| ==> '\n' !in RowLines(rows)[k]
    decreases |rows|
  {
    if |rows| > 0 {
      RowLinesWithoutNewline(rows[1..]);
      var row := rows[0];
      if RowLine(row).Some? {
        var values := Present(row);
        PresentValues(row);
        forall k | 0 <= k < |values|
          ensures '\n' !in values[k]
        {
          assert values[k] in values;
          var j :| 0 <= j < |row| && row[j] == Some(values[k]);
        }
        JoinWithout(values, "\t", '\n');
      }
    }
  }

  /** The sheet text splits at newlines into its header and one line per
      non-empty row, when neither the title nor a value holds a newline. */
  lemma SheetLines(s: Sheet)
    requires '\n' !in s.title
    requires forall r :: 0 <= r < |s.rows| ==> NoNewlines(s.rows[r])
    ensures Split(SheetText(s), '\n') == [Header(s.title)] + RowLines(s.rows)
    ensures |Split(SheetText(s), '\n')| == 1 + Filled(s.rows)
  {
    var lines := [Header(s.title)] + RowLines(s.rows);
    RowLinesWithoutNewline(s.rows);
    HeaderWithoutNewline(s.title);
    forall k | 0 <= k < |lines|
      ensures '\n' !in lines[k]
    {
      if k > 0 {
        assert lines[k] == RowLines(s.rows)[k - 1];
      }
    }
    SplitJoin(lines, '\n');
    RowLinesCount(s.rows);
  }

  lemma HeaderWithoutNewline(title: string)
    requires '\n' !in title
    ensures '\n' !in Header(title)
  {
    assert Header(title) == "--- 工作表: " + title + " ---";
  }

  /** The sheets' texts follow each other, separated by a blank line. */
  lemma ReadMoreSheets(path: string, sheets: seq<Sheet>, s: Sheet)
    requires |sheets| > 0
    ensures ReadXlsx(path, Loaded([s] + sheets)) == SheetText(s) + "\n\n" + ReadXlsx(path, Loaded(sheets))
  {
    var texts := SheetTexts([s] + sheets);
    assert texts == [SheetText(s)] + SheetTexts(sheets);
    JoinCons(SheetText(s), SheetTexts(sheets), "\n\n");
  }

  /** Two filled rows around an empty one, as on a sheet called `Sheet1`. */
  lemma ScenarioSheet()
    ensures SheetText(Sheet("Sheet1", [[Some("a"), Some("b")], [None, None], [Some("c")]]))
      == "--- 工作表: Sheet1 ---\na\tb\nc"
  {
    var h := Header("Sheet1");
    ScenarioRows();
    assert [h] + ["a\tb", "c"] == [h, "a\tb", "c"];
    JoinThree(h, "a\tb", "c", "\n");
    ScenarioText(h);
  }

  lemma ScenarioText(h: string)
    requires h == "--- 工作表: Sheet1 ---"
    ensures h + "\n" + "a\tb" + "\n" + "c" == "--- 工作表: Sheet1 ---\na\tb\nc"
  {
  }

  lemma JoinThree(a: string, b: string, c: string, sep: string)
    ensures Join([a, b, c], sep) == a + sep + b + sep + c
  {
    JoinCons(a, [b, c], sep);
    JoinCons(b, [c], sep);
    assert [b, c][1..] == [c];
  }

  lemma ScenarioRows()
    ensures RowLines([[Some("a"), Some("b")], [None, None], [Some("c")]]) == ["a\tb", "c"]
  {
    var rows: seq<Row> := [[Some("a"), Some("b")], [None, None], [Some("c")]];
    ScenarioRowLines();
    var t1 := rows[1..];
    var t2 := t1[1..];
    assert t2 == [[Some("c")]];
    assert t2[1..] == [];
    assert RowLines(t2) == ["c"];
    assert t1[0] == [None, None];
    assert RowLines(t1) == RowLines(t2);
    assert rows[0] == [Some("a"), Some("b")];
    assert RowLines(rows) == ["a\tb"] + RowLines(t1);
  }

  lemma ScenarioRowLines()
    ensures RowLine([Some("a"), Some("b")]) == Some("a\tb")
    ensures RowLine([None, None]).None?
    ensures RowLine([Some("c")]) == Some("c")
  {
    var r0: Row := [Some("a"), Some("b")];
    var r1: Row := [None, None];
    var r2: Row := [Some("c")];
    assert Present(r0) == ["a", "b"] by {
      assert r0[1..] == [Some("b")];
      assert r0[1..][1..] == [];
    }
    assert Present(r1) == [] by {
      assert r1[1..] == [None];
      assert r1[1..][1..] == [];
    }
    assert Present(r2) == ["c"] by {
      assert r2[1..] == [];
    }
    JoinCons("a", ["b"], "\t");
    assert ["a", "b"][1..] == ["b"];
    assert "a" + "\t" + "b" == "a\tb";
  }
}
