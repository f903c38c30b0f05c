/** The PDF export of `download_pdf`: a title, the column headings, one line
    per displayed row and a closing total line, laid out top to bottom by a
    vertical cursor that starts a new page near the bottom margin. The
    document is the list of lines it draws, each with its page and height. */
module Report {
  import opened Wrappers
  import opened Ledger

  /** Height of reportlab's `letter` page, in points. */
  const PageHeight: int := 792
  /** Height of the title, and of the cursor on every page after the first. */
  const TopY: int := PageHeight - 50
  /** Height of the column headings. */
  const HeadingsY: int := PageHeight - 80
  /** Height of the first row. */
  const FirstRowY: int := PageHeight - 100
  /** Distance between lines. */
  const LineGap: int := 20
  /** A row cursor below this starts a new page. */
  const BottomMargin: int := 70
  /** A cursor below this before the total line starts a new page. */
  const TotalMargin: int := 100

  datatype Cursor = Cursor(page: nat, y: int)

  /** What a line says: the title, the headings Date, Category, Amount and
      Description, a row's four values in those columns, or the total. */
  datatype Text = Title | Headings | Cells(fields: Fields) | TotalText(total: real)

  /** A line drawn on page `page` (0 is the first) at height `y`. */
  datatype Line = Line(page: nat, y: int, text: Text)

  datatype Document = Document(lines: seq<Line>, pages: nat)

  datatype ExportError = NoData

  /** The cursor move after a row: down one line, or to the top of a new page
      when that falls below the bottom margin. */
  function Advance(c: Cursor): Cursor {
    if c.y - LineGap < BottomMargin then Cursor(c.page + 1, TopY) else Cursor(c.page, c.y - LineGap)
  }

  /** The cursor at which row `i` (from 0) is drawn; `RowCursor(n)` is also
      the cursor after `n` rows. */
  function RowCursor(i: nat): Cursor {
    if i == 0 then Cursor(0, FirstRowY) else Advance(RowCursor(i - 1))
  }

  /** The cursor before the total line, after `n` rows: a new page when there
      is less room left than the total margin. */
  function TotalCursor(n: nat): Cursor {
    var c := RowCursor(n);
    if c.y < TotalMargin then Cursor(c.page + 1, TopY) else c
  }

  function RowLine(i: nat, row: DisplayRow): Line {
    Line(RowCursor(i).page, RowCursor(i).y, Cells(row.fields))
  }

  /** The total line is drawn one gap below the cursor. */
  function TotalLine(n: nat, total: real): Line {
    Line(TotalCursor(n).page, TotalCursor(n).y - LineGap, TotalText(total))
  }

  /** `d` is the report of `rows` with total `total`. */
  ghost predicate IsReport(d: Document, rows: seq<DisplayRow>, total: real) {
    |d.lines| == |rows| + 3 &&
    d.lines[0] == Line(0, TopY, Title) &&
    d.lines[1] == Line(0, HeadingsY, Headings) &&
    (forall i :: 0 <= i < |rows| ==> d.lines[i + 2] == RowLine(i, rows[i])) &&
    d.lines[|rows| + 2] == TotalLine(|rows|, total) &&
    d.pages == TotalLine(|rows|, total).page + 1
  }

  /** `download_pdf` on the displayed rows and the total: no document for
      an empty table, otherwise the report. */
  method Export(rows: seq<DisplayRow>, total: real) returns (r: Result<Document, ExportError>)
    ensures rows == [] ==> r == Failure(NoData)
    ensures rows != [] ==> r.Success? && IsReport(r.value, rows, total)
  {
    if rows == [] {
      return Failure(NoData);
    }
    var lines := [Line(0, TopY, Title), Line(0, HeadingsY, Headings)];
    var page: nat, y := 0, FirstRowY;
    var i := 0;
    while i < |rows|
      invariant 0 <= i <= |rows|
      invariant Cursor(page, y) == RowCursor(i)
      invariant |lines| == i + 2
      invariant lines[0] == Line(0, TopY, Title) && lines[1] == Line(0, HeadingsY, Headings)
      invariant forall k :: 0 <= k < i ==> lines[k + 2] == RowLine(k, rows[k])
    {
      lines := lines + [Line(page, y, Cells(rows[i].fields))];
      y := y - LineGap;
      if y < BottomMargin {
        page := page + 1;
        y := TopY;
      }
      i := i + 1;
    }
    if y < TotalMargin {
      page := page + 1;
      y := TopY;
    }
    lines := lines + [Line(page, y - LineGap, TotalText(total))];
    r := Success(Document(lines, page + 1));
  }

  /** Every row is drawn, and the cursor after every row lies, between the
      bottom margin and the top line. */
  lemma {:induction false} CursorInBounds(i: nat)
    ensures BottomMargin <= RowCursor(i).y <= TopY
  {
    if i > 0 {
      CursorInBounds(i - 1);
    }
  }

  /** A page break happens after row `i` exactly when moving down one line
      would fall below the bottom margin; otherwise the cursor moves down
      one line on the same page. */
  lemma BreakExactlyWhenBelowMargin(i: nat)
    ensures RowCursor(i + 1).page == RowCursor(i).page + 1 <==> RowCursor(i).y - LineGap < BottomMargin
    ensures RowCursor(i + 1).page != RowCursor(i).page ==> RowCursor(i + 1).y == TopY
    ensures RowCursor(i + 1).page == RowCursor(i).page ==> RowCursor(i + 1).y == RowCursor(i).y - LineGap
  {
  }

  /** Pages never go back, and rows on one page are one gap apart in order. */
  lemma {:induction false} RowsInOrder(i: nat, j: nat)
    requires i <= j
    ensures RowCursor(i).page <= RowCursor(j).page
    ensures RowCursor(i).page == RowCursor(j).page ==> RowCursor(j).y == RowCursor(i).y - LineGap * (j - i)
  {
    if i < j {
      RowsInOrder(i, j - 1);
      if RowCursor(i).page == RowCursor(j).page {
        assert RowCursor(j - 1).page == RowCursor(j).page;
      }
    }
  }

  /** The layout in closed form: the first page holds 32 rows, every later
      page 34. */
  lemma {:induction false} CursorClosedForm(i: nat)
    ensures i < 32 ==> RowCursor(i) == Cursor(0, FirstRowY - LineGap * i)
    ensures i >= 32 ==> RowCursor(i) == Cursor(1 + (i - 32) / 34, TopY - LineGap * ((i - 32) % 34))
  {
    if 0 < i {
      CursorClosedForm(i - 1);
      if i > 32 {
        var q, m := (i - 33) / 34, (i - 33) % 34;
        assert i - 33 == 34 * q + m && 0 <= m < 34;
        if m < 33 {
          assert i - 32 == 34 * q + (m + 1);
          assert (i - 32) / 34 == q && (i - 32) % 34 == m + 1;
        } else {
          assert i - 32 == 34 * (q + 1) + 0;
          assert (i - 32) / 34 == q + 1 && (i - 32) % 34 == 0;
        }
      }
    }
  }

  /** The total line comes after the last row, below it on the same page or
      on a later page, and at a height of at least 80. */
  lemma TotalAfterRows(n: nat, total: real)
    requires n > 0
    ensures TotalLine(n, total).y >= TotalMargin - LineGap
    ensures TotalLine(n, total).page > RowCursor(n - 1).page ||
            (TotalLine(n, total).page == RowCursor(n - 1).page && TotalLine(n, total).y < RowCursor(n - 1).y)
  {
    CursorInBounds(n - 1);
  }

  /** The total line appears exactly once in a report, as its last line. */
  lemma TotalOnce(d: Document, rows: seq<DisplayRow>, total: real, j: nat)
    requires IsReport(d, rows, total)
    requires j < |d.lines|
    ensures d.lines[j].text.TotalText? <==> j == |d.lines| - 1
  {
    if 2 <= j < |rows| + 2 {
      assert d.lines[(j - 2) + 2] == RowLine(j - 2, rows[j - 2]);
    }
  }

  /** A report runs to more than one page exactly when it has at least 30
      rows: below that the rows and the total fit the first page. */
  lemma MorePagesIffThirtyRows(d: Document, rows: seq<DisplayRow>, total: real)
    requires IsReport(d, rows, total)
    ensures d.pages > 1 <==> |rows| >= 30
  {
    var n := |rows|;
    CursorClosedForm(n);
  }
}
