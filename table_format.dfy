/**
 * Table rendering in the dashboard formatter (frontend/src/components/Dashboard.js,
 * `formatTables` and `processTableRows`): runs of lines holding at least two `|` are
 * collected and each run becomes one HTML table; in vertical and horizontal analyses the
 * first cell of each body row becomes a button that starts an analysis of that market.
 *
 * Each row is first read into a view (what the row means: skipped, header or body, and
 * for a body row which cells are buttons and under what market name), then written out.
 */
module TableFormat {
  import opened JsText
  import opened Markup
  import opened CellLinks

  // ---------------------------------------------------------------------------
  // Cells

  /** The trimmed pieces that are not empty, in order. */
  function NonEmptyTrimmed(pieces: seq<string>): (cs: seq<string>)
    ensures |cs| <= |pieces|
    ensures forall i :: 0 <= i < |cs| ==> cs[i] != [] && Trimmed(cs[i])
  {
    if pieces == [] then []
    else
      var t := Trim(pieces[0]);
      var rest := NonEmptyTrimmed(pieces[1..]);
      if t == [] then rest else [t] + rest
  }

  /** A character no piece holds is in no cell. */
  lemma {:induction false} NonEmptyTrimmedNoChar(pieces: seq<string>, c: char)
    requires forall k :: 0 <= k < |pieces| ==> c !in pieces[k]
    ensures forall i :: 0 <= i < |NonEmptyTrimmed(pieces)| ==> c !in NonEmptyTrimmed(pieces)[i]
  {
    if pieces != [] {
      TrimNoChar(pieces[0], c);
      NonEmptyTrimmedNoChar(pieces[1..], c);
    }
  }

  /** The cells of a row: `row.split('|').map(trim).filter(nonEmpty)`. */
  function Cells(row: string): seq<string> {
    NonEmptyTrimmed(Split(row, '|'))
  }

  /** Each cell is non-empty, trimmed and holds no `|`. */
  lemma CellsSpec(row: string)
    ensures forall i :: 0 <= i < |Cells(row)| ==>
              Cells(row)[i] != [] && Trimmed(Cells(row)[i]) && '|' !in Cells(row)[i]
  {
    NonEmptyTrimmedNoChar(Split(row, '|'), '|');
  }

  /** A line without `|` is one cell, unless it is blank. */
  lemma CellsNoPipe(row: string)
    requires '|' !in row
    ensures Cells(row) == if Trim(row) == [] then [] else [Trim(row)]
  {
    SplitLength(row, '|');
    CountPositive(row, '|');
    JoinSplit(row, '|');
    assert Split(row, '|') == [row];
  }

  // ---------------------------------------------------------------------------
  // Reading a row

  /** What a body cell is rendered as: plain, or a button carrying a market name. */
  datatype CellView = Text(html: string) | Button(name: string, html: string)

  /** Which row is read how. */
  datatype RowView = Skipped | Header(names: seq<string>) | Body(cells: seq<CellView>)

  /** The analyses whose tables have clickable first cells. */
  predicate ClickableType(analysisType: string) {
    analysisType == "vertical" || analysisType == "horizontal"
  }

  /** A body cell after the two link passes. */
  function FormatCell(f: Fragments, cell: string): string {
    BareUrls(f, Anchors(f, cell, false))
  }

  /** The market name a clickable cell carries: `**` markers removed, then trimmed. */
  function CleanName(formatted: string): (name: string)
    ensures !Contains(name, "**") && Trimmed(name)
  {
    var r := ReplaceAll(formatted, "**", "");
    TrimmedFree(r, "**");
    RemoveDoubleStar(formatted);
    Trim(r)
  }

  /** Trimming cannot bring in a pattern. */
  lemma TrimmedFree(s: string, pat: string)
    ensures !Contains(s, pat) ==> !Contains(Trim(s), pat)
  {
    TrimIsInfix(s);
    if !Contains(s, pat) {
      NotContainsInfix(s, pat, TrimOffset(s), TrimOffset(s) + |Trim(s)|);
    }
  }

  lemma CleanNameNoNewline(formatted: string)
    requires '\n' !in formatted
    ensures '\n' !in CleanName(formatted)
  {
    ReplaceKeepsAbsent(formatted, "**", "", '\n');
    TrimNoChar(ReplaceAll(formatted, "**", ""), '\n');
  }

  /** The view of a cell in column `col` of a body row, given the cell after the link
      passes. */
  function CellViewOf(fc: string, col: nat, analysisType: string): CellView {
    if col == 0 && Trim(fc) != [] && !Contains(fc, "<a href") && ClickableType(analysisType) then
      var name := CleanName(fc);
      if |name| > 2 then Button(name, fc) else Text(fc)
    else Text(fc)
  }

  /** A cell keeps its text after the link passes; it is a button only in the first
      column of a vertical or horizontal analysis, when it holds no anchor, and then under a
      name longer than two characters, trimmed and free of `**`. */
  lemma CellViewSpec(fc: string, col: nat, analysisType: string)
    ensures CellViewOf(fc, col, analysisType).html == fc
    ensures var v := CellViewOf(fc, col, analysisType);
            v.Button? ==> col == 0 && ClickableType(analysisType) && !Contains(fc, "<a href")
    ensures var v := CellViewOf(fc, col, analysisType);
            v.Button? ==> |v.name| > 2 && !Contains(v.name, "**") && Trimmed(v.name)
  {
  }

  /** The views of the cells of a body row, column by column. */
  function BodyViews(f: Fragments, cells: seq<string>, analysisType: string): (vs: seq<CellView>)
    ensures |vs| == |cells|
    ensures forall i :: 0 <= i < |cells| ==> vs[i] == CellViewOf(FormatCell(f, cells[i]), i, analysisType)
  {
    seq(|cells|, i requires 0 <= i < |cells| => CellViewOf(FormatCell(f, cells[i]), i, analysisType))
  }

  /** How the row at `index` of a table is read. */
  function ReadRow(f: Fragments, row: string, index: nat, analysisType: string): (v: RowView) {
    if Contains(row, "---") then Skipped
    else
      var cells := Cells(row);
      if cells == [] then Skipped
      else if index == 0 then Header(cells)
      else Body(BodyViews(f, cells, analysisType))
  }

  /** A row is skipped exactly when it holds `---` or has no cell; only the first row can
      be the header; the header names are the cells; a body row has one view per cell, the
      cell after the link passes, and only its first cell can be a button. */
  lemma ReadRowSpec(f: Fragments, row: string, index: nat, analysisType: string)
    ensures ReadRow(f, row, index, analysisType).Skipped? <==> Contains(row, "---") || Cells(row) == []
    ensures ReadRow(f, row, index, analysisType).Header? <==>
              index == 0 && !Contains(row, "---") && Cells(row) != []
    ensures ReadRow(f, row, index, analysisType).Header? ==>
              ReadRow(f, row, index, analysisType).names == Cells(row)
    ensures ReadRow(f, row, index, analysisType).Body? ==>
              var vs := ReadRow(f, row, index, analysisType).cells;
              && |vs| == |Cells(row)|
              && (forall i :: 0 <= i < |vs| ==> vs[i].html == FormatCell(f, Cells(row)[i]))
              && (forall i :: 0 <= i < |vs| && vs[i].Button? ==> i == 0)
  {
    var cs := Cells(row);
    forall i | 0 <= i < |cs|
      ensures CellViewOf(FormatCell(f, cs[i]), i, analysisType).html == FormatCell(f, cs[i])
      ensures CellViewOf(FormatCell(f, cs[i]), i, analysisType).Button? ==> i == 0
    {
      CellViewSpec(FormatCell(f, cs[i]), i, analysisType);
    }
  }

  /** The first cell of a body row is a button exactly when the analysis is vertical or
      horizontal, the cell holds no anchor after the link passes and its cleaned name is
      longer than two characters. (The source also asks that the cell is not blank, which
      the length of the name already implies.) */
  lemma ButtonIff(fc: string, analysisType: string)
    ensures CellViewOf(fc, 0, analysisType).Button? <==>
              ClickableType(analysisType) && !Contains(fc, "<a href") && |CleanName(fc)| > 2
    ensures CellViewOf(fc, 0, analysisType).Button? ==>
              CellViewOf(fc, 0, analysisType).name == CleanName(fc)
  {
    BlankCleansEmpty(fc);
  }

  /** A blank text cleans to the empty name. */
  lemma BlankCleansEmpty(fc: string)
    ensures Trim(fc) == [] ==> CleanName(fc) == []
  {
    if Trim(fc) == [] {
      AllSpaceReplace(fc);
    }
  }

  /** Removing `**` from a text whose trimmed form is empty leaves only spaces. */
  lemma AllSpaceReplace(s: string)
    requires Trim(s) == []
    ensures Trim(ReplaceAll(s, "**", "")) == []
  {
    TrimEmpty(s);
    assert '*' !in s by {
      forall k | 0 <= k < |s| ensures s[k] != '*' { assert IsSpace(s[k]); }
    }
    ReplaceNoStar(s);
  }

  /** A trimmed-empty text is all spaces. */
  lemma TrimEmpty(s: string)
    requires Trim(s) == []
    ensures forall k :: 0 <= k < |s| ==> IsSpace(s[k])
  {
    TrimCutsSpaceBefore(s);
    TrimCutsSpaceAfter(s);
  }

  /** A text without `*` is left alone by the removal of `**`. */
  lemma {:induction false} ReplaceNoStar(s: string)
    requires '*' !in s
    ensures ReplaceAll(s, "**", "") == s
    decreases |s|
  {
    if |s| >= 2 {
      assert s[..2] != "**" by { assert s[0] != '*'; }
      ReplaceNoStar(s[1..]);
    }
  }

  // ---------------------------------------------------------------------------
  // Writing a table

  function CellHtml(f: Fragments, v: CellView, analysisType: string): string {
    match v
    case Text(html) => f.tdOpen + html + f.tdClose
    case Button(name, html) =>
      f.buttonOpen + name + f.buttonType + analysisType + f.buttonTitle + name + f.buttonLabel
      + html + f.buttonClose
  }

  function HeaderHtml(f: Fragments, names: seq<string>): string {
    if names == [] then []
    else HeaderHtml(f, names[..|names| - 1]) + (f.thOpen + names[|names| - 1] + f.thClose)
  }

  function BodyHtml(f: Fragments, cells: seq<CellView>, analysisType: string): string {
    if cells == [] then []
    else BodyHtml(f, cells[..|cells| - 1], analysisType) + CellHtml(f, cells[|cells| - 1], analysisType)
  }

  function RowHtml(f: Fragments, v: RowView, analysisType: string): string {
    match v
    case Skipped => []
    case Header(names) => f.headOpen + HeaderHtml(f, names) + f.headClose
    case Body(cells) => f.rowOpen + BodyHtml(f, cells, analysisType) + f.rowClose
  }

  /** The rows of a table written one after the other, each read at its own index. */
  function RowsHtml(f: Fragments, rows: seq<string>, analysisType: string): string {
    if rows == [] then []
    else
      RowsHtml(f, rows[..|rows| - 1], analysisType)
      + RowHtml(f, ReadRow(f, rows[|rows| - 1], |rows| - 1, analysisType), analysisType)
  }

  /** The HTML of a table; no rows give no table at all. */
  function TableHtml(f: Fragments, rows: seq<string>, analysisType: string): string {
    if rows == [] then [] else f.tableOpen + RowsHtml(f, rows, analysisType) + f.tableClose
  }

  lemma RowsHtmlStep(f: Fragments, rows: seq<string>, i: nat, analysisType: string)
    requires i < |rows|
    ensures RowsHtml(f, rows[..i + 1], analysisType)
            == RowsHtml(f, rows[..i], analysisType) + RowHtml(f, ReadRow(f, rows[i], i, analysisType), analysisType)
  {
    assert rows[..i + 1][..i] == rows[..i];
  }

  /** The markup of one body cell (the callback of the inner `forEach`). */
  method BodyCellHtml(f: Fragments, cell: string, cellIndex: nat, analysisType: string) returns (h: string)
    ensures h == CellHtml(f, CellViewOf(FormatCell(f, cell), cellIndex, analysisType), analysisType)
  {
    var formatted := FormatCell(f, cell);
    ghost var v := CellViewOf(formatted, cellIndex, analysisType);
    if cellIndex == 0 && Trim(formatted) != [] && !Contains(formatted, "<a href")
       && (analysisType == "vertical" || analysisType == "horizontal")
    {
      var clean := CleanName(formatted);
      if |clean| > 2 {
        assert v == Button(clean, formatted);
        h := f.buttonOpen + clean + f.buttonType + analysisType + f.buttonTitle + clean
             + f.buttonLabel + formatted + f.buttonClose;
      } else {
        assert v == Text(formatted);
        h := f.tdOpen + formatted + f.tdClose;
      }
    } else {
      assert v == Text(formatted);
      h := f.tdOpen + formatted + f.tdClose;
    }
  }

  /** The header row: one `th` per cell. */
  method HeaderRowHtml(f: Fragments, cells: seq<string>) returns (h: string)
    ensures h == f.headOpen + HeaderHtml(f, cells) + f.headClose
  {
    h := f.headOpen;
    for c := 0 to |cells|
      invariant h == f.headOpen + HeaderHtml(f, cells[..c])
    {
      assert cells[..c + 1][..c] == cells[..c];
      AppendAssoc(f.headOpen, HeaderHtml(f, cells[..c]), f.thOpen + cells[c] + f.thClose);
      h := h + (f.thOpen + cells[c] + f.thClose);
    }
    assert cells[..|cells|] == cells;
    h := h + f.headClose;
  }

  lemma BodyHtmlStep(f: Fragments, views: seq<CellView>, c: nat, analysisType: string)
    requires c < |views|
    ensures BodyHtml(f, views[..c + 1], analysisType)
            == BodyHtml(f, views[..c], analysisType) + CellHtml(f, views[c], analysisType)
  {
    assert views[..c + 1][..c] == views[..c];
  }

  /** A body row: one `td` per cell, the first possibly a button. */
  method BodyRowHtml(f: Fragments, cells: seq<string>, analysisType: string) returns (h: string)
    ensures h == f.rowOpen + BodyHtml(f, BodyViews(f, cells, analysisType), analysisType) + f.rowClose
  {
    ghost var views := BodyViews(f, cells, analysisType);
    h := f.rowOpen;
    for c := 0 to |cells|
      invariant h == f.rowOpen + BodyHtml(f, views[..c], analysisType)
    {
      var cellHtml := BodyCellHtml(f, cells[c], c, analysisType);
      assert cellHtml == CellHtml(f, views[c], analysisType);
      BodyHtmlStep(f, views, c, analysisType);
      AppendAssoc(f.rowOpen, BodyHtml(f, views[..c], analysisType), cellHtml);
      h := h + cellHtml;
    }
    assert views[..|cells|] == views;
    h := h + f.rowClose;
  }

  /** The markup of a row, case by case. */
  lemma RowHtmlCases(f: Fragments, row: string, index: nat, analysisType: string)
    ensures Contains(row, "---") || Cells(row) == [] ==>
              RowHtml(f, ReadRow(f, row, index, analysisType), analysisType) == []
    ensures !Contains(row, "---") && Cells(row) != [] && index == 0 ==>
              RowHtml(f, ReadRow(f, row, index, analysisType), analysisType)
              == f.headOpen + HeaderHtml(f, Cells(row)) + f.headClose
    ensures !Contains(row, "---") && Cells(row) != [] && index != 0 ==>
              RowHtml(f, ReadRow(f, row, index, analysisType), analysisType)
              == f.rowOpen + BodyHtml(f, BodyViews(f, Cells(row), analysisType), analysisType) + f.rowClose
  {
    var v := ReadRow(f, row, index, analysisType);
    if Contains(row, "---") || Cells(row) == [] {
      assert v == Skipped;
    } else if index == 0 {
      assert v == Header(Cells(row));
    } else {
      assert v == Body(BodyViews(f, Cells(row), analysisType));
    }
  }

  /** Builds the table row by row, as `processTableRows` does. */
  method ProcessTableRows(f: Fragments, rows: seq<string>, analysisType: string) returns (html: string)
    ensures html == TableHtml(f, rows, analysisType)
  {
    if |rows| == 0 {
      return "";
    }
    html := f.tableOpen;
    for index := 0 to |rows|
      invariant html == f.tableOpen + RowsHtml(f, rows[..index], analysisType)
    {
      var row := rows[index];
      ghost var done := RowsHtml(f, rows[..index], analysisType);
      ghost var expected := RowHtml(f, ReadRow(f, row, index, analysisType), analysisType);
      RowsHtmlStep(f, rows, index, analysisType);
      AppendAssoc(f.tableOpen, done, expected);
      RowHtmlCases(f, row, index, analysisType);
      if Contains(row, "---") {
        assert expected == [] && done + expected == done;
        continue;
      }
      var cells := Cells(row);
      if |cells| == 0 {
        assert expected == [] && done + expected == done;
        continue;
      }
      var rowHtml;
      if index == 0 {
        rowHtml := HeaderRowHtml(f, cells);
      } else {
        rowHtml := BodyRowHtml(f, cells, analysisType);
      }
      assert rowHtml == expected;
      html := html + rowHtml;
    }
    assert rows[..|rows|] == rows;
    html := html + f.tableClose;
  }

  // ---------------------------------------------------------------------------
  // A table is one line

  lemma CellHtmlNoNewline(f: Fragments, v: CellView, analysisType: string)
    requires OneLineFragments(f)
    requires '\n' !in v.html
    requires v.Button? ==> '\n' !in v.name && ClickableType(analysisType)
    ensures '\n' !in CellHtml(f, v, analysisType)
  {
    if v.Button? {
      assert '\n' !in analysisType;
    }
  }

  /** The cells of a row without line breaks have none. */
  lemma CellsNoNewline(row: string)
    requires '\n' !in row
    ensures forall i :: 0 <= i < |Cells(row)| ==> '\n' !in Cells(row)[i]
  {
    SplitNoChar(row, '|', '\n');
    NonEmptyTrimmedNoChar(Split(row, '|'), '\n');
  }

  /** A body cell without line breaks is written without line breaks. */
  lemma BodyCellNoNewline(f: Fragments, cell: string, col: nat, analysisType: string)
    requires OneLineFragments(f)
    requires '\n' !in cell
    ensures '\n' !in CellHtml(f, CellViewOf(FormatCell(f, cell), col, analysisType), analysisType)
  {
    var fc := FormatCell(f, cell);
    AnchorsNoNewline(f, cell, false);
    BareUrlsNoNewline(f, Anchors(f, cell, false));
    assert '\n' !in fc;
    CellViewSpec(fc, col, analysisType);
    CleanNameNoNewline(fc);
    CellHtmlNoNewline(f, CellViewOf(fc, col, analysisType), analysisType);
  }

  lemma {:induction false} BodyHtmlNoNewline(f: Fragments, cells: seq<string>, analysisType: string, n: nat)
    requires OneLineFragments(f)
    requires n <= |cells|
    requires forall i :: 0 <= i < |cells| ==> '\n' !in cells[i]
    ensures '\n' !in BodyHtml(f, BodyViews(f, cells, analysisType)[..n], analysisType)
  {
    var views := BodyViews(f, cells, analysisType);
    if n > 0 {
      BodyHtmlNoNewline(f, cells, analysisType, n - 1);
      BodyHtmlStep(f, views, n - 1, analysisType);
      BodyCellNoNewline(f, cells[n - 1], n - 1, analysisType);
      assert views[n - 1] == CellViewOf(FormatCell(f, cells[n - 1]), n - 1, analysisType);
    }
  }

  lemma {:induction false} HeaderHtmlNoNewline(f: Fragments, names: seq<string>)
    requires OneLineFragments(f)
    requires forall i :: 0 <= i < |names| ==> '\n' !in names[i]
    ensures '\n' !in HeaderHtml(f, names)
  {
    if names != [] {
      HeaderHtmlNoNewline(f, names[..|names| - 1]);
    }
  }

  lemma RowHtmlNoNewline(f: Fragments, row: string, index: nat, analysisType: string)
    requires OneLineFragments(f)
    requires '\n' !in row
    ensures '\n' !in RowHtml(f, ReadRow(f, row, index, analysisType), analysisType)
  {
    CellsNoNewline(row);
    RowHtmlCases(f, row, index, analysisType);
    if !Contains(row, "---") && Cells(row) != [] {
      if index == 0 {
        HeaderHtmlNoNewline(f, Cells(row));
      } else {
        var views := BodyViews(f, Cells(row), analysisType);
        BodyHtmlNoNewline(f, Cells(row), analysisType, |Cells(row)|);
        assert views[..|Cells(row)|] == views;
      }
    }
  }

  lemma {:induction false} RowsHtmlNoNewline(f: Fragments, rows: seq<string>, analysisType: string)
    requires OneLineFragments(f)
    requires forall i :: 0 <= i < |rows| ==> '\n' !in rows[i]
    ensures '\n' !in RowsHtml(f, rows, analysisType)
  {
    if rows != [] {
      RowsHtmlNoNewline(f, rows[..|rows| - 1], analysisType);
      RowHtmlNoNewline(f, rows[|rows| - 1], |rows| - 1, analysisType);
    }
  }

  /** Rows without line breaks give a table without line breaks: joined with the other
      lines, the table is exactly one line of the result. */
  lemma TableNoNewline(f: Fragments, rows: seq<string>, analysisType: string)
    requires OneLineFragments(f)
    requires forall i :: 0 <= i < |rows| ==> '\n' !in rows[i]
    ensures '\n' !in TableHtml(f, rows, analysisType)
  {
    RowsHtmlNoNewline(f, rows, analysisType);
  }
}
