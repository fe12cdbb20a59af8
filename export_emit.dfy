/**
 * The emitting half of the exporters (frontend/src/utils/downloadUtils.js, 74-308): the
 * blocks every exporter writes, the PDF's paragraph layout and page footers, the
 * spreadsheet's sheets and the Markdown document's lines.
 *
 * The PDF and spreadsheet libraries are not modelled: the PDF is the record of what was
 * drawn where, the spreadsheet is its sheets as arrays of rows. `stripHtml`, which reads
 * the text of the HTML through a DOM element, and the current date are parameters.
 */
module ExportEmit {
  import opened JsText

  /** `s || d` on a string: the empty string is falsy. */
  function OrElse(s: string, d: string): string {
    if s == "" then d else s
  }

  /** A section of the analysis: its title and its formatted HTML (empty when missing). */
  datatype Section = Section(title: string, html: string)

  /** What the dialog hands to the exporters; missing text fields are empty. */
  datatype AnalysisData = AnalysisData(
    marketName: string,
    analysisType: string,
    timestamp: string,
    sections: seq<Section>,
    metrics: string,
    companies: string)

  /** The blocks every exporter writes: the sections, or the metrics and the companies when
      there are none. */
  function Blocks(data: AnalysisData): seq<Section> {
    if data.sections != [] then data.sections
    else [Section("Market Metrics", data.metrics), Section("Top Companies", data.companies)]
  }

  lemma BlocksSpec(data: AnalysisData)
    ensures |Blocks(data)| >= 1
    ensures data.sections != [] ==> Blocks(data) == data.sections
    ensures data.sections == [] ==>
              && |Blocks(data)| == 2
              && Blocks(data)[0] == Section("Market Metrics", data.metrics)
              && Blocks(data)[1] == Section("Top Companies", data.companies)
  {
  }

  // ---------------------------------------------------------------------------
  // PDF: paragraph layout (`addParagraph`) and footers

  /** Where the next line goes: its height on the page, the current page, the page count. */
  datatype Cursor = Cursor(y: real, page: nat, pages: nat)

  /** A string drawn on a page. */
  datatype Drawn = Drawn(page: nat, text: string, x: real, y: real)

  /** Before a line: past the limit, a page is added and the line goes to its top. */
  function BreakIfFull(c: Cursor, limit: real, margin: real): Cursor {
    if c.y > limit then Cursor(margin, c.pages + 1, c.pages + 1) else c
  }

  /** Where each of `n` lines is drawn, each 14 points below the one before. */
  function Layout(n: nat, c: Cursor, limit: real, margin: real): (r: seq<Cursor>)
    ensures |r| == n
    decreases n
  {
    if n == 0 then []
    else
      var d := BreakIfFull(c, limit, margin);
      [d] + Layout(n - 1, d.(y := d.y + 14.0), limit, margin)
  }

  /** The cursor after `n` lines. */
  function After(n: nat, c: Cursor, limit: real, margin: real): Cursor
    decreases n
  {
    if n == 0 then c
    else
      var d := BreakIfFull(c, limit, margin);
      After(n - 1, d.(y := d.y + 14.0), limit, margin)
  }

  function Draws(lines: seq<string>, x: real, spots: seq<Cursor>): (r: seq<Drawn>)
    requires |spots| == |lines|
    ensures |r| == |lines|
  {
    seq(|lines|, k requires 0 <= k < |lines| => Drawn(spots[k].page, lines[k], x, spots[k].y))
  }

  /** One more line: its place is the cursor after the page check. */
  lemma LayoutStep(n: nat, c: Cursor, limit: real, margin: real, spots: seq<Cursor>)
    requires n > 0
    ensures var d := BreakIfFull(c, limit, margin);
            && spots + Layout(n, c, limit, margin) == (spots + [d]) + Layout(n - 1, d.(y := d.y + 14.0), limit, margin)
            && After(n, c, limit, margin) == After(n - 1, d.(y := d.y + 14.0), limit, margin)
  {
    var d := BreakIfFull(c, limit, margin);
    AppendAssoc(spots, [d], Layout(n - 1, d.(y := d.y + 14.0), limit, margin));
  }

  /** After the lines placed at `spots`, the rest of the paragraph is laid out from `c`. */
  predicate LaidOut(n: nat, start: Cursor, limit: real, margin: real, spots: seq<Cursor>, c: Cursor)
    requires |spots| <= n
  {
    && Layout(n, start, limit, margin) == spots + Layout(n - |spots|, c, limit, margin)
    && After(n, start, limit, margin) == After(n - |spots|, c, limit, margin)
  }

  /** Placing one more line keeps the layout on track. */
  lemma LaidOutStep(n: nat, start: Cursor, limit: real, margin: real, spots: seq<Cursor>, c: Cursor)
    requires |spots| < n && LaidOut(n, start, limit, margin, spots, c)
    ensures var d := BreakIfFull(c, limit, margin);
            LaidOut(n, start, limit, margin, spots + [d], d.(y := d.y + 14.0))
  {
    LayoutStep(n - |spots|, c, limit, margin, spots);
  }

  /** With every line placed, the spots are the whole layout and `c` is where it ends. */
  lemma LayoutDone(n: nat, start: Cursor, limit: real, margin: real, spots: seq<Cursor>, c: Cursor)
    requires |spots| == n && LaidOut(n, start, limit, margin, spots, c)
    ensures Layout(n, start, limit, margin) == spots
    ensures After(n, start, limit, margin) == c
  {
    assert Layout(0, c, limit, margin) == [];
    assert spots + [] == spots;
  }

  /** Drawing one more line appends its drawing. */
  lemma DrawsStep(lines: seq<string>, x: real, spots: seq<Cursor>, spot: Cursor)
    requires |spots| < |lines|
    ensures Draws(lines[..|spots| + 1], x, spots + [spot])
            == Draws(lines[..|spots|], x, spots) + [Drawn(spot.page, lines[|spots|], x, spot.y)]
  {
  }

  /** `Page i of total` */
  function FooterLabel(i: nat, total: nat): string {
    "Page " + NatToString(i) + " of " + NatToString(total)
  }

  /** The document being drawn: its pages, the current one, and everything drawn so far. */
  class PdfDoc {
    var pages: nat
    var current: nat
    var drawn: seq<Drawn>

    /** A new document has one empty page. */
    constructor ()
      ensures pages == 1 && current == 1 && drawn == []
    {
      pages := 1;
      current := 1;
      drawn := [];
    }

    /** `addParagraph`, given the lines the library split the text into. */
    method AddParagraph(lines: seq<string>, x: real, y: real, pageHeight: real, margin: real) returns (yOut: real)
      modifies this
      ensures var limit := pageHeight - margin - 12.0;
              var start := Cursor(y, old(current), old(pages));
              var end := After(|lines|, start, limit, margin);
              && drawn == old(drawn) + Draws(lines, x, Layout(|lines|, start, limit, margin))
              && current == end.page && pages == end.pages
              && yOut == end.y + 6.0
    {
      var limit := pageHeight - margin - 12.0;
      ghost var start := Cursor(y, current, pages);
      ghost var spots: seq<Cursor> := [];
      ghost var before := drawn;
      var cy := y;
      var i := 0;
      while i < |lines|
        invariant 0 <= i <= |lines|
        invariant |spots| == i
        invariant LaidOut(|lines|, start, limit, margin, spots, Cursor(cy, current, pages))
        invariant drawn == before + Draws(lines[..i], x, spots)
      {
        ghost var c := Cursor(cy, current, pages);
        LaidOutStep(|lines|, start, limit, margin, spots, c);
        cy := BreakPage(cy, limit, margin);
        ghost var spot := Cursor(cy, current, pages);
        DrawsStep(lines, x, spots, spot);
        drawn := drawn + [Drawn(current, lines[i], x, cy)];
        spots := spots + [spot];
        cy := cy + 14.0;
        i := i + 1;
      }
      LayoutDone(|lines|, start, limit, margin, spots, Cursor(cy, current, pages));
      assert lines[..i] == lines;
      yOut := cy + 6.0;
    }

    /** The page check before each line: past the limit a page is added, made current, and
        the line goes to the top margin. */
    method BreakPage(cy: real, limit: real, margin: real) returns (y: real)
      modifies this
      ensures Cursor(y, current, pages) == BreakIfFull(Cursor(cy, old(current), old(pages)), limit, margin)
      ensures drawn == old(drawn)
    {
      y := cy;
      if cy > limit {
        pages := pages + 1;
        current := pages;
        y := margin;
      }
    }

    /** The footer loop: every page, from the first, gets its number at the bottom. */
    method AddFooters(x: real, y: real)
      modifies this
      ensures pages == old(pages)
      ensures current == (if old(pages) == 0 then old(current) else old(pages))
      ensures drawn == old(drawn) + seq(old(pages), k requires 0 <= k < old(pages) => Drawn(k + 1, FooterLabel(k + 1, old(pages)), x, y))
    {
      var total := pages;
      ghost var before := drawn;
      var i := 1;
      while i <= total
        invariant 1 <= i <= total + 1
        invariant pages == total
        invariant i > 1 ==> current == i - 1
        invariant total == 0 ==> current == old(current)
        invariant drawn == before + seq(i - 1, k requires 0 <= k < i - 1 => Drawn(k + 1, FooterLabel(k + 1, total), x, y))
      {
        current := i;
        drawn := drawn + [Drawn(i, FooterLabel(i, total), x, y)];
        i := i + 1;
      }
    }
  }

  /** Where `addParagraph` puts lines: a line is never drawn below the limit unless it is the
      first of a fresh page, and a line past the limit is always on the newest page. */
  lemma {:induction false} LayoutWithinPage(n: nat, c: Cursor, limit: real, margin: real)
    ensures forall k :: 0 <= k < n ==>
              Layout(n, c, limit, margin)[k].y <= limit || Layout(n, c, limit, margin)[k].y == margin
    ensures forall k :: 0 <= k < n ==>
              Layout(n, c, limit, margin)[k].y > limit ==> Layout(n, c, limit, margin)[k].page == Layout(n, c, limit, margin)[k].pages
    decreases n
  {
    if n > 0 {
      var d := BreakIfFull(c, limit, margin);
      var next := d.(y := d.y + 14.0);
      LayoutWithinPage(n - 1, next, limit, margin);
      var l := Layout(n, c, limit, margin);
      var rest := Layout(n - 1, next, limit, margin);
      assert l == [d] + rest;
      forall k | 0 <= k < n
        ensures l[k].y <= limit || l[k].y == margin
        ensures l[k].y > limit ==> l[k].page == l[k].pages
      {
        if k > 0 {
          assert l[k] == rest[k - 1];
        }
      }
    }
  }

  /** The order of the lines: the first goes where the page check puts the cursor, and each
      other one sits 14 points under the one before on the same page, or at the top of the
      page just added. */
  lemma {:induction false} LayoutSteps(n: nat, c: Cursor, limit: real, margin: real)
    ensures var l := Layout(n, c, limit, margin);
            && (n > 0 ==> l[0] == BreakIfFull(c, limit, margin))
            && (forall k :: 0 < k < n ==>
                  || l[k] == l[k - 1].(y := l[k - 1].y + 14.0)
                  || (l[k].y == margin && l[k].page == l[k - 1].pages + 1 && l[k].pages == l[k].page))
    decreases n
  {
    if n > 0 {
      var d := BreakIfFull(c, limit, margin);
      var next := d.(y := d.y + 14.0);
      LayoutSteps(n - 1, next, limit, margin);
      var l := Layout(n, c, limit, margin);
      var rest := Layout(n - 1, next, limit, margin);
      assert l == [d] + rest;
      forall k | 0 < k < n
        ensures || l[k] == l[k - 1].(y := l[k - 1].y + 14.0)
                || (l[k].y == margin && l[k].page == l[k - 1].pages + 1 && l[k].pages == l[k].page)
      {
        assert l[k] == rest[k - 1];
        if k > 1 {
          assert l[k - 1] == rest[k - 2];
        }
      }
    }
  }

  /** Where `addParagraph` leaves the cursor: 14 points under the last line (unchanged when
      there is no line), having added at most one page per line. */
  lemma {:induction false} LayoutEnd(n: nat, c: Cursor, limit: real, margin: real)
    ensures var l := Layout(n, c, limit, margin);
            var end := After(n, c, limit, margin);
            && (n == 0 ==> end == c)
            && (n > 0 ==> end == l[n - 1].(y := l[n - 1].y + 14.0))
            && c.pages <= end.pages <= c.pages + n
    decreases n
  {
    if n > 0 {
      var d := BreakIfFull(c, limit, margin);
      var next := d.(y := d.y + 14.0);
      LayoutEnd(n - 1, next, limit, margin);
      var l := Layout(n, c, limit, margin);
      var rest := Layout(n - 1, next, limit, margin);
      assert l == [d] + rest;
      if n > 1 {
        assert l[n - 1] == rest[n - 2];
      }
    }
  }

  lemma {:induction false} NatToStringInjective(a: nat, b: nat)
    requires NatToString(a) == NatToString(b)
    ensures a == b
    decreases a
  {
    var r := NatToString(a);
    if a >= 10 && b >= 10 {
      var ra, rb := NatToString(a / 10), NatToString(b / 10);
      assert r == ra + [('0' as int + a % 10) as char];
      assert NatToString(b) == rb + [('0' as int + b % 10) as char];
      assert ra == r[..|r| - 1] == rb;
      NatToStringInjective(a / 10, b / 10);
    }
  }

  /** The footers of one document are all different: each names its own page. */
  lemma FooterLabelsDistinct(i: nat, j: nat, total: nat)
    requires FooterLabel(i, total) == FooterLabel(j, total)
    ensures i == j
  {
    var a, b, tail := NatToString(i), NatToString(j), " of " + NatToString(total);
    var li, lj := FooterLabel(i, total), FooterLabel(j, total);
    assert li == "Page " + a + tail;
    assert lj == "Page " + b + tail;
    assert |a| == |b|;
    assert a == li[5..5 + |a|];
    assert b == lj[5..5 + |b|];
    NatToStringInjective(i, j);
  }

  // ---------------------------------------------------------------------------
  // Spreadsheet

  /** A spreadsheet cell: text or a number. */
  datatype XCell = Str(s: string) | Num(n: int)

  datatype Sheet = Sheet(name: string, rows: seq<seq<XCell>>)

  /** The summary sheet. */
  function SummarySheet(data: AnalysisData, now: string): Sheet {
    Sheet("Summary", [
      [Str("Market Analysis Report")],
      [Str("")],
      [Str("Market:"), Str(data.marketName)],
      [Str("Analysis Type:"), Str(data.analysisType)],
      [Str("Generated:"), Str(OrElse(data.timestamp, now))],
      [Str("Sections:"), Num(|data.sections|)],
      [Str("")]])
  }

  /** A line trimmed, if something is left. */
  function NonBlank(line: string): Option<string> {
    var t := Trim(line);
    if t != "" then Some(t) else None
  }

  /** The text lines with something in them, trimmed. */
  function NonBlankLines(lines: seq<string>): seq<string> {
    Present(lines, NonBlank)
  }

  /** The one-cell row of a line with something in it. */
  function TextRow(line: string): Option<seq<XCell>> {
    var t := Trim(line);
    if t != "" then Some([Str(t)]) else None
  }

  /** A row of the block's text: one cell holding a non-blank, trimmed line. */
  predicate LineRow(r: seq<XCell>) {
    |r| == 1 && r[0].Str? && r[0].s != "" && Trimmed(r[0].s) && '\n' !in r[0].s
  }

  function OneCellRows(lines: seq<string>): (r: seq<seq<XCell>>)
    ensures |r| == |lines|
  {
    seq(|lines|, k requires 0 <= k < |lines| => [Str(lines[k])])
  }

  /** One row per non-blank line of the text, trimmed. */
  function TextRows(text: string): seq<seq<XCell>> {
    OneCellRows(NonBlankLines(Split(text, '\n')))
  }

  /** The sheet of one block: its title, a blank row, then the rows of its text; the sheet
      is named by the title's first 31 characters. */
  function BlockSheet(stripHtml: string -> string, s: Section): Sheet {
    Sheet(Take(s.title, 31), [[Str(s.title)], [Str("")]] + TextRows(stripHtml(s.html)))
  }

  function BlockSheets(stripHtml: string -> string, bs: seq<Section>): (r: seq<Sheet>)
    ensures |r| == |bs|
  {
    seq(|bs|, k requires 0 <= k < |bs| => BlockSheet(stripHtml, bs[k]))
  }

  function ExcelSheets(data: AnalysisData, stripHtml: string -> string, now: string): seq<Sheet> {
    [SummarySheet(data, now)] + BlockSheets(stripHtml, Blocks(data))
  }

  /** `downloadAsExcel`: the summary, then one sheet per block. */
  method DownloadAsExcelSheets(data: AnalysisData, stripHtml: string -> string, now: string) returns (sheets: seq<Sheet>)
    ensures sheets == ExcelSheets(data, stripHtml, now)
  {
    sheets := [SummarySheet(data, now)];
    var blocks := Blocks(data);
    var i := 0;
    while i < |blocks|
      invariant 0 <= i <= |blocks|
      invariant sheets == [SummarySheet(data, now)] + BlockSheets(stripHtml, blocks[..i])
    {
      assert BlockSheets(stripHtml, blocks[..i + 1]) == BlockSheets(stripHtml, blocks[..i]) + [BlockSheet(stripHtml, blocks[i])];
      sheets := sheets + [BlockSheet(stripHtml, blocks[i])];
      i := i + 1;
    }
    assert blocks[..i] == blocks;
  }

  /** The kept lines are, in order and each once, the trimmed lines that are not blank. */
  lemma NonBlankLinesSpec(lines: seq<string>)
    ensures |NonBlankLines(lines)| <= |lines|
    ensures forall t :: t in NonBlankLines(lines) ==> t != "" && Trimmed(t)
    ensures forall k :: 0 <= k < |lines| && Trim(lines[k]) != "" ==> Trim(lines[k]) in NonBlankLines(lines)
    ensures forall t :: t in NonBlankLines(lines) ==> exists k :: 0 <= k < |lines| && Trim(lines[k]) == t
    ensures exists idx :: Picks(idx, NonBlankLines(lines), lines, NonBlank)
  {
    PresentPicks(lines, NonBlank);
    PresentMembers(lines, NonBlank);
    forall t | t in NonBlankLines(lines) ensures t != "" && Trimmed(t) {
      var k :| 0 <= k < |lines| && NonBlank(lines[k]) == Some(t);
      assert Trim(lines[k]) == t;
    }
  }

  /** What `downloadAsExcel` promises of the workbook: a `Summary` sheet counting the
      sections, then one sheet per block, in block order. */
  lemma ExcelSpec(data: AnalysisData, stripHtml: string -> string, now: string)
    ensures var sheets := ExcelSheets(data, stripHtml, now);
            var blocks := Blocks(data);
            && |sheets| == 1 + |blocks|
            && sheets[0].name == "Summary"
            && sheets[0].rows[5] == [Str("Sections:"), Num(|data.sections|)]
            && forall i :: 0 <= i < |blocks| ==> sheets[i + 1] == BlockSheet(stripHtml, blocks[i])
  {
    var sheets := ExcelSheets(data, stripHtml, now);
    var blocks := Blocks(data);
    var rest := BlockSheets(stripHtml, blocks);
    assert sheets == [SummarySheet(data, now)] + rest;
    forall i | 0 <= i < |blocks| ensures sheets[i + 1] == BlockSheet(stripHtml, blocks[i]) {
      assert sheets[i + 1] == rest[i];
    }
  }

  /** What `downloadAsExcel` promises of a block's sheet: it is named by at most 31
      characters of the title and holds the title, a blank row, and then its text's rows. */
  lemma BlockSheetSpec(stripHtml: string -> string, s: Section)
    ensures var sheet := BlockSheet(stripHtml, s);
            && sheet.name == Take(s.title, 31)
            && |sheet.name| <= 31
            && |sheet.rows| >= 2
            && sheet.rows[0] == [Str(s.title)]
            && sheet.rows[1] == [Str("")]
            && sheet.rows[2..] == TextRows(stripHtml(s.html))
  {
    var sheet := BlockSheet(stripHtml, s);
    assert sheet.rows[2..] == TextRows(stripHtml(s.html));
  }

  /** The kept lines, one per row, are picked from the same lines as the lines themselves. */
  lemma OneCellRowsPicks(idx: seq<nat>, kept: seq<string>, lines: seq<string>)
    requires Picks(idx, kept, lines, NonBlank)
    ensures Picks(idx, OneCellRows(kept), lines, TextRow)
  {
    var rows := OneCellRows(kept);
    forall j | 0 <= j < |idx| ensures TextRow(lines[idx[j]]) == Some(rows[j]) {
      assert NonBlank(lines[idx[j]]) == Some(kept[j]);
    }
    forall k | 0 <= k < |lines| && TextRow(lines[k]).Some? ensures k in idx {
      assert NonBlank(lines[k]).Some?;
    }
  }

  /** The rows of a text are exactly its non-blank lines, trimmed, one per row, in order
      and each once. */
  lemma TextRowsSpec(text: string)
    ensures var rows := TextRows(text);
            var lines := Split(text, '\n');
            && |rows| <= |lines|
            && (forall r :: r in rows ==> LineRow(r))
            && (forall k :: 0 <= k < |lines| && Trim(lines[k]) != "" ==> [Str(Trim(lines[k]))] in rows)
            && (exists idx :: Picks(idx, rows, lines, TextRow))
  {
    var lines := Split(text, '\n');
    var kept := NonBlankLines(lines);
    var rows := TextRows(text);
    NonBlankLinesSpec(lines);
    var idx :| Picks(idx, kept, lines, NonBlank);
    OneCellRowsPicks(idx, kept, lines);
    assert Picks(idx, rows, lines, TextRow);
    PickedRows(idx, rows, lines);
  }

  /** Rows picked by `TextRow` from lines without a line break are one-cell rows of
      non-blank trimmed lines, and every non-blank line gives one. */
  lemma PickedRows(idx: seq<nat>, rows: seq<seq<XCell>>, lines: seq<string>)
    requires Picks(idx, rows, lines, TextRow)
    requires forall k :: 0 <= k < |lines| ==> '\n' !in lines[k]
    ensures forall r :: r in rows ==> LineRow(r)
    ensures forall k :: 0 <= k < |lines| && Trim(lines[k]) != "" ==> [Str(Trim(lines[k]))] in rows
  {
    forall r | r in rows ensures LineRow(r) {
      var j :| 0 <= j < |rows| && rows[j] == r;
      var line := lines[idx[j]];
      assert TextRow(line) == Some(r);
      TrimNoChar(line, '\n');
    }
    forall k | 0 <= k < |lines| && Trim(lines[k]) != ""
      ensures [Str(Trim(lines[k]))] in rows
    {
      assert TextRow(lines[k]).Some?;
      var j :| 0 <= j < |idx| && idx[j] == k;
      assert TextRow(lines[idx[j]]) == Some(rows[j]);
    }
  }

  // ---------------------------------------------------------------------------
  // Markdown

  const NO_DATA := "No data available."
  const MARKDOWN_FOOTER := "*Generated by Market Research Intelligence Platform*"

  /** The seven lines before the blocks. */
  function MarkdownHeader(data: AnalysisData, now: string): seq<string> {
    [ "# " + OrElse(data.marketName, "Market") + " Analysis",
      "",
      "**Analysis Type:** " + data.analysisType + "  ",
      "**Generated:** " + OrElse(data.timestamp, now),
      "",
      "---",
      "" ]
  }

  /** Three lines per block: its heading, its text, a blank line. */
  function BlockLines(stripHtml: string -> string, bs: seq<Section>): seq<string> {
    if bs == [] then []
    else
      var s := bs[|bs| - 1];
      BlockLines(stripHtml, bs[..|bs| - 1]) + ["## " + s.title, stripHtml(OrElse(s.html, NO_DATA)), ""]
  }

  function MarkdownLines(data: AnalysisData, stripHtml: string -> string, now: string): seq<string> {
    MarkdownHeader(data, now) + BlockLines(stripHtml, Blocks(data)) + ["---", MARKDOWN_FOOTER]
  }

  /** The Markdown file's text. */
  function MarkdownDocument(data: AnalysisData, stripHtml: string -> string, now: string): string {
    Join(MarkdownLines(data, stripHtml, now), "\n")
  }

  /** `downloadAsMarkdown`, up to the join: the header lines, the pushes per block, the
      closing lines. */
  method DownloadAsMarkdownParts(data: AnalysisData, stripHtml: string -> string, now: string) returns (parts: seq<string>)
    ensures parts == MarkdownLines(data, stripHtml, now)
  {
    parts := MarkdownHeader(data, now);
    var blocks := Blocks(data);
    var i := 0;
    while i < |blocks|
      invariant 0 <= i <= |blocks|
      invariant parts == MarkdownHeader(data, now) + BlockLines(stripHtml, blocks[..i])
    {
      var s := blocks[i];
      assert blocks[..i + 1][..i] == blocks[..i];
      parts := parts + ["## " + s.title];
      parts := parts + [stripHtml(OrElse(s.html, NO_DATA))];
      parts := parts + [""];
      i := i + 1;
    }
    assert blocks[..i] == blocks;
    parts := parts + ["---"];
    parts := parts + [MARKDOWN_FOOTER];
  }

  lemma {:induction false} BlockLinesSpec(stripHtml: string -> string, bs: seq<Section>)
    ensures |BlockLines(stripHtml, bs)| == 3 * |bs|
    ensures forall i :: 0 <= i < |bs| ==>
              && BlockLines(stripHtml, bs)[3 * i] == "## " + bs[i].title
              && BlockLines(stripHtml, bs)[3 * i + 1] == stripHtml(OrElse(bs[i].html, NO_DATA))
              && BlockLines(stripHtml, bs)[3 * i + 2] == ""
  {
    if bs != [] {
      var n := |bs| - 1;
      BlockLinesSpec(stripHtml, bs[..n]);
      var init := BlockLines(stripHtml, bs[..n]);
      var r := BlockLines(stripHtml, bs);
      assert r == init + ["## " + bs[n].title, stripHtml(OrElse(bs[n].html, NO_DATA)), ""];
      forall i | 0 <= i < n
        ensures && r[3 * i] == "## " + bs[i].title
                && r[3 * i + 1] == stripHtml(OrElse(bs[i].html, NO_DATA))
                && r[3 * i + 2] == ""
      {
        assert bs[i] == bs[..n][i];
      }
    }
  }

  /** What `downloadAsMarkdown` promises: the title line first, one `## title` heading per
      block in block order, each followed by the block's text (or the no-data note) and a
      blank line, and the closing rule and signature last. */
  lemma MarkdownSpec(data: AnalysisData, stripHtml: string -> string, now: string)
    ensures var lines := MarkdownLines(data, stripHtml, now);
            var blocks := Blocks(data);
            && |lines| == 9 + 3 * |blocks|
            && lines[0] == "# " + OrElse(data.marketName, "Market") + " Analysis"
            && lines[5] == "---"
            && (forall i :: 0 <= i < |blocks| ==>
                  && lines[7 + 3 * i] == "## " + blocks[i].title
                  && lines[8 + 3 * i] == stripHtml(OrElse(blocks[i].html, NO_DATA)))
            && lines[|lines| - 2] == "---"
            && lines[|lines| - 1] == MARKDOWN_FOOTER
  {
    var blocks := Blocks(data);
    var head, body := MarkdownHeader(data, now), BlockLines(stripHtml, blocks);
    BlockLinesSpec(stripHtml, blocks);
    var lines := MarkdownLines(data, stripHtml, now);
    assert lines == head + body + ["---", MARKDOWN_FOOTER];
    forall i | 0 <= i < |blocks|
      ensures && lines[7 + 3 * i] == "## " + blocks[i].title
              && lines[8 + 3 * i] == stripHtml(OrElse(blocks[i].html, NO_DATA))
    {
      assert lines[7 + 3 * i] == body[3 * i];
      assert lines[8 + 3 * i] == body[3 * i + 1];
    }
  }
}
