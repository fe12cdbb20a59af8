/**
 * The extraction half of the exporters (frontend/src/utils/downloadUtils.js, 9-71): inline
 * SVG drawings are cut out of the HTML, then the tables and the remaining text blocks are
 * read off the parsed element tree.
 *
 * The browser's HTML parser is not modelled: the extraction works on the tree it would
 * build, given as `seq<Node>`, the children of the scratch container.
 */
module ExportExtract {
  import opened JsText

  // ---------------------------------------------------------------------------
  // stripSvgs: `html.replace(/<svg[\s\S]*?<\/svg>/gi, '')`
  //
  // A match starts at a `<svg` in any case and, the `*?` being lazy, ends with the nearest
  // `</svg>` after it (any character, line breaks included, may sit between). Where no
  // `</svg>` follows, nothing matches at that position and the scan moves on by one
  // character; the global replace then resumes after each removed span.

  /** The nearest `</svg>`, in any case, starting at or after `j`. */
  function CloseFrom(s: string, j: nat): (r: Option<nat>)
    ensures r.Some? ==> j <= r.value && AtCi(s, r.value, "</svg>")
    ensures r.Some? ==> forall k :: j <= k < r.value ==> !AtCi(s, k, "</svg>")
    ensures r.None? ==> forall k :: j <= k ==> !AtCi(s, k, "</svg>")
    decreases |s| - j
  {
    if j + 6 > |s| then None
    else if AtCi(s, j, "</svg>") then Some(j)
    else CloseFrom(s, j + 1)
  }

  /** The end of the span matched at `i`, if one is. */
  function SvgEnd(s: string, i: nat): (r: Option<nat>)
    ensures r.Some? ==> i + 10 <= r.value <= |s|
  {
    if AtCi(s, i, "<svg") then
      match CloseFrom(s, i + 4)
      case Some(c) => Some(c + 6)
      case None => None
    else None
  }

  datatype SvgPiece = Kept(c: char) | Span(text: string)

  /** The global replace as a scan from `i`: removed spans and kept characters, in order. */
  function SvgScan(s: string, i: nat): seq<SvgPiece>
    decreases |s| - i
  {
    if i >= |s| then []
    else match SvgEnd(s, i)
      case Some(e) => [Span(s[i..e])] + SvgScan(s, e)
      case None => [Kept(s[i])] + SvgScan(s, i + 1)
  }

  /** The text that stays. */
  function KeptText(ps: seq<SvgPiece>): string {
    if ps == [] then []
    else (match ps[0] case Kept(c) => [c] case Span(_) => []) + KeptText(ps[1..])
  }

  /** Everything, spans included. */
  function Whole(ps: seq<SvgPiece>): string {
    if ps == [] then []
    else (match ps[0] case Kept(c) => [c] case Span(t) => t) + Whole(ps[1..])
  }

  /** `stripSvgs`; a missing argument defaults to the empty string. */
  function StripSvgs(html: string): string {
    KeptText(SvgScan(html, 0))
  }

  /** A removed span: `<svg` to the first `</svg>` after it, in any case. */
  predicate ShortestSvg(t: string) {
    && |t| >= 10
    && AtCi(t, 0, "<svg")
    && AtCi(t, |t| - 6, "</svg>")
    && forall k :: 4 <= k < |t| - 6 ==> !AtCi(t, k, "</svg>")
  }

  /** A case-insensitive occurrence inside a slice is one in the whole string. */
  lemma AtCiSlice(s: string, a: nat, b: nat, k: nat, pat: string)
    requires a <= b <= |s| && k + |pat| <= b - a
    ensures AtCi(s[a..b], k, pat) <==> AtCi(s, a + k, pat)
  {
  }

  lemma {:induction false} SvgScanWhole(s: string, i: nat)
    requires i <= |s|
    ensures Whole(SvgScan(s, i)) == s[i..]
    decreases |s| - i
  {
    if i < |s| {
      match SvgEnd(s, i)
      case Some(e) =>
        SvgScanWhole(s, e);
        WholeCons(Span(s[i..e]), SvgScan(s, e));
        SliceSplit(s, i, e);
      case None =>
        SvgScanWhole(s, i + 1);
        WholeCons(Kept(s[i]), SvgScan(s, i + 1));
        SliceSplit(s, i, i + 1);
        assert s[i..i + 1] == [s[i]];
    }
  }

  lemma WholeCons(p: SvgPiece, ps: seq<SvgPiece>)
    ensures Whole([p] + ps) == (match p case Kept(c) => [c] case Span(t) => t) + Whole(ps)
  {
    assert ([p] + ps)[1..] == ps;
  }

  lemma {:induction false} KeptNoLonger(ps: seq<SvgPiece>)
    ensures |KeptText(ps)| <= |Whole(ps)|
  {
    if ps != [] {
      KeptNoLonger(ps[1..]);
    }
  }

  lemma {:induction false} SvgScanSpans(s: string, i: nat)
    ensures forall p :: p in SvgScan(s, i) && p.Span? ==> ShortestSvg(p.text)
    decreases |s| - i
  {
    if i < |s| {
      match SvgEnd(s, i)
      case Some(e) =>
        SvgScanSpans(s, e);
        var t := s[i..e];
        AtCiSlice(s, i, e, 0, "<svg");
        AtCiSlice(s, i, e, |t| - 6, "</svg>");
        forall k | 4 <= k < |t| - 6 ensures !AtCi(t, k, "</svg>") {
          AtCiSlice(s, i, e, k, "</svg>");
        }
        assert ShortestSvg(t);
      case None =>
        SvgScanSpans(s, i + 1);
    }
  }

  lemma {:induction false} SvgScanNoMatch(s: string, i: nat)
    requires i <= |s|
    requires forall k :: SvgEnd(s, k) == None
    ensures KeptText(SvgScan(s, i)) == s[i..]
    decreases |s| - i
  {
    if i < |s| {
      assert SvgEnd(s, i) == None;
      SvgScanNoMatch(s, i + 1);
      assert s[i..] == [s[i]] + s[i + 1..];
    }
  }

  /** A span that matches anywhere at or after the scan position is removed (the scan
      reaches it or jumps over it inside an earlier span), so the text gets shorter. */
  lemma {:induction false} SvgScanShrinks(s: string, i: nat, k: nat)
    requires i <= k && SvgEnd(s, k).Some?
    ensures |KeptText(SvgScan(s, i))| < |s| - i
    decreases k - i
  {
    match SvgEnd(s, i)
    case Some(e) =>
      SvgScanWhole(s, e);
      KeptNoLonger(SvgScan(s, e));
    case None =>
      SvgScanShrinks(s, i + 1, k);
  }

  /** What `stripSvgs` promises: what stays and what goes make up the input in order; each
      removed span runs from a `<svg` to the nearest `</svg>`; the result is never longer;
      it is the input itself exactly when no span matches anywhere, in particular when the
      input holds no `<svg`. */
  lemma StripSvgsSpec(html: string)
    ensures Whole(SvgScan(html, 0)) == html
    ensures forall p :: p in SvgScan(html, 0) && p.Span? ==> ShortestSvg(p.text)
    ensures |StripSvgs(html)| <= |html|
    ensures StripSvgs(html) == html <==> forall k :: SvgEnd(html, k) == None
    ensures (forall k :: !AtCi(html, k, "<svg")) ==> StripSvgs(html) == html
  {
    SvgScanWhole(html, 0);
    SvgScanSpans(html, 0);
    KeptNoLonger(SvgScan(html, 0));
    if forall k :: SvgEnd(html, k) == None {
      SvgScanNoMatch(html, 0);
    } else {
      var k :| SvgEnd(html, k) != None;
      SvgScanShrinks(html, 0, k);
    }
  }

  // ---------------------------------------------------------------------------
  // The element tree

  /** A node of the parsed HTML: text, or an element with its tag name as the DOM reports it
      (upper case for HTML elements), its `href` attribute if it carries one, and its
      children. */
  datatype Node = Text(value: string) | Element(tag: string, href: Option<string>, children: seq<Node>)

  /** `textContent` of a list of nodes: all their text, in document order. */
  function TextOf(ns: seq<Node>): string
    decreases ns
  {
    if ns == [] then []
    else (match ns[0] case Text(v) => v case Element(_, _, cs) => TextOf(cs)) + TextOf(ns[1..])
  }

  /** The element children (`children` skips text nodes). */
  function ElementChildren(ns: seq<Node>): (r: seq<Node>)
    ensures forall k :: 0 <= k < |r| ==> r[k].Element?
  {
    if ns == [] then []
    else (if ns[0].Element? then [ns[0]] else []) + ElementChildren(ns[1..])
  }

  /** Every element at any depth, in document order: what `querySelectorAll` and a tree
      walker over elements visit. */
  function Elements(ns: seq<Node>): (r: seq<Node>)
    ensures forall k :: 0 <= k < |r| ==> r[k].Element?
    decreases ns
  {
    if ns == [] then []
    else (match ns[0] case Text(_) => [] case Element(_, _, cs) => [ns[0]] + Elements(cs)) + Elements(ns[1..])
  }

  function WithTag(es: seq<Node>, tag: string): (r: seq<Node>)
    ensures |r| <= |es|
    ensures forall k :: 0 <= k < |r| ==> r[k].Element? && r[k].tag == tag
  {
    if es == [] then []
    else (if es[0].Element? && es[0].tag == tag then [es[0]] else []) + WithTag(es[1..], tag)
  }

  /** The tag name contains `pat`, in any case (`/TH/i.test(tagName)`). */
  predicate ContainsCi(t: string, pat: string) {
    exists k :: 0 <= k < |t| && AtCi(t, k, pat)
  }

  /** `/^(P|H1|H2|H3|BLOCKQUOTE)$/i.test(tagName)`. */
  predicate IsBlockTag(t: string) {
    || (|t| == 1 && AtCi(t, 0, "p"))
    || (|t| == 2 && (AtCi(t, 0, "h1") || AtCi(t, 0, "h2") || AtCi(t, 0, "h3")))
    || (|t| == 10 && AtCi(t, 0, "blockquote"))
  }

  // ---------------------------------------------------------------------------
  // Rows of one table

  /** An element with whether a `thead` or a `tbody` encloses it. The selectors
      `thead tr` and `tbody tr` look at every ancestor of a row, those above the table
      included, so a table carries the enclosing elements of its own place in the tree. */
  datatype Placed = Placed(node: Node, inHead: bool, inBody: bool)

  /** The elements with the tag at any depth, in document order, with their enclosing
      `thead` and `tbody`; `inHead` and `inBody` tell what encloses `ns`. */
  function PlacedTags(ns: seq<Node>, tag: string, inHead: bool, inBody: bool): seq<Placed>
    decreases ns
  {
    if ns == [] then []
    else
      (match ns[0]
       case Text(_) => []
       case Element(t, _, cs) =>
         (if t == tag then [Placed(ns[0], inHead, inBody)] else [])
         + PlacedTags(cs, tag, inHead || t == "THEAD", inBody || t == "TBODY"))
      + PlacedTags(ns[1..], tag, inHead, inBody)
  }

  /** The rows of a placed table: its `tr` elements at any depth. */
  function Trs(table: Placed): seq<Placed> {
    if table.node.Element? then PlacedTags(table.node.children, "TR", table.inHead, table.inBody) else []
  }

  /** The three selectors the extraction uses: `thead tr`, `tbody tr`, `tr:not(thead tr)`. */
  datatype Scope = InHead | InBody | NotInHead

  predicate InScope(tr: Placed, scope: Scope) {
    match scope
    case InHead => tr.inHead
    case InBody => tr.inBody
    case NotInHead => !tr.inHead
  }

  function Select(trs: seq<Placed>, scope: Scope): (r: seq<Node>)
    ensures |r| <= |trs|
  {
    if trs == [] then []
    else (if InScope(trs[0], scope) then [trs[0].node] else []) + Select(trs[1..], scope)
  }

  /** `table.querySelector('thead tr') || table.querySelector('tr')`. */
  function HeadRow(trs: seq<Placed>): Option<Node> {
    var heads := Select(trs, InHead);
    if heads != [] then Some(heads[0])
    else if trs != [] then Some(trs[0].node)
    else None
  }

  /** The header texts: each element child of the header row, its text trimmed. */
  function HeadCells(row: Option<Node>): seq<string> {
    match row
    case None => []
    case Some(r) =>
      var cs := if r.Element? then ElementChildren(r.children) else [];
      seq(|cs|, k requires 0 <= k < |cs| => Trim(TextOf(cs[k].children)))
  }

  /** `tbody tr` rows if there are any, otherwise every row outside a `thead`. */
  function BodyRowNodes(trs: seq<Placed>): seq<Node> {
    var b := Select(trs, InBody);
    if b != [] then b else Select(trs, NotInHead)
  }

  /** Every element child of the row has a tag name containing `TH`. */
  predicate IsHeaderRow(tr: Node) {
    tr.Element? &&
    var cs := ElementChildren(tr.children);
    forall k :: 0 <= k < |cs| ==> ContainsCi(cs[k].tag, "th")
  }

  // ---------------------------------------------------------------------------
  // Cells

  /** An exported cell: its collapsed text and the link laid over it. */
  datatype Cell = Cell(text: string, href: Option<string>)

  /** The `href` values of the `a[href]` elements among the nodes, in document order. */
  function Hrefs(ns: seq<Node>): seq<string>
    decreases ns
  {
    if ns == [] then []
    else
      (match ns[0]
       case Text(_) => []
       case Element(t, h, cs) => (if t == "A" && h.Some? then [h.value] else []) + Hrefs(cs))
      + Hrefs(ns[1..])
  }

  /** `.filter(Boolean)` then the first entry, if any. */
  function FirstNonEmpty(hs: seq<string>): (r: Option<string>)
    ensures r.Some? ==> r.value != ""
  {
    if hs == [] then None
    else if hs[0] != "" then Some(hs[0])
    else FirstNonEmpty(hs[1..])
  }

  function CellOf(td: Node): Cell
    requires td.Element?
  {
    Cell(CollapseTrim(TextOf(td.children)), FirstNonEmpty(Hrefs(td.children)))
  }

  /** All the row's cells, filled or not. */
  function AllCols(rows: seq<Node>): seq<seq<Cell>> {
    seq(|rows|, k requires 0 <= k < |rows| => Cols(rows[k]))
  }

  /** One cell per element child of the row. */
  function Cols(tr: Node): seq<Cell> {
    var cs := if tr.Element? then ElementChildren(tr.children) else [];
    seq(|cs|, k requires 0 <= k < |cs| => CellOf(cs[k]))
  }

  /** The cells of a row that has some. */
  function FilledCols(tr: Node): Option<seq<Cell>> {
    var c := Cols(tr);
    if c == [] then None else Some(c)
  }

  /** The rows that have cells, in order. */
  function FilledRows(rows: seq<Node>): seq<seq<Cell>> {
    Present(rows, FilledCols)
  }

  /** The body: the first row is skipped when there is a header and that row is all `th`. */
  function BodyRows(rows: seq<Node>, headed: bool): seq<seq<Cell>> {
    if rows != [] && headed && IsHeaderRow(rows[0]) then FilledRows(rows[1..]) else FilledRows(rows)
  }

  datatype Table = Table(head: seq<string>, body: seq<seq<Cell>>)

  /** One `<table>` element; nothing when it has neither header nor body. */
  function TableOf(t: Placed): Option<Table> {
    var trs := Trs(t);
    var head := HeadCells(HeadRow(trs));
    var body := BodyRows(BodyRowNodes(trs), head != []);
    if head != [] || body != [] then Some(Table(head, body)) else None
  }

  /** The tables of the table elements that have a header or a body, in order. */
  function TablesOf(ts: seq<Placed>): seq<Table> {
    Present(ts, TableOf)
  }

  // ---------------------------------------------------------------------------
  // Text blocks

  /** The tree once every table has been removed. */
  function RemoveTables(ns: seq<Node>): seq<Node>
    decreases ns
  {
    if ns == [] then []
    else
      (match ns[0]
       case Text(_) => [ns[0]]
       case Element(t, h, cs) => if t == "TABLE" then [] else [Element(t, h, RemoveTables(cs))])
      + RemoveTables(ns[1..])
  }

  /** The non-empty collapsed texts of the paragraph, heading and quote elements walked. */
  function BlocksOf(walk: seq<Node>): seq<string> {
    Present(walk, BlockOf)
  }

  /** The block one walked element contributes, if any. */
  function BlockOf(e: Node): Option<string> {
    if e.Element? && IsBlockTag(e.tag) then
      var t := CollapseTrim(TextOf(e.children));
      if t != "" then Some(t) else None
    else None
  }

  /** The blocks, or the whole remaining text as one block when there are none. */
  function TextBlocks(rest: seq<Node>): seq<string> {
    WithFallback(BlocksOf(Elements(rest)), CollapseTrim(TextOf(rest)))
  }

  function WithFallback(blocks: seq<string>, whole: string): seq<string> {
    if blocks != [] then blocks else if whole != "" then [whole] else []
  }

  datatype Extracted = Extracted(tables: seq<Table>, textBlocks: seq<string>)

  /** `extractTablesFromHtml` on the parsed tree. */
  function Extract(root: seq<Node>): Extracted {
    Extracted(TablesOf(PlacedTags(root, "TABLE", false, false)), TextBlocks(RemoveTables(root)))
  }

  // ---------------------------------------------------------------------------
  // The extraction as the source performs it

  /** The `forEach` over the body rows. */
  method ReadBodyRows(rowNodes: seq<Node>, headCells: seq<string>) returns (bodyRows: seq<seq<Cell>>)
    ensures bodyRows == BodyRows(rowNodes, headCells != [])
  {
    bodyRows := [];
    var idx := 0;
    while idx < |rowNodes|
      invariant 0 <= idx <= |rowNodes|
      invariant bodyRows == BodyRows(rowNodes[..idx], headCells != [])
    {
      var tr := rowNodes[idx];
      var rows := rowNodes[..idx + 1];
      assert rows[..idx] == rowNodes[..idx] && rows[idx] == tr && rows[0] == rowNodes[0];
      if idx == 0 && headCells != [] && IsHeaderRow(tr) {
        assert rows[1..] == [];
      } else {
        var cols := Cols(tr);
        if idx > 0 && headCells != [] && IsHeaderRow(rowNodes[0]) {
          assert rows[1..][..idx - 1] == rowNodes[..idx][1..];
        }
        if cols != [] {
          bodyRows := bodyRows + [cols];
        }
      }
      idx := idx + 1;
    }
    assert rowNodes[..idx] == rowNodes;
  }

  /** One table element. */
  method ReadTable(table: Placed) returns (r: Option<Table>)
    ensures r == TableOf(table)
  {
    var trs := Trs(table);
    var headCells := HeadCells(HeadRow(trs));
    var bodyRows := ReadBodyRows(BodyRowNodes(trs), headCells);
    if headCells != [] || bodyRows != [] {
      r := Some(Table(headCells, bodyRows));
    } else {
      r := None;
    }
  }

  lemma TablesOfStep(ts: seq<Placed>, i: nat)
    requires i < |ts|
    ensures TablesOf(ts[..i + 1]) == TablesOf(ts[..i]) + (match TableOf(ts[i]) case Some(t) => [t] case None => [])
  {
    assert ts[..i + 1][..i] == ts[..i];
  }

  lemma BlocksOfStep(walk: seq<Node>, j: nat)
    requires j < |walk|
    ensures BlocksOf(walk[..j + 1]) == BlocksOf(walk[..j]) + (match BlockOf(walk[j]) case Some(t) => [t] case None => [])
  {
    assert walk[..j + 1][..j] == walk[..j];
  }

  /** The `forEach` over the table elements. */
  method ReadTables(tableNodes: seq<Placed>) returns (tables: seq<Table>)
    ensures tables == TablesOf(tableNodes)
  {
    tables := [];
    var i := 0;
    while i < |tableNodes|
      invariant 0 <= i <= |tableNodes|
      invariant tables == TablesOf(tableNodes[..i])
    {
      var t := ReadTable(tableNodes[i]);
      TablesOfStep(tableNodes, i);
      if t.Some? {
        tables := tables + [t.value];
      }
      i := i + 1;
    }
    assert tableNodes[..i] == tableNodes;
  }

  /** The tree walk over what is left. */
  method WalkBlocks(walk: seq<Node>) returns (textBlocks: seq<string>)
    ensures textBlocks == BlocksOf(walk)
  {
    textBlocks := [];
    var j := 0;
    while j < |walk|
      invariant 0 <= j <= |walk|
      invariant textBlocks == BlocksOf(walk[..j])
    {
      BlocksOfStep(walk, j);
      var node := walk[j];
      if node.Element? && IsBlockTag(node.tag) {
        var t := CollapseTrim(TextOf(node.children));
        if t != "" {
          textBlocks := textBlocks + [t];
        }
      }
      j := j + 1;
    }
    assert walk[..j] == walk;
  }

  /** The walk, then the fallback to the whole remaining text. */
  method ReadTextBlocks(rest: seq<Node>) returns (textBlocks: seq<string>)
    ensures textBlocks == TextBlocks(rest)
  {
    var blocks := WalkBlocks(Elements(rest));
    var whole := CollapseTrim(TextOf(rest));
    textBlocks := blocks;
    if blocks == [] && whole != "" {
      textBlocks := [whole];
    }
  }

  /** `extractTablesFromHtml`: the tables in document order, then the text blocks of what
      is left once they are removed. */
  method ExtractTablesFromHtml(root: seq<Node>) returns (tables: seq<Table>, textBlocks: seq<string>)
    ensures Extracted(tables, textBlocks) == Extract(root)
  {
    tables := ReadTables(PlacedTags(root, "TABLE", false, false));
    textBlocks := ReadTextBlocks(RemoveTables(root));
  }

  // ---------------------------------------------------------------------------
  // What the extraction promises

  /** Text as `.replace(/\s+/g, ' ').trim()` leaves it. */
  predicate Collapsed(t: string) {
    SingleSpaced(t) && (t == [] || (!IsSpace(t[0]) && !IsSpace(t[|t| - 1])))
  }

  predicate GoodCell(c: Cell) {
    Collapsed(c.text) && (c.href.Some? ==> c.href.value != "")
  }

  predicate GoodRow(row: seq<Cell>) {
    row != [] && forall c :: c in row ==> GoodCell(c)
  }

  /** An emitted table: something in it, and every body row filled with tidy cells. */
  predicate GoodTable(t: Table) {
    (t.head != [] || t.body != []) && forall row :: row in t.body ==> GoodRow(row)
  }

  /** The link of a cell is the first non-empty `href`; there is none exactly when every
      `href` is empty. */
  lemma {:induction false} FirstNonEmptySpec(hs: seq<string>)
    ensures FirstNonEmpty(hs).None? <==> forall k :: 0 <= k < |hs| ==> hs[k] == ""
    ensures FirstNonEmpty(hs).Some? ==>
              exists k :: 0 <= k < |hs| && hs[k] == FirstNonEmpty(hs).value && forall j :: 0 <= j < k ==> hs[j] == ""
  {
    if hs != [] && hs[0] == "" {
      FirstNonEmptySpec(hs[1..]);
      assert forall k :: 1 <= k < |hs| ==> hs[k] == hs[1..][k - 1];
      if FirstNonEmpty(hs).Some? {
        var k :| 0 <= k < |hs[1..]| && hs[1..][k] == FirstNonEmpty(hs).value && forall j :: 0 <= j < k ==> hs[1..][j] == "";
        assert hs[k + 1] == FirstNonEmpty(hs).value;
        assert forall j :: 0 <= j < k + 1 ==> hs[j] == "";
      }
    } else if hs != [] {
      assert hs[0] == FirstNonEmpty(hs).value;
    }
  }

  lemma ColsGood(tr: Node)
    ensures forall c :: c in Cols(tr) ==> GoodCell(c)
  {
    var cs := if tr.Element? then ElementChildren(tr.children) else [];
    forall k | 0 <= k < |cs| ensures GoodCell(Cols(tr)[k]) {
      var c := Cols(tr)[k];
      assert c == CellOf(cs[k]);
      CollapseTrimSpec(TextOf(cs[k].children));
      assert c.text == CollapseTrim(TextOf(cs[k].children));
    }
  }

  /** The last row of the table opens up `FilledRows`. */
  lemma FilledRowsLast(rows: seq<Node>)
    requires rows != []
    ensures var n := |rows| - 1;
            FilledRows(rows) == FilledRows(rows[..n]) + (if Cols(rows[n]) == [] then [] else [Cols(rows[n])])
  {
  }

  /** Every kept row is filled with tidy cells. */
  lemma {:induction false} FilledRowsGood(rows: seq<Node>)
    ensures forall row :: row in FilledRows(rows) ==> GoodRow(row)
  {
    if rows != [] {
      var n := |rows| - 1;
      FilledRowsGood(rows[..n]);
      ColsGood(rows[n]);
      FilledRowsLast(rows);
    }
  }

  /** The kept rows are, in order, among the rows' cells. */
  lemma {:induction false} FilledRowsOrdered(rows: seq<Node>)
    ensures IsSubsequence(FilledRows(rows), AllCols(rows))
  {
    if rows == [] {
      SubsequenceEmpty(AllCols(rows));
    } else {
      var n := |rows| - 1;
      var init := rows[..n];
      FilledRowsOrdered(init);
      FilledRowsLast(rows);
      assert AllCols(rows) == AllCols(init) + [Cols(rows[n])];
      SubsequenceSnoc(FilledRows(init), AllCols(init), Cols(rows[n]));
      if Cols(rows[n]) == [] {
        assert FilledRows(rows) == FilledRows(init) + [];
        assert FilledRows(init) + [] == FilledRows(init);
      } else {
        assert FilledRows(rows) == FilledRows(init) + [Cols(rows[n])];
      }
    }
  }

  /** Every row with cells is kept. */
  lemma {:induction false} FilledRowsKept(rows: seq<Node>)
    ensures forall k :: 0 <= k < |rows| && Cols(rows[k]) != [] ==> Cols(rows[k]) in FilledRows(rows)
  {
    if rows != [] {
      var n := |rows| - 1;
      var init := rows[..n];
      FilledRowsKept(init);
      FilledRowsLast(rows);
      forall k | 0 <= k < |rows| && Cols(rows[k]) != [] ensures Cols(rows[k]) in FilledRows(rows) {
        if k < n {
          assert rows[k] == init[k];
        }
      }
    }
  }

  /** The kept rows are, in order and each once, exactly the cells of the rows that have
      cells. */
  lemma FilledRowsSpec(rows: seq<Node>)
    ensures forall row :: row in FilledRows(rows) ==> GoodRow(row)
    ensures IsSubsequence(FilledRows(rows), AllCols(rows))
    ensures forall k :: 0 <= k < |rows| && Cols(rows[k]) != [] ==> Cols(rows[k]) in FilledRows(rows)
    ensures exists idx :: Picks(idx, FilledRows(rows), rows, FilledCols)
  {
    FilledRowsGood(rows);
    FilledRowsOrdered(rows);
    FilledRowsKept(rows);
    PresentPicks(rows, FilledCols);
  }

  /** The body keeps, in order, the filled rows, leaving out only a first row of `th`
      cells under a non-empty header. */
  lemma BodyRowsSpec(rows: seq<Node>, headed: bool)
    ensures forall row :: row in BodyRows(rows, headed) ==> GoodRow(row)
    ensures IsSubsequence(BodyRows(rows, headed), AllCols(rows))
    ensures forall k :: 0 <= k < |rows| && Cols(rows[k]) != [] && (k > 0 || !headed || !IsHeaderRow(rows[0])) ==>
              Cols(rows[k]) in BodyRows(rows, headed)
  {
    if rows != [] && headed && IsHeaderRow(rows[0]) {
      SkippedHeaderOrdered(rows);
      SkippedHeaderKept(rows);
      FilledRowsGood(rows[1..]);
    } else {
      FilledRowsSpec(rows);
    }
  }

  /** Leaving the first row out keeps the rest in order among the rows' cells. */
  lemma SkippedHeaderOrdered(rows: seq<Node>)
    requires rows != []
    ensures IsSubsequence(FilledRows(rows[1..]), AllCols(rows))
  {
    var tail := rows[1..];
    FilledRowsOrdered(tail);
    assert AllCols(rows) == [Cols(rows[0])] + AllCols(tail);
    SubsequenceCons(FilledRows(tail), AllCols(tail), Cols(rows[0]));
  }

  /** Leaving the first row out keeps every later row with cells. */
  lemma SkippedHeaderKept(rows: seq<Node>)
    requires rows != []
    ensures forall k :: 0 < k < |rows| && Cols(rows[k]) != [] ==> Cols(rows[k]) in FilledRows(rows[1..])
  {
    var tail := rows[1..];
    FilledRowsKept(tail);
    forall k | 0 < k < |rows| && Cols(rows[k]) != [] ensures Cols(rows[k]) in FilledRows(tail) {
      assert rows[k] == tail[k - 1];
    }
  }

  /** A selector keeps, in order, exactly the rows in its scope. */
  lemma {:induction false} SelectSpec(trs: seq<Placed>, scope: Scope)
    ensures forall k :: 0 <= k < |trs| && InScope(trs[k], scope) ==> trs[k].node in Select(trs, scope)
    ensures forall n :: n in Select(trs, scope) ==> exists k :: 0 <= k < |trs| && InScope(trs[k], scope) && trs[k].node == n
  {
    if trs != [] {
      SelectSpec(trs[1..], scope);
      forall k | 1 <= k < |trs| ensures trs[k] == trs[1..][k - 1] { }
      forall n | n in Select(trs, scope)
        ensures exists k :: 0 <= k < |trs| && InScope(trs[k], scope) && trs[k].node == n
      {
        if n in Select(trs[1..], scope) {
          var k :| 0 <= k < |trs[1..]| && InScope(trs[1..][k], scope) && trs[1..][k].node == n;
          assert trs[k + 1] == trs[1..][k];
        } else {
          assert InScope(trs[0], scope) && trs[0].node == n;
        }
      }
    }
  }

  lemma TableOfGood(t: Placed)
    ensures TableOf(t).Some? ==> GoodTable(TableOf(t).value)
  {
    var trs := Trs(t);
    var head := HeadCells(HeadRow(trs));
    BodyRowsSpec(BodyRowNodes(trs), head != []);
  }

  /** The emitted tables are, in order and each once, those of the table elements that have
      a header or a body, each with filled rows of tidy cells. */
  lemma TablesOfSpec(ts: seq<Placed>)
    ensures |TablesOf(ts)| <= |ts|
    ensures forall t :: t in TablesOf(ts) ==> GoodTable(t)
    ensures forall k :: 0 <= k < |ts| && TableOf(ts[k]).Some? ==> TableOf(ts[k]).value in TablesOf(ts)
    ensures exists idx :: Picks(idx, TablesOf(ts), ts, TableOf)
  {
    PresentPicks(ts, TableOf);
    PresentMembers(ts, TableOf);
    forall t | t in TablesOf(ts) ensures GoodTable(t) {
      var k :| 0 <= k < |ts| && TableOf(ts[k]) == Some(t);
      TableOfGood(ts[k]);
    }
  }

  lemma {:induction false} ElementsConcat(a: seq<Node>, b: seq<Node>)
    ensures Elements(a + b) == Elements(a) + Elements(b)
  {
    if a == [] {
      assert a + b == b;
    } else {
      ElementsConcat(a[1..], b);
      assert (a + b)[0] == a[0] && (a + b)[1..] == a[1..] + b;
      var x := match a[0] case Text(_) => [] case Element(_, _, cs) => [a[0]] + Elements(cs);
      assert Elements(a + b) == x + Elements(a[1..] + b);
      assert Elements(a) == x + Elements(a[1..]);
      AppendAssoc(x, Elements(a[1..]), Elements(b));
    }
  }

  lemma {:induction false} WithTagConcat(a: seq<Node>, b: seq<Node>, tag: string)
    ensures WithTag(a + b, tag) == WithTag(a, tag) + WithTag(b, tag)
  {
    if a == [] {
      assert a + b == b;
    } else {
      WithTagConcat(a[1..], b, tag);
      assert (a + b)[0] == a[0] && (a + b)[1..] == a[1..] + b;
      var x := if a[0].Element? && a[0].tag == tag then [a[0]] else [];
      assert WithTag(a + b, tag) == x + WithTag(a[1..] + b, tag);
      AppendAssoc(x, WithTag(a[1..], tag), WithTag(b, tag));
    }
  }

  /** Splits the element list of a non-empty node list at its first node. */
  lemma ElementsCons(ns: seq<Node>)
    requires ns != []
    ensures Elements(ns) == Elements([ns[0]]) + Elements(ns[1..])
    ensures ns[0].Element? ==> Elements([ns[0]]) == [ns[0]] + Elements(ns[0].children)
  {
    ElementsConcat([ns[0]], ns[1..]);
    assert ns == [ns[0]] + ns[1..];
    assert [ns[0]][1..] == [];
  }

  /** No table is left once the tables are removed. */
  lemma {:induction false} RemoveTablesLeavesNone(ns: seq<Node>)
    ensures WithTag(Elements(RemoveTables(ns)), "TABLE") == []
    decreases ns
  {
    if ns != [] {
      RemoveTablesLeavesNone(ns[1..]);
      var rest := RemoveTables(ns[1..]);
      match ns[0]
      case Text(_) =>
        ElementsCons([ns[0]] + rest);
        assert ([ns[0]] + rest)[1..] == rest;
        assert Elements([ns[0]]) == [];
        WithTagConcat(Elements([ns[0]]), Elements(rest), "TABLE");
      case Element(t, h, cs) =>
        if t != "TABLE" {
          RemoveTablesLeavesNone(cs);
          var x := Element(t, h, RemoveTables(cs));
          ElementsCons([x] + rest);
          assert ([x] + rest)[0] == x && ([x] + rest)[1..] == rest;
          WithTagConcat([x] + Elements(RemoveTables(cs)), Elements(rest), "TABLE");
          WithTagConcat([x], Elements(RemoveTables(cs)), "TABLE");
        } else {
          assert RemoveTables(ns) == rest;
        }
    }
  }

  /** A tree without tables is left as it is. */
  lemma {:induction false} RemoveTablesNoTable(ns: seq<Node>)
    requires WithTag(Elements(ns), "TABLE") == []
    ensures RemoveTables(ns) == ns
    decreases ns
  {
    if ns != [] {
      ElementsCons(ns);
      WithTagConcat(Elements([ns[0]]), Elements(ns[1..]), "TABLE");
      RemoveTablesNoTable(ns[1..]);
      match ns[0]
      case Text(_) =>
        assert ns == [ns[0]] + ns[1..];
      case Element(t, h, cs) =>
        WithTagConcat([ns[0]], Elements(cs), "TABLE");
        RemoveTablesNoTable(cs);
        assert ns == [ns[0]] + ns[1..];
    }
  }

  /** The text blocks are, in order and each once, the texts of the walked block elements
      whose collapsed text is not empty; each is collapsed. */
  lemma BlocksOfSpec(walk: seq<Node>)
    ensures |BlocksOf(walk)| <= |walk|
    ensures forall b :: b in BlocksOf(walk) ==> b != "" && Collapsed(b)
    ensures forall b :: b in BlocksOf(walk) ==>
              exists k :: 0 <= k < |walk| && walk[k].Element? && IsBlockTag(walk[k].tag) && b == CollapseTrim(TextOf(walk[k].children))
    ensures forall k :: 0 <= k < |walk| && walk[k].Element? && IsBlockTag(walk[k].tag) && CollapseTrim(TextOf(walk[k].children)) != "" ==>
              CollapseTrim(TextOf(walk[k].children)) in BlocksOf(walk)
    ensures exists idx :: Picks(idx, BlocksOf(walk), walk, BlockOf)
  {
    PresentPicks(walk, BlockOf);
    PresentMembers(walk, BlockOf);
    forall b | b in BlocksOf(walk)
      ensures b != "" && Collapsed(b)
      ensures exists k :: 0 <= k < |walk| && walk[k].Element? && IsBlockTag(walk[k].tag) && b == CollapseTrim(TextOf(walk[k].children))
    {
      var k :| 0 <= k < |walk| && BlockOf(walk[k]) == Some(b);
      BlockOfSpec(walk[k]);
    }
    forall k | 0 <= k < |walk| && walk[k].Element? && IsBlockTag(walk[k].tag) && CollapseTrim(TextOf(walk[k].children)) != ""
      ensures CollapseTrim(TextOf(walk[k].children)) in BlocksOf(walk)
    {
      BlockOfSpec(walk[k]);
    }
  }

  /** A walked element gives a block exactly when it is a paragraph, a heading or a quote
      with some text, and the block is that text collapsed, never empty. */
  lemma BlockOfSpec(e: Node)
    ensures BlockOf(e).Some? <==> e.Element? && IsBlockTag(e.tag) && CollapseTrim(TextOf(e.children)) != ""
    ensures BlockOf(e).Some? ==> BlockOf(e).value == CollapseTrim(TextOf(e.children))
    ensures BlockOf(e).Some? ==> BlockOf(e).value != "" && Collapsed(BlockOf(e).value)
  {
    if e.Element? && IsBlockTag(e.tag) {
      CollapseTrimSpec(TextOf(e.children));
    }
  }

  lemma TextBlocksSpec(rest: seq<Node>)
    ensures forall b :: b in TextBlocks(rest) ==> b != "" && Collapsed(b)
    ensures BlocksOf(Elements(rest)) != [] ==> TextBlocks(rest) == BlocksOf(Elements(rest))
    ensures BlocksOf(Elements(rest)) == [] ==> |TextBlocks(rest)| <= 1
    ensures TextBlocks(rest) == [] <==> BlocksOf(Elements(rest)) == [] && CollapseTrim(TextOf(rest)) == ""
  {
    BlocksOfSpec(Elements(rest));
    CollapseTrimSpec(TextOf(rest));
  }

  /** What `extractTablesFromHtml` promises: one table per table element that has a header
      or a body, in document order and each once, each with filled rows of tidy cells; text
      blocks taken from what is left, which holds no table, each collapsed and non-empty. */
  lemma ExtractSpec(root: seq<Node>)
    ensures var tableNodes := PlacedTags(root, "TABLE", false, false);
            var r := Extract(root);
            && |r.tables| <= |tableNodes|
            && (forall t :: t in r.tables ==> GoodTable(t))
            && (forall k :: 0 <= k < |tableNodes| && TableOf(tableNodes[k]).Some? ==> TableOf(tableNodes[k]).value in r.tables)
            && (exists idx :: Picks(idx, r.tables, tableNodes, TableOf))
            && (forall b :: b in r.textBlocks ==> b != "" && Collapsed(b))
            && WithTag(Elements(RemoveTables(root)), "TABLE") == []
            && (WithTag(Elements(root), "TABLE") == [] ==> RemoveTables(root) == root)
  {
    TablesOfSpec(PlacedTags(root, "TABLE", false, false));
    TextBlocksSpec(RemoveTables(root));
    RemoveTablesLeavesNone(root);
    if WithTag(Elements(root), "TABLE") == [] {
      RemoveTablesNoTable(root);
    }
  }
}
