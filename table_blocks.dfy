/**
 * `formatTables` in the dashboard formatter (frontend/src/components/Dashboard.js): the
 * content is cut into lines, each line is trimmed, and every maximal run of consecutive
 * table lines is replaced by the table `processTableRows` writes for it; the other lines
 * stay where they are.
 *
 * The specification groups the trimmed lines into blocks (`Group`); the method walks the
 * lines with the source's `inTable` flag and is proved to write the blocks.
 */
module TableBlocks {
  import opened JsText
  import opened Markup
  import opened TableFormat

  /** A trimmed line counts as a table row when it holds `|` and splitting it on `|` gives at
      least three pieces. */
  predicate IsTableLine(line: string) {
    Contains(line, "|") && |Split(line, '|')| >= 3
  }

  /** That is: the line holds at least two `|`. */
  lemma TableLineIff(line: string)
    ensures IsTableLine(line) <==> Count(line, '|') >= 2
  {
    SplitLength(line, '|');
    ContainsChar(line, '|');
    CountPositive(line, '|');
  }

  /** A line of the content, or a run of table rows. */
  datatype Block = Line(text: string) | Table(rows: seq<string>)

  /** The lines grouped into blocks, one line at a time: a table line joins the table just
      before it or opens a new one, any other line is a block of its own. */
  function Group(ls: seq<string>): (bs: seq<Block>)
  {
    if ls == [] then []
    else
      var bs := Group(ls[..|ls| - 1]);
      var l := ls[|ls| - 1];
      if !IsTableLine(l) then bs + [Line(l)]
      else if bs != [] && bs[|bs| - 1].Table? then bs[..|bs| - 1] + [Table(bs[|bs| - 1].rows + [l])]
      else bs + [Table([l])]
  }

  /** The lines a block holds. */
  function BlockLines(b: Block): seq<string> {
    match b
    case Line(text) => [text]
    case Table(rows) => rows
  }

  /** The lines of the blocks, in order. */
  function Flatten(bs: seq<Block>): seq<string> {
    if bs == [] then [] else Flatten(bs[..|bs| - 1]) + BlockLines(bs[|bs| - 1])
  }

  /** A run of rows as grouping collects it: at least one row, and only table lines. */
  predicate TableRun(rows: seq<string>) {
    rows != [] && forall k :: 0 <= k < |rows| ==> IsTableLine(rows[k])
  }

  /** Blocks as grouping leaves them: a plain line is no table line, a table is a run of
      table lines, and no table follows another (each run is maximal). */
  predicate WellGrouped(bs: seq<Block>) {
    && (forall i :: 0 <= i < |bs| && bs[i].Line? ==> !IsTableLine(bs[i].text))
    && (forall i :: 0 <= i < |bs| && bs[i].Table? ==> TableRun(bs[i].rows))
    && (forall i :: 0 < i < |bs| && bs[i].Table? ==> bs[i - 1].Line?)
  }

  /** One more block keeps the blocks well grouped. */
  lemma WellSnoc(bs: seq<Block>, b: Block)
    requires WellGrouped(bs)
    requires b.Line? ==> !IsTableLine(b.text)
    requires b.Table? ==> TableRun(b.rows) && (bs != [] ==> bs[|bs| - 1].Line?)
    ensures WellGrouped(bs + [b])
  {
  }

  /** Leaving out the last block keeps the blocks well grouped; a last table is a run after
      a line, or the only block. */
  lemma WellPrefix(bs: seq<Block>)
    requires WellGrouped(bs) && bs != []
    ensures WellGrouped(bs[..|bs| - 1])
    ensures bs[|bs| - 1].Line? ==> !IsTableLine(bs[|bs| - 1].text)
    ensures bs[|bs| - 1].Table? ==> TableRun(bs[|bs| - 1].rows)
    ensures |bs| > 1 && bs[|bs| - 1].Table? ==> bs[|bs| - 2].Line?
  {
  }

  lemma FlattenSnoc(bs: seq<Block>, b: Block)
    ensures Flatten(bs + [b]) == Flatten(bs) + BlockLines(b)
  {
    assert (bs + [b])[..|bs|] == bs;
  }

  /** Grouping loses, adds and reorders no line. */
  lemma {:induction false} GroupFlatten(ls: seq<string>)
    ensures Flatten(Group(ls)) == ls
  {
    if ls != [] {
      var init := ls[..|ls| - 1];
      var l := ls[|ls| - 1];
      GroupFlatten(init);
      LastSnoc(ls);
      FlattenGroupSnoc(init, l);
    }
  }

  /** One more line keeps the lines of the grouping equal to the lines grouped. */
  lemma FlattenGroupSnoc(init: seq<string>, l: string)
    requires Flatten(Group(init)) == init
    ensures Flatten(Group(init + [l])) == init + [l]
  {
    var bs := Group(init);
    GroupSnoc(init, l);
    if !IsTableLine(l) {
      FlattenSnoc(bs, Line(l));
    } else if bs != [] && bs[|bs| - 1].Table? {
      var pre, rows := bs[..|bs| - 1], bs[|bs| - 1].rows;
      assert pre + [Table(rows)] == bs;
      FlattenExtend(pre, rows, l);
    } else {
      FlattenSnoc(bs, Table([l]));
    }
  }

  /** Adding a row to a last table adds it to the lines. */
  lemma FlattenExtend(pre: seq<Block>, rows: seq<string>, l: string)
    ensures Flatten(pre + [Table(rows + [l])]) == Flatten(pre + [Table(rows)]) + [l]
  {
    FlattenSnoc(pre, Table(rows));
    FlattenSnoc(pre, Table(rows + [l]));
    AppendAssoc(Flatten(pre), rows, [l]);
  }

  /** Grouping makes each maximal run of table lines one table. */
  lemma {:induction false} GroupWellGrouped(ls: seq<string>)
    ensures WellGrouped(Group(ls))
  {
    if ls != [] {
      var init := ls[..|ls| - 1];
      var l := ls[|ls| - 1];
      GroupWellGrouped(init);
      LastSnoc(ls);
      WellGroupedSnoc(init, l);
    }
  }

  /** One more line keeps the grouping well grouped. */
  lemma WellGroupedSnoc(init: seq<string>, l: string)
    requires WellGrouped(Group(init))
    ensures WellGrouped(Group(init + [l]))
  {
    var bs := Group(init);
    GroupSnoc(init, l);
    if !IsTableLine(l) {
      WellSnoc(bs, Line(l));
    } else if bs != [] && bs[|bs| - 1].Table? {
      WellPrefix(bs);
      WellSnoc(bs[..|bs| - 1], Table(bs[|bs| - 1].rows + [l]));
    } else {
      WellSnoc(bs, Table([l]));
    }
  }

  /** One more line: a plain line is a block of its own, a table line joins a table just
      before it or opens one. */
  lemma GroupSnoc(init: seq<string>, l: string)
    ensures var bs := Group(init);
            Group(init + [l])
            == if !IsTableLine(l) then bs + [Line(l)]
               else if bs != [] && bs[|bs| - 1].Table? then bs[..|bs| - 1] + [Table(bs[|bs| - 1].rows + [l])]
               else bs + [Table([l])]
  {
    assert (init + [l])[..|init|] == init;
  }

  /** The grouping is the only well-grouped one: blocks that hold the lines in order and
      are well grouped are the blocks `Group` makes. */
  lemma {:induction false} GroupUnique(bs: seq<Block>)
    requires WellGrouped(bs)
    ensures Group(Flatten(bs)) == bs
  {
    if bs != [] {
      var pre := bs[..|bs| - 1];
      var b := bs[|bs| - 1];
      assert pre + [b] == bs;
      WellPrefix(bs);
      GroupUnique(pre);
      FlattenSnoc(pre, b);
      UniqueLast(pre, b);
    }
  }

  /** A well-placed last block is grouped as it is. */
  lemma UniqueLast(pre: seq<Block>, b: Block)
    requires Group(Flatten(pre)) == pre
    requires b.Line? ==> !IsTableLine(b.text)
    requires b.Table? ==> TableRun(b.rows) && (pre != [] ==> pre[|pre| - 1].Line?)
    ensures Group(Flatten(pre) + BlockLines(b)) == pre + [b]
  {
    if b.Line? {
      UniqueLine(pre, b.text);
    } else {
      UniqueTable(pre, b.rows);
    }
  }

  /** A last plain line. */
  lemma UniqueLine(pre: seq<Block>, text: string)
    requires Group(Flatten(pre)) == pre && !IsTableLine(text)
    ensures Group(Flatten(pre) + [text]) == pre + [Line(text)]
  {
    GroupSnoc(Flatten(pre), text);
  }

  /** A last run of rows after a line, taken one row at a time. */
  lemma {:induction false} UniqueTable(pre: seq<Block>, rows: seq<string>)
    requires Group(Flatten(pre)) == pre
    requires pre != [] ==> pre[|pre| - 1].Line?
    requires TableRun(rows)
    ensures Group(Flatten(pre) + rows) == pre + [Table(rows)]
  {
    var front := rows[..|rows| - 1];
    var l := rows[|rows| - 1];
    assert front + [l] == rows;
    assert IsTableLine(l);
    var init := Flatten(pre) + front;
    AppendAssoc(Flatten(pre), front, [l]);
    GroupSnoc(init, l);
    if front == [] {
      assert init == Flatten(pre);
    } else {
      assert TableRun(front);
      UniqueTable(pre, front);
      var g := pre + [Table(front)];
      assert g[..|g| - 1] == pre;
      assert g[|g| - 1].rows + [l] == rows;
    }
  }

  // ---------------------------------------------------------------------------
  // Writing the blocks

  /** A plain line is written as it is, a run of rows as its table. */
  function BlockHtml(f: Fragments, b: Block, analysisType: string): string {
    match b
    case Line(text) => text
    case Table(rows) => TableHtml(f, rows, analysisType)
  }

  function BlocksHtml(f: Fragments, bs: seq<Block>, analysisType: string): (out: seq<string>)
    ensures |out| == |bs|
    ensures forall i :: 0 <= i < |bs| ==> out[i] == BlockHtml(f, bs[i], analysisType)
  {
    seq(|bs|, i requires 0 <= i < |bs| => BlockHtml(f, bs[i], analysisType))
  }

  /** Each line trimmed. */
  function TrimLines(ls: seq<string>): (r: seq<string>)
    ensures |r| == |ls| && forall i :: 0 <= i < |ls| ==> r[i] == Trim(ls[i])
  {
    seq(|ls|, i requires 0 <= i < |ls| => Trim(ls[i]))
  }

  /** The blocks of a content: its lines, trimmed and grouped. */
  function ContentBlocks(content: string): (bs: seq<Block>) {
    Group(TrimLines(Split(content, '\n')))
  }

  /** What `formatTables` returns: the written blocks joined by line breaks. */
  function TablesFormatted(f: Fragments, content: string, analysisType: string): string {
    Join(BlocksHtml(f, ContentBlocks(content), analysisType), "\n")
  }

  lemma BlocksHtmlSnoc(f: Fragments, bs: seq<Block>, b: Block, analysisType: string)
    ensures BlocksHtml(f, bs + [b], analysisType)
            == BlocksHtml(f, bs, analysisType) + [BlockHtml(f, b, analysisType)]
  {
  }

  /** Where the loop of `formatTables` stands after the lines `ls`: with a run open
      (`inTable`), the last block is the run `rows` and `result` holds the blocks before it;
      otherwise `result` holds all blocks, the last of which is a plain line. */
  predicate Scanned(f: Fragments, ls: seq<string>, inTable: bool, rows: seq<string>,
                    result: seq<string>, analysisType: string)
  {
    var g := Group(ls);
    if inTable then
      g != [] && g[|g| - 1] == Table(rows) && rows != []
      && result == BlocksHtml(f, g[..|g| - 1], analysisType)
    else
      result == BlocksHtml(f, g, analysisType) && (g == [] || g[|g| - 1].Line?)
  }

  /** A table line opens a run or extends the open one. */
  lemma ScanTableLine(f: Fragments, ls: seq<string>, l: string, inTable: bool, rows: seq<string>,
                      result: seq<string>, analysisType: string)
    requires IsTableLine(l) && Scanned(f, ls, inTable, rows, result, analysisType)
    ensures Scanned(f, ls + [l], true, if inTable then rows + [l] else [l], result, analysisType)
  {
    var g := Group(ls);
    GroupSnoc(ls, l);
    if inTable {
      var g2 := g[..|g| - 1] + [Table(rows + [l])];
      assert g2[..|g2| - 1] == g[..|g| - 1];
    } else {
      var g2 := g + [Table([l])];
      assert g2[..|g2| - 1] == g;
    }
  }

  /** Writing the open run completes the blocks written so far. */
  lemma CloseRun(f: Fragments, ls: seq<string>, rows: seq<string>, result: seq<string>, analysisType: string)
    requires Scanned(f, ls, true, rows, result, analysisType)
    ensures result + [TableHtml(f, rows, analysisType)] == BlocksHtml(f, Group(ls), analysisType)
  {
    var g := Group(ls);
    assert g == g[..|g| - 1] + [Table(rows)];
    BlocksHtmlSnoc(f, g[..|g| - 1], Table(rows), analysisType);
  }

  /** Any other line closes an open run and is written as it is. */
  lemma ScanPlainLine(f: Fragments, ls: seq<string>, l: string, result: seq<string>, analysisType: string)
    requires !IsTableLine(l) && result == BlocksHtml(f, Group(ls), analysisType)
    ensures Scanned(f, ls + [l], false, [], result + [l], analysisType)
  {
    GroupSnoc(ls, l);
    BlocksHtmlSnoc(f, Group(ls), Line(l), analysisType);
  }

  /** The loop of `formatTables`: `inTable` says a run of rows is open, `tableRows` holds
      it, and `result` the lines written so far. */
  method FormatTables(f: Fragments, content: string, analysisType: string) returns (out: string)
    ensures out == TablesFormatted(f, content, analysisType)
  {
    var lines := Split(content, '\n');
    ghost var trimmed := TrimLines(lines);
    var result: seq<string> := [];
    var inTable := false;
    var tableRows: seq<string> := [];
    for i := 0 to |lines|
      invariant Scanned(f, trimmed[..i], inTable, tableRows, result, analysisType)
    {
      var line := Trim(lines[i]);
      SliceSnoc(trimmed, i);
      if Contains(line, "|") && |Split(line, '|')| >= 3 {
        ScanTableLine(f, trimmed[..i], line, inTable, tableRows, result, analysisType);
        ghost var run := if inTable then tableRows + [line] else [line];
        if !inTable {
          inTable := true;
          tableRows := [];
        }
        tableRows := tableRows + [line];
        assert tableRows == run;
      } else {
        if inTable {
          var tableHtml := ProcessTableRows(f, tableRows, analysisType);
          CloseRun(f, trimmed[..i], tableRows, result, analysisType);
          result := result + [tableHtml];
          tableRows := [];
          inTable := false;
        }
        ScanPlainLine(f, trimmed[..i], line, result, analysisType);
        result := result + [line];
      }
    }
    assert trimmed[..|lines|] == trimmed;
    if inTable && |tableRows| > 0 {
      var tableHtml := ProcessTableRows(f, tableRows, analysisType);
      CloseRun(f, trimmed, tableRows, result, analysisType);
      result := result + [tableHtml];
    }
    out := Join(result, "\n");
  }

  // ---------------------------------------------------------------------------
  // What the output is made of

  /** Lines none of which is a table line are written as they are. */
  lemma NoTableLinesBlocks(f: Fragments, ls: seq<string>, analysisType: string)
    requires forall i :: 0 <= i < |ls| ==> !IsTableLine(ls[i])
    ensures BlocksHtml(f, Group(ls), analysisType) == ls
  {
    GroupPlain(ls);
    var out := BlocksHtml(f, Plain(ls), analysisType);
    forall i | 0 <= i < |ls| ensures out[i] == ls[i] {
      assert out[i] == BlockHtml(f, Line(ls[i]), analysisType);
    }
  }

  /** Without table lines, each line is a block of its own. */
  lemma GroupPlain(ls: seq<string>)
    requires forall i :: 0 <= i < |ls| ==> !IsTableLine(ls[i])
    ensures Group(ls) == Plain(ls)
  {
    FlattenPlain(ls);
    PlainWellGrouped(ls);
    GroupUnique(Plain(ls));
  }

  /** Content with no table line is only trimmed, line by line. */
  lemma NoTableLines(f: Fragments, content: string, analysisType: string)
    requires forall i :: 0 <= i < |Split(content, '\n')| ==> !IsTableLine(Trim(Split(content, '\n')[i]))
    ensures TablesFormatted(f, content, analysisType) == Join(TrimLines(Split(content, '\n')), "\n")
  {
    NoTableLinesBlocks(f, TrimLines(Split(content, '\n')), analysisType);
  }

  /** Each line a block of its own. */
  function Plain(ls: seq<string>): (bs: seq<Block>)
    ensures |bs| == |ls| && forall i :: 0 <= i < |ls| ==> bs[i] == Line(ls[i])
  {
    seq(|ls|, i requires 0 <= i < |ls| => Line(ls[i]))
  }

  lemma {:induction false} FlattenPlain(ls: seq<string>)
    ensures Flatten(Plain(ls)) == ls
  {
    if ls != [] {
      var init := ls[..|ls| - 1];
      FlattenPlain(init);
      assert Plain(ls)[..|ls| - 1] == Plain(init);
      LastSnoc(ls);
    }
  }

  lemma PlainWellGrouped(ls: seq<string>)
    requires forall i :: 0 <= i < |ls| ==> !IsTableLine(ls[i])
    ensures WellGrouped(Plain(ls))
  {
  }

  /** No line of `ls` holds `c`. */
  predicate NoCharIn(ls: seq<string>, c: char) {
    forall k :: 0 <= k < |ls| ==> c !in ls[k]
  }

  lemma NoCharSplit(a: seq<string>, b: seq<string>, c: char)
    requires NoCharIn(a + b, c)
    ensures NoCharIn(a, c) && NoCharIn(b, c)
  {
    forall k | 0 <= k < |a| ensures c !in a[k] { assert a[k] == (a + b)[k]; }
    forall k | 0 <= k < |b| ensures c !in b[k] { assert b[k] == (a + b)[|a| + k]; }
  }

  /** A character no line holds is in no block. */
  lemma {:induction false} FlattenNoChar(bs: seq<Block>, c: char)
    requires NoCharIn(Flatten(bs), c)
    ensures forall i :: 0 <= i < |bs| ==> NoCharIn(BlockLines(bs[i]), c)
  {
    if bs != [] {
      var pre := bs[..|bs| - 1];
      var last := bs[|bs| - 1];
      FlattenSnoc(pre, last);
      assert pre + [last] == bs;
      NoCharSplit(Flatten(pre), BlockLines(last), c);
      FlattenNoChar(pre, c);
      forall i | 0 <= i < |bs| ensures NoCharIn(BlockLines(bs[i]), c) {
        if i < |pre| {
          assert bs[i] == pre[i];
        }
      }
    }
  }

  lemma GroupNonEmpty(ls: seq<string>)
    requires ls != []
    ensures Group(ls) != []
  {
  }

  /** Lines without line breaks are written as blocks without line breaks. */
  lemma BlocksNoNewline(f: Fragments, ls: seq<string>, analysisType: string)
    requires OneLineFragments(f)
    requires forall k :: 0 <= k < |ls| ==> '\n' !in ls[k]
    ensures forall i :: 0 <= i < |Group(ls)| ==> '\n' !in BlocksHtml(f, Group(ls), analysisType)[i]
  {
    var bs := Group(ls);
    GroupFlatten(ls);
    assert NoCharIn(Flatten(bs), '\n');
    FlattenNoChar(bs, '\n');
    forall i | 0 <= i < |bs| ensures '\n' !in BlockHtml(f, bs[i], analysisType) {
      assert NoCharIn(BlockLines(bs[i]), '\n');
      BlockNoNewline(f, bs[i], analysisType);
    }
  }

  lemma BlockNoNewline(f: Fragments, b: Block, analysisType: string)
    requires OneLineFragments(f)
    requires forall k :: 0 <= k < |BlockLines(b)| ==> '\n' !in BlockLines(b)[k]
    ensures '\n' !in BlockHtml(f, b, analysisType)
  {
    match b
    case Line(text) =>
      assert BlockLines(b)[0] == text;
    case Table(rows) =>
      assert BlockLines(b) == rows;
      TableNoNewline(f, rows, analysisType);
  }

  /** With markup that holds no line break, the output splits back into the written
      blocks: each plain line is one line of the output, and each table is one line. */
  lemma FormattedLines(f: Fragments, content: string, analysisType: string)
    requires OneLineFragments(f)
    ensures Split(TablesFormatted(f, content, analysisType), '\n')
            == BlocksHtml(f, ContentBlocks(content), analysisType)
  {
    var lines := Split(content, '\n');
    var ls := TrimLines(lines);
    forall k | 0 <= k < |ls| ensures '\n' !in ls[k] {
      TrimNoChar(lines[k], '\n');
    }
    BlocksNoNewline(f, ls, analysisType);
    GroupNonEmpty(ls);
    SplitJoin(BlocksHtml(f, Group(ls), analysisType), '\n');
  }
}
