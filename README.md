# Market research dashboard — a verified model of its core

This project models the core of a market-research dashboard. The dashboard's React front end
asks a FastAPI back end for market analyses and shows them. The back end caches the analyses
in SQLite, and splits uploaded PDFs into page ranges.

The model covers these parts:

- **Text formatter** (`frontend/src/components/Dashboard.js`).
  - `formatContent` turns an analysis' Markdown-like text into HTML, in this order:
    1. links become anchors;
    2. runs of `|` rows become tables, with clickable first cells for vertical and
       horizontal analyses;
    3. list lines become list items;
    4. list items are wrapped in `ol`/`ul`;
    5. line breaks become paragraphs;
    6. unstructured text is wrapped in a paragraph.
  - Also `extractMarketEntries`, the analysis-history updates of `analyzeFromTable`, and
    the PDF comparison upload and its checks.
- **Export helpers** (`frontend/src/utils/downloadUtils.js`).
  - `stripSvgs` and `extractTablesFromHtml`, over a parsed element tree.
  - The page-breaking paragraph writer and the footer numbering of the PDF export.
  - The block fallback shared by all three exporters.
  - The workbook of the Excel export and the text of the Markdown export.
- **Download dialog** (`frontend/src/components/DownloadModal.js`): the `safe` file-name
  sanitiser, the file name, the dispatch to an exporter, and the dialog's state.
- **PDF chunking** (`backend/pdf_chunks_util.py`, `backend/split_and_upload_chunks.py`): the
  page-range loops.
- **Markdown utilities** (`backend/utils.py`): `extract_links`, `split_tables`, and the
  table-location step of `parse_markdown_table`.
- **API store** (`backend/fastapi_wrapper.py`).
  - The three tables as sequences in a class.
  - The cache-or-compute market endpoints and the upload de-duplication by MD5.
  - The history queries, the analytics count, the restore endpoints and the delete
    endpoints.

## How the model is built

- **Strings** are sequences of UTF-16 code units (`string` in Dafny).
- **JavaScript built-ins** are functions in module `JsText`, with their properties proved
  there: white space as `\s` and `trim` define it, `trim`, `split`, `join`, literal
  `replace(/…/g)`, `slice`, and `.replace(/\s+/g, ' ').trim()`.
- **Regular expressions** become deterministic scanners. Each scanner's comment explains
  why backtracking cannot change the match. A global replacement is a scan into pieces,
  then a rendering; the lemmas about matching never see the markup.
- **Markup.** The HTML the formatter writes is a record of fragments (`Markup.Fragments`);
  the dashboard's own strings are the constant `Markup.DASHBOARD`. The properties hold for
  any fragments without line breaks, and the dashboard's fragments have none.
- **Imperative code** becomes methods over `seq` and classes:
  - the loops of `formatTables`, `processTableRows`, `extractMarketEntries`, the table
    extraction, both chunking loops, the Excel and Markdown exports, `addParagraph` and the
    footer loop;
  - the state of the download dialog, the PDF document and the database.

  Each method is proved equal to a specifying function, and the lemmas about that
  function carry the source's promises.
- **Foreign code is a parameter.** This covers:
  - the analysis agents, the web search, MD5, the page count, the chunk upload and the
    temporary file paths;
  - the browser's `stripHtml`;
  - the current date;
  - the inline passes of `formatContent` that run in the browser.

## Model

| member | source | states |
|---|---|---|
| JsText.TrimIsInfix | frontend/src/components/Dashboard.js:1405 | `trim` returns a contiguous piece of its input |
| JsText.TrimCutsSpaceBefore | frontend/src/components/Dashboard.js:1405 | `trim` cuts only white space in front |
| JsText.TrimCutsSpaceAfter | frontend/src/components/Dashboard.js:1405 | `trim` cuts only white space behind |
| JsText.TrimIdempotent | frontend/src/components/Dashboard.js:1405 | trimming twice is trimming once |
| JsText.JoinSplit | frontend/src/components/Dashboard.js:1399-1430 | joining the pieces of a split on the same character gives the text back |
| JsText.SplitJoin | frontend/src/components/Dashboard.js:1399-1430 | splitting a join of separator-free pieces gives the pieces back |
| JsText.SplitLength | frontend/src/components/Dashboard.js:1408 | a split gives one more piece than there are separators |
| JsText.RemoveDoubleStar | frontend/src/components/Dashboard.js:1532 | after removing every `**`, no `**` is left |
| JsText.CollapseSpacesSingle | frontend/src/utils/downloadUtils.js:43 | `replace(/\s+/g, ' ')` leaves only single plain spaces |
| JsText.CollapseTrimSpec | frontend/src/utils/downloadUtils.js:43 | collapsed and trimmed text is single-spaced with no white space at either end |
| JsText.PresentPicks | frontend/src/utils/downloadUtils.js:46 | a `map` then `filter` keeps, in order and each once, exactly the values the elements give |
| JsText.PicksUnique | frontend/src/utils/downloadUtils.js:46 | the kept values are fixed by the input: their order and their number of copies |
| Markup.DashboardOneLine | frontend/src/components/Dashboard.js:1497-1544 | no markup fragment the formatter writes holds a line break |
| CellLinks.AnchorAtIsMatch | frontend/src/components/Dashboard.js:1343-1346 | the scanner finds a link exactly where `\[([^\]]+)\]\(([^)]+)\)` matches |
| CellLinks.AnchorsNoBracket | frontend/src/components/Dashboard.js:1343-1346 | text without `[` is left unchanged by the link pass |
| CellLinks.AnchorsOne | frontend/src/components/Dashboard.js:1343-1346 | `[text](url)` becomes one anchor with that text and URL; the text after it is rewritten on its own |
| CellLinks.AnchorsNoNewline | frontend/src/components/Dashboard.js:1518-1521 | the link pass adds no line break |
| CellLinks.UrlAtShape | frontend/src/components/Dashboard.js:1524-1527 | a bare URL found is `http://` or `https://` and the longest run of URL characters, not after `href="`/`">` and not before a closing anchor |
| CellLinks.UrlAtFound | frontend/src/components/Dashboard.js:1524-1527 | conversely, a scheme at `i` followed by a non-empty run of URL characters, with both lookarounds holding, is found with the whole run |
| CellLinks.BareUrlsNoScheme | frontend/src/components/Dashboard.js:1524-1527 | text without `http` is left unchanged by the bare-URL pass |
| CellLinks.BareUrlsNoNewline | frontend/src/components/Dashboard.js:1524-1527 | the bare-URL pass adds no line break |
| TableFormat.CellsSpec | frontend/src/components/Dashboard.js:1503 | each cell of a row is non-empty, trimmed and free of `\|` |
| TableFormat.CellsNoPipe | frontend/src/components/Dashboard.js:1503 | a line without `\|` is one cell, its trimmed text, unless it is blank |
| TableFormat.CleanName | frontend/src/components/Dashboard.js:1532 | the market name a button carries holds no `**` and is trimmed |
| TableFormat.ReadRowSpec | frontend/src/components/Dashboard.js:1499-1544 | a row is skipped exactly when it holds `---` or has no cell; it is the header exactly when it is the first row otherwise; body cells keep their formatted text and only the first can be a button |
| TableFormat.CellViewSpec | frontend/src/components/Dashboard.js:1528-1541 | a body cell keeps its formatted text, and only column 0 can be a button |
| TableFormat.ButtonIff | frontend/src/components/Dashboard.js:1528-1538 | the first cell is a button exactly for a vertical or horizontal analysis whose cell holds no anchor and cleans to more than 2 characters (so it is not blank); the button carries the cleaned name |
| TableFormat.BodyCellHtml | frontend/src/components/Dashboard.js:1516-1542 | the markup of one body cell is the markup of its view |
| TableFormat.HeaderRowHtml | frontend/src/components/Dashboard.js:1508-1513 | the header row is one `th` per cell inside the head markup |
| TableFormat.BodyRowHtml | frontend/src/components/Dashboard.js:1514-1544 | a body row is one cell view per cell, in order, inside the row markup |
| TableFormat.RowHtmlCases | frontend/src/components/Dashboard.js:1499-1545 | a skipped row writes nothing; otherwise the row at index 0 writes the header and any later row a body row |
| TableFormat.ProcessTableRows | frontend/src/components/Dashboard.js:1494-1549 | the loop builds the table: no rows give `''`, otherwise the opening markup, each row at its own index, then the closing markup |
| TableFormat.TableNoNewline | frontend/src/components/Dashboard.js:1494-1549 | rows without line breaks give a table without line breaks |
| TableBlocks.TableLineIff | frontend/src/components/Dashboard.js:1408 | a line is a table row exactly when it holds at least two `\|` |
| TableBlocks.GroupFlatten | frontend/src/components/Dashboard.js:1404-1428 | grouping loses, adds and reorders no line |
| TableBlocks.GroupWellGrouped | frontend/src/components/Dashboard.js:1404-1428 | plain lines are not table lines, each table is a non-empty run of table lines, and no two tables are adjacent |
| TableBlocks.GroupUnique | frontend/src/components/Dashboard.js:1404-1428 | the grouping is the only well-grouped block list that holds the lines |
| TableBlocks.GroupPlain | frontend/src/components/Dashboard.js:1404-1423 | without table lines, each line is a block of its own |
| TableBlocks.NoTableLines | frontend/src/components/Dashboard.js:1397-1431 | content without table lines is only trimmed, line by line |
| TableBlocks.FormatTables | frontend/src/components/Dashboard.js:1397-1431 | the loop with `inTable`/`tableRows` writes each plain line and each maximal run of rows as its table, joined by line breaks |
| TableBlocks.FormattedLines | frontend/src/components/Dashboard.js:1397-1431 | the result splits back into the written blocks, one line per block, so each table is exactly one line |
| ListFormat.ItemAtIsMatch | frontend/src/components/Dashboard.js:1555-1562 | the scanner finds an item exactly where `^(\d+\.\s+.*)$` (or `^([-*]\s+.*)$`) matches, multiline |
| ListFormat.ItemLine | frontend/src/components/Dashboard.js:1555-1562 | `12.  Text` or `- Text` at a line start is an item holding `Text` |
| ListFormat.ListItemsNoMarker | frontend/src/components/Dashboard.js:1555-1562 | text where no line starts with the marker is left unchanged |
| ListFormat.WrapTag | frontend/src/components/Dashboard.js:1565-1569 | the wrapper is `ol` exactly when the region holds `1.`, `2.` or `3.`, and it encloses the region unchanged |
| ListFormat.NoWrapAfter | frontend/src/components/Dashboard.js:1565 | no match of the dot-all wrapping expression starts after the end of a match |
| ListFormat.WrapOnce | frontend/src/components/Dashboard.js:1565-1569 | the text is wrapped once, from the first `<li…>` to the last `</li>` and the white space after it |
| ListFormat.WrapNone | frontend/src/components/Dashboard.js:1565-1569 | text without such a region is left unchanged |
| ContentFormat.DashboardParagraph | frontend/src/components/Dashboard.js:1375-1388 | the dashboard's paragraph markup holds the `<p class=` the wrap test looks for |
| ContentFormat.BreaksNoNewline | frontend/src/components/Dashboard.js:1375-1377 | after the break pass no line break is left, whatever the earlier passes produced |
| ContentFormat.WrapParagraphSpec | frontend/src/components/Dashboard.js:1380-1388 | the wrap is added exactly when the text is unstructured; the result is structured, and wrapping again changes nothing |
| ContentFormat.FormatContentSpec | frontend/src/components/Dashboard.js:1337-1391 | missing or empty content gives `''`; otherwise the HTML has no line break, is structured, and is the formatted text or that text in one paragraph, exactly as the formatted text lacks block markup |
| MarketEntries.BoldAtIff | frontend/src/components/Dashboard.js:1310-1313 | `\*\*([^*]+)\*\*` captures exactly a non-empty, star-free name between `**` pairs |
| MarketEntries.AcceptedDistinct | frontend/src/components/Dashboard.js:1320-1323 | every kept entry is trimmed, has 3 to 99 characters, and is kept once |
| MarketEntries.AcceptedMember | frontend/src/components/Dashboard.js:1317-1325 | an entry is kept exactly when some capture offers it |
| MarketEntries.AcceptedOrder | frontend/src/components/Dashboard.js:1307-1326 | the entries are in the order of their first offer (lines in order, patterns in order) |
| MarketEntries.ExtractMarketEntries | frontend/src/components/Dashboard.js:1300-1329 | the nested loop returns the entry list its specifying function defines |
| MarketEntries.FirstTenSpec | frontend/src/components/Dashboard.js:1328 | at most ten entries are kept; an offered entry is missing only when ten are kept |
| MarketEntries.MarketEntryListSpec | frontend/src/components/Dashboard.js:1300-1329 | no text gives no entries; otherwise at most ten distinct, trimmed, fitting entries that are offered, in first-offer order, with none missing unless ten are kept |
| SessionLists.FindCachedSpec | frontend/src/components/Dashboard.js:1837-1839 | the cached analysis is the first finished entry with the market and type, or there is none |
| SessionLists.WithoutKeySpec | frontend/src/components/Dashboard.js:1868-1870 | the filter keeps, in order, exactly the entries without the key |
| SessionLists.StartAnalysisSpec | frontend/src/components/Dashboard.js:1867-1872 | after a start: the new entry first, then the newest of the old entries without its key, in their old order, as many as fit in ten; so the oldest are evicted, and none is lost while fewer than ten remain |
| SessionLists.Failed | frontend/src/components/Dashboard.js:1901-1906 | the failed entry keeps its id and is no longer loading |
| SessionLists.ReplaceByIdSpec | frontend/src/components/Dashboard.js:1894-1911 | completion or failure replaces exactly the entries with the id and keeps the length |
| SessionLists.StartThenComplete | frontend/src/components/Dashboard.js:1851-1896 | completing right after a start, with a fresh id, replaces the new head and nothing else |
| SessionLists.PdfsSpec | frontend/src/components/Dashboard.js:707 | exactly the PDFs among the files are kept |
| SessionLists.FirstByNameSpec | frontend/src/components/Dashboard.js:713-715 | the de-duplication keeps unique names, loses no name, and keeps the first file with each name |
| SessionLists.FirstByNameOrder | frontend/src/components/Dashboard.js:713-715 | the kept files are in their original order |
| SessionLists.MergeUploadsSpec | frontend/src/components/Dashboard.js:704-718 | no files leaves the list unchanged; otherwise at most five files with unique names, each the first of its name among the old files and the new PDFs, in order, with no name lost below five |
| SessionLists.CheckComparisonSpec | frontend/src/components/Dashboard.js:721-729 | fewer than two files is rejected whatever the prompt; a blank prompt is rejected exactly when there are enough files; otherwise the request is sent |
| SessionLists.TrimEmptyIff | frontend/src/components/Dashboard.js:726 | a trimmed text is empty exactly when all its characters are white space |
| PageChunks.ChunkRangeAt | backend/pdf_chunks_util.py:19-28 | the k-th range is pages `k*size + 1` to `min((k+1)*size, total)` |
| PageChunks.ChunkCount | backend/pdf_chunks_util.py:19 | there are ⌈total/size⌉ ranges, and none exactly when the document is empty |
| PageChunks.ChunkRangeBounds | backend/pdf_chunks_util.py:19-20 | every range starts inside the document, and only the last reaches its end |
| PageChunks.ChunkRangesEnds | backend/pdf_chunks_util.py:19-28 | the first range starts at page 1 and the last ends at the last page |
| PageChunks.ChunkRangesContiguous | backend/pdf_chunks_util.py:19-28 | the ranges are non-empty, and each starts right after the previous one ends |
| PageChunks.ChunkRangeSizes | backend/pdf_chunks_util.py:20 | every range has at most `size` pages, and all but the last have exactly `size` |
| PageChunks.ChunkRangesPartition | backend/pdf_chunks_util.py:19-28 | each page from 1 to total lies in exactly one range, and no other page lies in any |
| PageChunks.CutChunks | backend/pdf_chunks_util.py:19-28 | the loop emits one `(start + 1, end, path)` chunk per range, in page order |
| PageChunks.SplitPdfToChunks | backend/pdf_chunks_util.py:14-30 | a zero step is the `ValueError` of `range`, a negative step gives no chunk, and a positive step gives the chunks of its ranges |
| PageChunks.RecordsSpec | backend/split_and_upload_chunks.py:17-25 | there are ⌈total/size⌉ records, the k-th for pages `k*size + 1` to `min((k+1)*size, total)` |
| PageChunks.SplitAndUploadPdfChunks | backend/split_and_upload_chunks.py:12-30 | the loop returns one `{file_id, start, end}` record per 50-page range, in page order |
| MarkdownUtils.LinkAtIsLazyMatch | backend/utils.py:39 | the scanner finds a match exactly when `\[(.*?)\]\((.*?)\)` matches at the start, and it takes the lazy (shortest) one |
| MarkdownUtils.LinkAtFirst | backend/utils.py:39 | a match with no earlier `](` and no earlier `)` is the one taken |
| MarkdownUtils.ExtractLinksNoBracket | backend/utils.py:39 | text without `[` comes back unchanged |
| MarkdownUtils.ExtractLinksPrefix | backend/utils.py:39 | a `[`-free prefix passes through, and the rest is rewritten alone |
| MarkdownUtils.ExtractLinksOne | backend/utils.py:35-39 | one well-formed link on one line becomes `text (URL: url)`, and the rest is rewritten alone |
| MarkdownUtils.TablesAreTables | backend/utils.py:14 | every table found is pipe lines, then a separator line, then pipe lines |
| MarkdownUtils.TableFound | backend/utils.py:14 | a header line, a separator line and pipe lines are found as one table |
| MarkdownUtils.TablesFromCut | backend/utils.py:14 | at a line where no match can start, the scan splits: the tables of the lines before it, then those of the lines from it on |
| MarkdownUtils.TableFoundAt | backend/utils.py:14 | a table anywhere in the text, after a line where no match can start, is found in order between the tables before it and those after it; it runs from its first line's first `\|` through the whole run of pipe lines |
| MarkdownUtils.NoPipeNoTables | backend/utils.py:14 | text without `\|` holds no table |
| MarkdownUtils.SplitTables | backend/utils.py:9-20 | the first two tables, with `""` standing for each missing one |
| MarkdownUtils.LocateTable | backend/utils.py:41-50 | after every `**` is removed, the first table is found, or there is none exactly when no table matches |
| DownloadNames.SafeSpec | frontend/src/components/DownloadModal.js:33 | a missing or empty name gives `analysis`; otherwise the length is kept, letters and digits stay, and every other character becomes `_` |
| DownloadNames.SafeIdempotent | frontend/src/components/DownloadModal.js:33 | a safe name is its own safe form |
| DownloadNames.Dispatch | frontend/src/components/DownloadModal.js:37-48 | `pdf` and `excel` pick their emitters; every other format picks Markdown |
| DownloadNames.FileNameSpec | frontend/src/components/DownloadModal.js:34-47 | the file name is the safe name, `_analysis`, and the emitter's extension; its only dot starts the extension |
| DownloadNames.FileNameDeterminesEmitter | frontend/src/components/DownloadModal.js:34-48 | two downloads saved under the same name went to the same emitter |
| DownloadNames.DownloadModal.constructor | frontend/src/components/DownloadModal.js:8-9 | the dialog starts not downloading, with `markdown` chosen and nothing done |
| DownloadNames.DownloadModal.HandleDownload | frontend/src/components/DownloadModal.js:30-56 | without data nothing happens; otherwise the chosen emitter is called once with the file name, the dialog closes only when the emit succeeds, a failure raises one alert, and `downloading` ends false |
| ExportExtract.StripSvgsSpec | frontend/src/utils/downloadUtils.js:9 | the kept and removed parts make up the input in order, each removed span is a shortest case-insensitive `<svg`…`</svg>`, the result is never longer, it is unchanged exactly when no span matches, and text without `<svg` is unchanged |
| ExportExtract.FirstNonEmptySpec | frontend/src/utils/downloadUtils.js:39-42 | a cell's link is the first non-empty `href`; there is none exactly when every `href` is empty |
| ExportExtract.ColsGood | frontend/src/utils/downloadUtils.js:38-45 | every cell text is collapsed and trimmed, and any link is non-empty |
| ExportExtract.FilledRowsSpec | frontend/src/utils/downloadUtils.js:38-46 | the kept rows are the cells of the rows that have cells, in order and each once |
| ExportExtract.BodyRowsSpec | frontend/src/utils/downloadUtils.js:32-47 | the body keeps, in order, every filled row, and leaves out only a first all-`th` row under a header |
| ExportExtract.SelectSpec | frontend/src/utils/downloadUtils.js:20-30 | each selector keeps exactly the rows in its scope (a row records every enclosing `thead` and `tbody`, those above the table included) |
| ExportExtract.TableOfGood | frontend/src/utils/downloadUtils.js:49-51 | a table is emitted only with a header or a body, and every body row is filled |
| ExportExtract.TablesOfSpec | frontend/src/utils/downloadUtils.js:18-55 | the tables are those of the table elements with a header or a body, in document order and each once, all good |
| ExportExtract.RemoveTablesLeavesNone | frontend/src/utils/downloadUtils.js:54 | no table is left once the tables are removed |
| ExportExtract.RemoveTablesNoTable | frontend/src/utils/downloadUtils.js:54 | a tree without tables is left unchanged |
| ExportExtract.BlocksOfSpec | frontend/src/utils/downloadUtils.js:59-66 | the text blocks are the collapsed texts of the walked `p`, `h1`-`h3` and `blockquote` elements whose text is not empty, in walk order and each once |
| ExportExtract.BlockOfSpec | frontend/src/utils/downloadUtils.js:62-64 | an element gives a block exactly when it is a block element with some text, and the block is that text collapsed, never empty |
| ExportExtract.TextBlocksSpec | frontend/src/utils/downloadUtils.js:58-70 | the block elements' texts when there are any, otherwise at most the whole remaining text; there is none exactly when both are empty |
| ExportExtract.ExtractSpec | frontend/src/utils/downloadUtils.js:13-73 | the tables of the table elements with content, in document order and each once, all good; collapsed non-empty text blocks; the tables removed before the walk |
| ExportExtract.ReadBodyRows | frontend/src/utils/downloadUtils.js:32-47 | the row loop builds the body its specifying function defines |
| ExportExtract.ReadTable | frontend/src/utils/downloadUtils.js:19-51 | one table element is read as its specifying function defines |
| ExportExtract.ReadTables | frontend/src/utils/downloadUtils.js:18-55 | the loop over the table elements emits, in order, the tables its specifying function defines |
| ExportExtract.WalkBlocks | frontend/src/utils/downloadUtils.js:59-66 | the tree walk collects the blocks its specifying function defines |
| ExportExtract.ReadTextBlocks | frontend/src/utils/downloadUtils.js:58-70 | the walk with its fallback to the whole text |
| ExportExtract.ExtractTablesFromHtml | frontend/src/utils/downloadUtils.js:13-73 | the whole extraction returns the tables and blocks its specifying function defines |
| ExportEmit.BlocksSpec | frontend/src/utils/downloadUtils.js:109-114 | the sections when there are any, otherwise exactly `Market Metrics` with the metrics and `Top Companies` with the companies |
| ExportEmit.PdfDoc.constructor | frontend/src/utils/downloadUtils.js:91 | a new document has one empty page |
| ExportEmit.PdfDoc.BreakPage | frontend/src/utils/downloadUtils.js:79 | past the limit a page is added, made current, and the line goes to the top margin |
| ExportEmit.PdfDoc.AddParagraph | frontend/src/utils/downloadUtils.js:76-84 | each line is drawn at its place in the layout, the page count grows by the breaks taken, and the returned height is 6 points under the next line |
| ExportEmit.LayoutWithinPage | frontend/src/utils/downloadUtils.js:79 | a line is drawn below the limit only at the top margin of a fresh last page |
| ExportEmit.LayoutSteps | frontend/src/utils/downloadUtils.js:78-82 | each line is 14 points under the one before, or at the top of a new page |
| ExportEmit.LayoutEnd | frontend/src/utils/downloadUtils.js:81-83 | the cursor ends 14 points under the last line, and each line adds at most one page |
| ExportEmit.PdfDoc.AddFooters | frontend/src/utils/downloadUtils.js:207-213 | every page from the first gets `Page i of total`, in order; nothing else changes |
| ExportEmit.FooterLabelsDistinct | frontend/src/utils/downloadUtils.js:212 | no two pages get the same footer |
| ExportEmit.ExcelSpec | frontend/src/utils/downloadUtils.js:224-260 | a `Summary` sheet counting the sections, then one sheet per block, in order |
| ExportEmit.BlockSheetSpec | frontend/src/utils/downloadUtils.js:255-259 | a block's sheet is named by at most the first 31 title characters, and holds the title, a blank row, then the text rows |
| ExportEmit.NonBlankLinesSpec | frontend/src/utils/downloadUtils.js:257 | the kept lines are the non-blank lines trimmed, in order and each once |
| ExportEmit.TextRowsSpec | frontend/src/utils/downloadUtils.js:257 | one single-cell row per non-blank line, trimmed, in order and each once, and no other row |
| ExportEmit.DownloadAsExcelSheets | frontend/src/utils/downloadUtils.js:224-263 | the export builds the workbook its specifying function defines |
| ExportEmit.BlockLinesSpec | frontend/src/utils/downloadUtils.js:292-296 | three lines per block: `## title`, its text, a blank line |
| ExportEmit.DownloadAsMarkdownParts | frontend/src/utils/downloadUtils.js:266-299 | the export builds the lines its specifying function defines |
| ExportEmit.MarkdownSpec | frontend/src/utils/downloadUtils.js:275-301 | the title line first, a `---` rule, one heading and text per block (with `No data available.` for an empty block), then the rule and the footer |
| BackendStore.AnalysisTypeInjective | backend/fastapi_wrapper.py:153-265 | no two market endpoints share a cache key |
| BackendStore.Newest | backend/fastapi_wrapper.py:155-158 | the lookup finds the newest row with the market and type, or none exists |
| BackendStore.StoredAscending | backend/fastapi_wrapper.py:163-165 | an endpoint keeps row ids positive and increasing |
| BackendStore.StoredServesAgain | backend/fastapi_wrapper.py:153-167 | after an endpoint answers, the same request hits the cache and gets the data it was served |
| BackendStore.StoredKeepsOtherKeys | backend/fastapi_wrapper.py:153-167 | an endpoint leaves the cached answer for every other key unchanged |
| BackendStore.FirstPdf | backend/fastapi_wrapper.py:289 | the lookup finds the first row with the digest, or none exists |
| BackendStore.UploadedSpec | backend/fastapi_wrapper.py:284-305 | uploads keep digests unique; afterwards the digest is found with the stored chunks, or the new ones when it was unknown |
| BackendStore.Limited | backend/fastapi_wrapper.py:378 | `LIMIT` keeps the first `min(limit, n)` of `n` rows, and every row without a limit or under a negative one |
| BackendStore.PdfMatchesMembers | backend/fastapi_wrapper.py:392-395 | the filter keeps exactly the PDFs whose name matches the term |
| BackendStore.PdfMatchesUnique | backend/fastapi_wrapper.py:390-406 | the matching PDFs have distinct digests |
| BackendStore.PdfHistorySpec | backend/fastapi_wrapper.py:390-406 | the first `min(limit, #matches)` matching PDFs, each with its chunk count and time, with distinct digests; newest `processed_at` first when times grow with insertion; all matches without a limit |
| BackendStore.PdfMatchesNewestFirst | backend/fastapi_wrapper.py:395 | when processing times grow with insertion, the matching PDFs come in descending `processed_at` |
| BackendStore.MarketMatchesMembers | backend/fastapi_wrapper.py:375-378 | the filter keeps exactly the analyses whose market matches the term |
| BackendStore.MarketMatchesDescending | backend/fastapi_wrapper.py:378 | the matching analyses are newest first |
| BackendStore.MarketHistorySpec | backend/fastapi_wrapper.py:373-388 | the first `min(limit, #matches)` matching analyses, newest first; all matches without a limit |
| BackendStore.RestorePdfSession | backend/fastapi_wrapper.py:442-461 | a 404 exactly when no PDF has the digest; otherwise the session of such a PDF: its digest, name, chunk count, processing time and chunks |
| BackendStore.Window | backend/fastapi_wrapper.py:360-361 | exactly the events at or after the cutoff |
| BackendStore.WindowMultiplicity | backend/fastapi_wrapper.py:361 | each event at or after the cutoff is in the window as many times as the table holds it, and no other event is |
| BackendStore.WindowInOrder | backend/fastapi_wrapper.py:361 | the window keeps the table's order |
| BackendStore.WindowCount | backend/fastapi_wrapper.py:361-368 | `total_events` is the number of rows at or after the cutoff |
| BackendStore.BumpCounts | backend/fastapi_wrapper.py:364 | one bump adds one to the type's count and to the total |
| BackendStore.BumpKeys | backend/fastapi_wrapper.py:364 | one bump adds the type to the keys and keeps them distinct and positive |
| BackendStore.TalliesSpec | backend/fastapi_wrapper.py:362-369 | each type of the window has one entry, counting its events; the counts add up to the total |
| BackendStore.CollectSpec | backend/fastapi_wrapper.py:435-437 | the restored map holds each type with the data of its last row |
| BackendStore.MarketRowsLast | backend/fastapi_wrapper.py:431-437 | the last row of a type among the market's rows is the one the cache serves |
| BackendStore.RestoreSpec | backend/fastapi_wrapper.py:428-439 | a 404 exactly when the market has no row; otherwise each cached type maps to the data the cache serves |
| BackendStore.FindId | backend/fastapi_wrapper.py:465 | the lookup finds a row with the id, or none exists |
| BackendStore.DeleteMarketExactly | backend/fastapi_wrapper.py:463-470 | deleting removes exactly the row with the id, keeps every other row, and keeps ids ascending |
| BackendStore.DeletePdfExactly | backend/fastapi_wrapper.py:472-479 | deleting removes exactly the PDF with the digest, keeps every other one, and keeps digests unique |
| BackendStore.Store.constructor | backend/fastapi_wrapper.py:60 | the database starts empty |
| BackendStore.Store.LogAnalytics | backend/fastapi_wrapper.py:143-145 | one event is appended; nothing else changes |
| BackendStore.Store.ServeMarket | backend/fastapi_wrapper.py:153-265 | a hit serves the newest row's data with no agent call and no new row; a miss calls the agent once and stores its row; technology segments return no body; the global overview logs exactly one event |
| BackendStore.Store.WebResearch | backend/fastapi_wrapper.py:277-281 | the search runs once and one event is logged |
| BackendStore.Store.UploadDocument | backend/fastapi_wrapper.py:284-305 | known bytes return the stored chunks without splitting or a new row; new bytes are split into 50-page records and stored under their MD5 |
| BackendStore.Store.GetAnalytics | backend/fastapi_wrapper.py:358-371 | the number of events since the cutoff (`CountSince`) and their count per type |
| BackendStore.Store.RestoreMarketAnalysis | backend/fastapi_wrapper.py:428-439 | a 404 when the market has no row, otherwise the map of its types |
| BackendStore.Store.DeleteMarketHistory | backend/fastapi_wrapper.py:463-470 | a 404 and nothing removed when no row has the id; otherwise that row goes, with the id in the message |
| BackendStore.Store.DeletePdfHistory | backend/fastapi_wrapper.py:472-479 | a 404 and nothing removed when no row has the digest; otherwise that row goes |

## Left out

- Bare-URL linking in `formatContent` (`linkifyBareUrls`) walks the browser DOM. The
  e-mail, emphasis, code, heading and block-quote passes are regular expressions that the
  model does not scan. Together these passes are the parameter `inline` of
  `ContentFormat.FormatContent`. The proved properties hold whatever `inline` does; the
  passes themselves are not modelled. The bare-URL pass inside table cells is modelled
  (`CellLinks.BareUrls`).
- React rendering, state hooks, toasts, `fetch` calls and the concurrent `Promise.all`
  requests are UI and network I/O. The history updates are modelled as the functions the
  state setters apply.
- The jsPDF, autoTable and XLSX libraries, `splitTextToSize`, `Blob` and the object URLs
  are foreign libraries and browser APIs. Only their inputs and the drawing order are
  modelled. The lines of a paragraph are an input.
- ExportEmit.ExcelSheets and ExportEmit.BlockSheet always give one sheet per block.
  `XLSX.utils.book_append_sheet` throws when a sheet name is already taken, or holds one
  of `: \ / ? * [ ]`, and that aborts `downloadAsExcel`. A name is taken when a block is
  titled `Summary`, or when two titles share their first 31 characters. This failure
  path is not modelled.
- The PDF export's header, section titles, autoTable tables and link overlays
  (`frontend/src/utils/downloadUtils.js:88-205`) are not modelled beyond `addParagraph`,
  the block fallback and the footers.
- HTML parsing is an input: the export works on a parsed element tree, and `textContent`
  on that tree.
- `stripHtml` and `new Date().toLocaleString()` are parameters.
- The analysis agents, the web search, MD5, PyMuPDF's page count, temporary files and the
  chunk upload are parameters.
- SQLAlchemy sessions, datetime arithmetic and the clock are not modelled. The analytics
  cutoff and each row's time are numbers passed in.
- The endpoints for health, database statistics, popular markets, mergers and
  acquisitions, comparison, PDF queries, detailed metrics and top companies are left out.
  They only forward to agents or aggregate through SQL.
- BackendStore.Newest: the newest row is the last one inserted. Two rows with equal
  `created_at`, or a clock that goes backwards, are not modelled.
- BackendStore.PdfHistorySpec: `processed_at desc` is proved only when processing times
  grow with insertion (`StampsAscending`). The clock is a parameter, so the model does not
  rule out a clock that goes backwards, and ties keep insertion order.
- BackendStore.MarketHistorySpec: `created_at desc` is modelled as descending id, as for
  BackendStore.Newest.
- BackendStore.RestorePdfSession: `qa_history` is always the empty list and is not part of
  the record; times are numbers, so `isoformat()` is not modelled.
- BackendStore.Searched: `ILIKE` folds only ASCII letters, and `%` and `_` in the search
  term are taken literally rather than as wildcards.
- BackendStore.Collect: the restored map is a Dafny map, so the key order of the Python
  dictionary is not kept.
- DownloadNames.DownloadModal.HandleDownload: the intermediate `downloading = true` state,
  seen while the emitter runs, is not observable in the model; only the final state is
  stated.
- `markdown_table_to_dataframe` and the pandas part of `parse_markdown_table` are not
  modelled; only the table-location step is.
- Strings are UTF-16 code units, so `\s` and `trim` are modelled on the characters they
  accept. Surrogate pairs are not treated specially.
- The dead module-level helper copies in `frontend/src/components/Dashboard.js:47-213`
  and the component `frontend/src/components/TestInput.js` are left out.
