/**
 * The database-backed endpoints of the API (backend/fastapi_wrapper.py): the cached market
 * analyses, the upload history of PDFs, the analytics log, and the history, restore and
 * delete endpoints over them.
 *
 * The SQL tables are sequences of rows in insertion order; the row-creation clock only
 * moves forward, so "newest first" is the reverse of insertion order. The analysis
 * agents, the web search, the MD5 digest and the PDF page count are function parameters,
 * and every call into them is recorded.
 */
module BackendStore {
  import opened JsText
  import PageChunks

  type Bytes = seq<bv8>

  /** A row of `market_analysis`. */
  datatype MarketRow = MarketRow(id: nat, market: string, analysisType: string, data: string, createdAt: nat)

  /** A row of `pdf_history` (its integer key is never read, so it is left out). */
  datatype PdfRow = PdfRow(pdfId: string, filename: string, chunks: seq<PageChunks.ChunkRecord>, processedAt: nat)

  /** A row of `analytics`; `detail` is the single value of its `data` object. */
  datatype Event = Event(eventType: string, detail: string, timestamp: nat)

  /** The cached market endpoints. */
  datatype Endpoint =
    | GlobalOverview | VerticalSegments | Applications | TechnologySegments
    | RegionalAnalysis | EndUserAnalysis | ProductCategories

  /** A call into code outside the API: an analysis agent, the PDF splitter, the web search. */
  datatype Call = AgentCall(endpoint: Endpoint, market: string) | SplitCall(content: Bytes) | SearchCall(query: string)

  /** The body of a cached market endpoint; the technology-segments endpoint returns none
      when it computes. */
  datatype MarketResponse = Served(data: string, cached: bool) | NoBody

  /** A result, or a 404 with its detail. */
  datatype Outcome<T> = Ok(value: T) | NotFound(detail: string)

  /** The `analysis_type` an endpoint caches under. */
  function AnalysisType(e: Endpoint): string {
    match e
    case GlobalOverview => "global"
    case VerticalSegments => "vertical"
    case Applications => "applications"
    case TechnologySegments => "technology_segments"
    case RegionalAnalysis => "regional"
    case EndUserAnalysis => "end_user"
    case ProductCategories => "product_categories"
  }

  /** No two endpoints share a cache key. */
  lemma AnalysisTypeInjective(e1: Endpoint, e2: Endpoint)
    requires AnalysisType(e1) == AnalysisType(e2)
    ensures e1 == e2
  {
  }

  // ---------------------------------------------------------------------------
  // Market analyses

  predicate IsKey(row: MarketRow, market: string, t: string) {
    row.market == market && row.analysisType == t
  }

  /** The cache lookup: the newest row for the market and the analysis type. */
  function Newest(rows: seq<MarketRow>, market: string, t: string): (r: Option<nat>)
    ensures r.Some? ==> r.value < |rows| && IsKey(rows[r.value], market, t)
    ensures r.Some? ==> forall j :: r.value < j < |rows| ==> !IsKey(rows[j], market, t)
    ensures r.None? ==> forall j :: 0 <= j < |rows| ==> !IsKey(rows[j], market, t)
  {
    if rows == [] then None
    else if IsKey(rows[|rows| - 1], market, t) then Some(|rows| - 1)
    else Newest(rows[..|rows| - 1], market, t)
  }

  /** Row ids grow with insertion, and every id is positive. */
  predicate AscendingIds(rows: seq<MarketRow>) {
    && (forall i, j :: 0 <= i < j < |rows| ==> rows[i].id < rows[j].id)
    && (forall i :: 0 <= i < |rows| ==> rows[i].id >= 1)
  }

  /** SQLite's key for a new row of a table with an integer primary key: one more than the
      largest key in use, or 1 for an empty table. */
  function NextId(rows: seq<MarketRow>): nat {
    if rows == [] then 1 else rows[|rows| - 1].id + 1
  }

  /** The table after a cached endpoint: a miss adds the computed row, a hit adds nothing. */
  function Stored(rows: seq<MarketRow>, market: string, t: string, data: string, now: nat): seq<MarketRow> {
    if Newest(rows, market, t).Some? then rows
    else rows + [MarketRow(NextId(rows), market, t, data, now)]
  }

  lemma StoredAscending(rows: seq<MarketRow>, market: string, t: string, data: string, now: nat)
    requires AscendingIds(rows)
    ensures AscendingIds(Stored(rows, market, t, data, now))
  {
  }

  /** After an endpoint has answered, the same request is a cache hit serving the data it
      answered with. */
  lemma StoredServesAgain(rows: seq<MarketRow>, market: string, t: string, data: string, now: nat)
    ensures var after := Stored(rows, market, t, data, now);
            var before := Newest(rows, market, t);
            && Newest(after, market, t).Some?
            && after[Newest(after, market, t).value].data == (if before.Some? then rows[before.value].data else data)
  {
    var after := Stored(rows, market, t, data, now);
    if Newest(rows, market, t).None? {
      assert IsKey(after[|after| - 1], market, t);
    }
  }

  /** An endpoint leaves what is cached for every other key as it was. */
  lemma StoredKeepsOtherKeys(rows: seq<MarketRow>, market: string, t: string, data: string, now: nat, m2: string, t2: string)
    requires m2 != market || t2 != t
    ensures Newest(Stored(rows, market, t, data, now), m2, t2) == Newest(rows, m2, t2)
  {
    var after := Stored(rows, market, t, data, now);
    if after != rows {
      assert after[..|after| - 1] == rows;
    }
  }

  // ---------------------------------------------------------------------------
  // PDF history

  /** The upload lookup: the first row with the digest. */
  function FirstPdf(pdfs: seq<PdfRow>, pdfId: string): (r: Option<nat>)
    ensures r.Some? ==> r.value < |pdfs| && pdfs[r.value].pdfId == pdfId
    ensures r.Some? ==> forall j :: 0 <= j < r.value ==> pdfs[j].pdfId != pdfId
    ensures r.None? ==> forall j :: 0 <= j < |pdfs| ==> pdfs[j].pdfId != pdfId
  {
    if pdfs == [] then None
    else if pdfs[0].pdfId == pdfId then Some(0)
    else
      var r := FirstPdf(pdfs[1..], pdfId);
      if r.Some? then Some(r.value + 1) else None
  }

  /** `pdf_id` is a unique column. */
  predicate UniquePdfIds(pdfs: seq<PdfRow>) {
    forall i, j :: 0 <= i < j < |pdfs| ==> pdfs[i].pdfId != pdfs[j].pdfId
  }

  /** The table after an upload: new content adds its row, known content adds nothing. */
  function Uploaded(pdfs: seq<PdfRow>, pdfId: string, filename: string, chunks: seq<PageChunks.ChunkRecord>, now: nat): seq<PdfRow> {
    if FirstPdf(pdfs, pdfId).Some? then pdfs else pdfs + [PdfRow(pdfId, filename, chunks, now)]
  }

  /** Uploads keep the digests unique, and uploading the same bytes again finds the row
      with the chunks the first upload answered with. */
  lemma UploadedSpec(pdfs: seq<PdfRow>, pdfId: string, filename: string, chunks: seq<PageChunks.ChunkRecord>, now: nat)
    ensures UniquePdfIds(pdfs) ==> UniquePdfIds(Uploaded(pdfs, pdfId, filename, chunks, now))
    ensures var after := Uploaded(pdfs, pdfId, filename, chunks, now);
            var before := FirstPdf(pdfs, pdfId);
            && FirstPdf(after, pdfId).Some?
            && after[FirstPdf(after, pdfId).value].chunks == (if before.Some? then pdfs[before.value].chunks else chunks)
  {
    var after := Uploaded(pdfs, pdfId, filename, chunks, now);
    if FirstPdf(pdfs, pdfId).None? {
      var i := FirstPdf(after, pdfId);
      assert after[|pdfs|].pdfId == pdfId;
      assert i.Some?;
      assert i.value == |pdfs|;
    }
  }

  /** One entry of the PDF session history. */
  datatype PdfEntry = PdfEntry(pdfId: string, fileName: string, chunksCount: nat, processedAt: nat)

  /** One entry of the market analysis history. */
  datatype MarketEntry = MarketEntry(id: nat, marketName: string, queryType: string, createdAt: nat)

  /** A restored PDF session. */
  datatype PdfSession = PdfSession(pdfId: string, fileName: string, chunksCount: nat, processedAt: nat,
                                   chunks: seq<PageChunks.ChunkRecord>)

  /** SQL `ILIKE '%term%'`: the term occurs, ignoring the case of ASCII letters. */
  predicate Ilike(s: string, term: string) {
    exists i :: 0 <= i <= |s| - |term| && FoldedAt(s, i, term)
  }

  predicate FoldedAt(s: string, i: nat, term: string) {
    i + |term| <= |s| && forall k :: 0 <= k < |term| ==> AsciiLower(s[i + k]) == AsciiLower(term[k])
  }

  /** `if request.search_term:` filters, an empty term does not. */
  predicate Searched(s: string, term: string) {
    term == "" || Ilike(s, term)
  }

  /** SQL `LIMIT`: none, or a negative one, keeps every row. */
  function Limited<T>(s: seq<T>, limit: Option<int>): (r: seq<T>)
    ensures |r| <= |s| && r == s[..|r|]
    ensures limit.Some? && limit.value >= 0 ==> |r| <= limit.value
    ensures |r| == LimitCount(|s|, limit)
    ensures limit.None? || limit.value < 0 ==> r == s
  {
    if limit.None? || limit.value < 0 then s else Take(s, limit.value)
  }

  /** How many of `n` rows a `LIMIT` keeps: `min(limit, n)`, or all of them without a
      limit or under a negative one. */
  function LimitCount(n: nat, limit: Option<int>): nat {
    if limit.Some? && 0 <= limit.value < n then limit.value else n
  }

  /** The PDF rows whose file name matches the term, newest first. */
  function PdfMatches(pdfs: seq<PdfRow>, term: string): seq<PdfRow> {
    if pdfs == [] then []
    else
      var p := pdfs[|pdfs| - 1];
      (if Searched(p.filename, term) then [p] else []) + PdfMatches(pdfs[..|pdfs| - 1], term)
  }

  function PdfEntryOf(p: PdfRow): PdfEntry {
    PdfEntry(p.pdfId, p.filename, |p.chunks|, p.processedAt)
  }

  /** `get_pdf_history`. */
  function PdfHistory(pdfs: seq<PdfRow>, term: string, limit: Option<int>): seq<PdfEntry> {
    var rows := Limited(PdfMatches(pdfs, term), limit);
    seq(|rows|, k requires 0 <= k < |rows| => PdfEntryOf(rows[k]))
  }

  lemma {:induction false} PdfMatchesMembers(pdfs: seq<PdfRow>, term: string)
    ensures var m := PdfMatches(pdfs, term);
            && (forall p :: p in m ==> p in pdfs && Searched(p.filename, term))
            && (forall p :: p in pdfs && Searched(p.filename, term) ==> p in m)
  {
    if pdfs != [] {
      var n := |pdfs| - 1;
      PdfMatchesMembers(pdfs[..n], term);
      assert pdfs == pdfs[..n] + [pdfs[n]];
    }
  }

  /** An id no row has is the id of no matching row. */
  lemma {:induction false} PdfMatchesAvoid(pdfs: seq<PdfRow>, term: string, id: string)
    requires forall k :: 0 <= k < |pdfs| ==> pdfs[k].pdfId != id
    ensures forall k :: 0 <= k < |PdfMatches(pdfs, term)| ==> PdfMatches(pdfs, term)[k].pdfId != id
  {
    if pdfs != [] {
      PdfMatchesAvoid(pdfs[..|pdfs| - 1], term, id);
    }
  }

  lemma {:induction false} PdfMatchesUnique(pdfs: seq<PdfRow>, term: string)
    requires UniquePdfIds(pdfs)
    ensures UniquePdfIds(PdfMatches(pdfs, term))
  {
    if pdfs != [] {
      var n := |pdfs| - 1;
      var init := pdfs[..n];
      assert UniquePdfIds(init);
      PdfMatchesUnique(init, term);
      var m := PdfMatches(pdfs, term);
      var rest := PdfMatches(init, term);
      if Searched(pdfs[n].filename, term) {
        forall k | 0 <= k < |init| ensures init[k].pdfId != pdfs[n].pdfId {
          assert init[k] == pdfs[k];
        }
        PdfMatchesAvoid(init, term, pdfs[n].pdfId);
        assert m == [pdfs[n]] + rest;
        forall i, j | 0 <= i < j < |m| ensures m[i].pdfId != m[j].pdfId {
          assert m[j] == rest[j - 1];
          if i > 0 {
            assert m[i] == rest[i - 1];
          }
        }
      } else {
        assert m == rest;
      }
    }
  }

  /** Processing times never fall along the table: rows are inserted as time goes on. */
  predicate StampsAscending(pdfs: seq<PdfRow>) {
    forall i, j :: 0 <= i < j < |pdfs| ==> pdfs[i].processedAt <= pdfs[j].processedAt
  }

  /** A bound on the processing times of all rows bounds those of the matching ones. */
  lemma {:induction false} PdfMatchesBefore(pdfs: seq<PdfRow>, term: string, bound: nat)
    requires forall k :: 0 <= k < |pdfs| ==> pdfs[k].processedAt <= bound
    ensures forall k :: 0 <= k < |PdfMatches(pdfs, term)| ==> PdfMatches(pdfs, term)[k].processedAt <= bound
  {
    if pdfs != [] {
      PdfMatchesBefore(pdfs[..|pdfs| - 1], term, bound);
    }
  }

  /** Processing times never rise along the sequence. */
  predicate StampsDescending(m: seq<PdfRow>) {
    forall i, j :: 0 <= i < j < |m| ==> m[i].processedAt >= m[j].processedAt
  }

  /** With processing times in insertion order, the matches are newest first by time. */
  lemma {:induction false} PdfMatchesNewestFirst(pdfs: seq<PdfRow>, term: string)
    requires StampsAscending(pdfs)
    ensures StampsDescending(PdfMatches(pdfs, term))
  {
    if pdfs != [] {
      var n := |pdfs| - 1;
      var init := pdfs[..n];
      assert StampsAscending(init);
      PdfMatchesNewestFirst(init, term);
      var m := PdfMatches(pdfs, term);
      var rest := PdfMatches(init, term);
      if Searched(pdfs[n].filename, term) {
        forall k | 0 <= k < n ensures init[k].processedAt <= pdfs[n].processedAt {
          assert init[k] == pdfs[k];
        }
        PdfMatchesBefore(init, term, pdfs[n].processedAt);
        assert m == [pdfs[n]] + rest;
        forall i, j | 0 <= i < j < |m| ensures m[i].processedAt >= m[j].processedAt {
          assert m[j] == rest[j - 1];
          if i > 0 {
            assert m[i] == rest[i - 1];
          }
        }
      } else {
        assert m == rest;
      }
    }
  }

  /** With processing times in insertion order, the history is newest first by time. */
  lemma PdfHistoryNewestFirst(pdfs: seq<PdfRow>, term: string, limit: Option<int>)
    requires StampsAscending(pdfs)
    ensures var h := PdfHistory(pdfs, term, limit);
            forall i, j :: 0 <= i < j < |h| ==> h[i].processedAt >= h[j].processedAt
  {
    PdfMatchesNewestFirst(pdfs, term);
    var all := PdfMatches(pdfs, term);
    var rows := Limited(all, limit);
    var h := PdfHistory(pdfs, term, limit);
    forall i, j | 0 <= i < j < |h| ensures h[i].processedAt >= h[j].processedAt {
      assert rows[i] == all[i] && rows[j] == all[j];
    }
  }

  /** What `get_pdf_history` promises: the first `min(limit, #matches)` matching rows,
      newest first, each the summary of a row whose file name matches, with
      `chunks_count` the number of its chunks, and no PDF listed twice. */
  lemma PdfHistorySpec(pdfs: seq<PdfRow>, term: string, limit: Option<int>)
    requires UniquePdfIds(pdfs)
    ensures var h := PdfHistory(pdfs, term, limit);
            var all := PdfMatches(pdfs, term);
            && |h| == LimitCount(|all|, limit)
            && (forall k :: 0 <= k < |h| ==> h[k] == PdfEntryOf(all[k]))
            && (StampsAscending(pdfs) ==> forall i, j :: 0 <= i < j < |h| ==> h[i].processedAt >= h[j].processedAt)
            && (limit.Some? && limit.value >= 0 ==> |h| <= limit.value)
            && (forall e :: e in h ==> exists p :: p in pdfs && Searched(p.filename, term) && e == PdfEntryOf(p))
            && (forall e :: e in h ==> exists p :: p in pdfs && p.pdfId == e.pdfId && e.chunksCount == |p.chunks|)
            && (forall i, j :: 0 <= i < j < |h| ==> h[i].pdfId != h[j].pdfId)
            && (limit.None? ==> forall p :: p in pdfs && Searched(p.filename, term) ==> PdfEntryOf(p) in h)
  {
    PdfMatchesMembers(pdfs, term);
    PdfMatchesUnique(pdfs, term);
    var all := PdfMatches(pdfs, term);
    var rows := Limited(all, limit);
    var h := PdfHistory(pdfs, term, limit);
    forall e | e in h ensures exists p :: p in pdfs && Searched(p.filename, term) && e == PdfEntryOf(p) {
      var k :| 0 <= k < |h| && h[k] == e;
      assert rows[k] == all[k] && all[k] in all;
    }
    forall e | e in h ensures exists p :: p in pdfs && p.pdfId == e.pdfId && e.chunksCount == |p.chunks| {
      var k :| 0 <= k < |h| && h[k] == e;
      assert rows[k] == all[k] && all[k] in all;
    }
    forall i, j | 0 <= i < j < |h| ensures h[i].pdfId != h[j].pdfId {
      assert rows[i] == all[i] && rows[j] == all[j];
    }
    if StampsAscending(pdfs) {
      PdfHistoryNewestFirst(pdfs, term, limit);
    }
    if limit.None? {
      forall p | p in pdfs && Searched(p.filename, term) ensures PdfEntryOf(p) in h {
        var k :| 0 <= k < |all| && all[k] == p;
        assert h[k] == PdfEntryOf(p);
      }
    }
  }

  /** The market analyses whose market matches the term, newest first. */
  function MarketMatches(rows: seq<MarketRow>, term: string): seq<MarketRow> {
    if rows == [] then []
    else
      var r := rows[|rows| - 1];
      (if Searched(r.market, term) then [r] else []) + MarketMatches(rows[..|rows| - 1], term)
  }

  function MarketEntryOf(r: MarketRow): MarketEntry {
    MarketEntry(r.id, r.market, r.analysisType, r.createdAt)
  }

  /** `get_market_history`. */
  function MarketHistory(rows: seq<MarketRow>, term: string, limit: Option<int>): seq<MarketEntry> {
    var ms := Limited(MarketMatches(rows, term), limit);
    seq(|ms|, k requires 0 <= k < |ms| => MarketEntryOf(ms[k]))
  }

  /** Ids fall along the matching rows: they are newest first. */
  lemma {:induction false} MarketMatchesMembers(rows: seq<MarketRow>, term: string)
    ensures var m := MarketMatches(rows, term);
            && (forall r :: r in m ==> r in rows && Searched(r.market, term))
            && (forall r :: r in rows && Searched(r.market, term) ==> r in m)
  {
    if rows != [] {
      var n := |rows| - 1;
      MarketMatchesMembers(rows[..n], term);
      assert rows == rows[..n] + [rows[n]];
    }
  }

  /** A bound on the ids of all rows bounds the ids of the matching ones. */
  lemma {:induction false} MarketMatchesBelow(rows: seq<MarketRow>, term: string, bound: int)
    requires forall k :: 0 <= k < |rows| ==> rows[k].id < bound
    ensures forall k :: 0 <= k < |MarketMatches(rows, term)| ==> MarketMatches(rows, term)[k].id < bound
  {
    if rows != [] {
      var n := |rows| - 1;
      MarketMatchesBelow(rows[..n], term, bound);
    }
  }

  /** Ids strictly fall along the sequence. */
  predicate DescendingIds(m: seq<MarketRow>) {
    forall i, j :: 0 <= i < j < |m| ==> m[i].id > m[j].id
  }

  lemma {:induction false} MarketMatchesDescending(rows: seq<MarketRow>, term: string)
    requires AscendingIds(rows)
    ensures DescendingIds(MarketMatches(rows, term))
  {
    if rows != [] {
      var n := |rows| - 1;
      var init := rows[..n];
      assert AscendingIds(init);
      MarketMatchesDescending(init, term);
      var m := MarketMatches(rows, term);
      var rest := MarketMatches(init, term);
      if Searched(rows[n].market, term) {
        assert forall k :: 0 <= k < n ==> init[k].id < rows[n].id by {
          forall k | 0 <= k < n ensures init[k].id < rows[n].id {
            assert init[k] == rows[k];
          }
        }
        MarketMatchesBelow(init, term, rows[n].id);
        assert m == [rows[n]] + rest;
        forall i, j | 0 <= i < j < |m| ensures m[i].id > m[j].id {
          assert m[j] == rest[j - 1];
          if i > 0 {
            assert m[i] == rest[i - 1];
          } else {
            assert m[0] == rows[n] && rest[j - 1].id < rows[n].id;
          }
        }
      } else {
        assert m == rest;
      }
    }
  }

  /** The market history is newest (largest id) first. */
  lemma MarketHistoryNewestFirst(rows: seq<MarketRow>, term: string, limit: Option<int>)
    requires AscendingIds(rows)
    ensures var h := MarketHistory(rows, term, limit);
            forall i, j :: 0 <= i < j < |h| ==> h[i].id > h[j].id
  {
    MarketMatchesDescending(rows, term);
    var all := MarketMatches(rows, term);
    var ms := Limited(all, limit);
    var h := MarketHistory(rows, term, limit);
    forall i, j | 0 <= i < j < |h| ensures h[i].id > h[j].id {
      assert ms[i] == all[i] && ms[j] == all[j];
    }
  }

  /** What `get_market_history` promises: the first `min(limit, #matches)` matching rows,
      each a row whose market matches, newest (largest id) first; without a limit every
      matching row is listed. */
  lemma MarketHistorySpec(rows: seq<MarketRow>, term: string, limit: Option<int>)
    requires AscendingIds(rows)
    ensures var h := MarketHistory(rows, term, limit);
            var all := MarketMatches(rows, term);
            && |h| == LimitCount(|all|, limit)
            && (forall k :: 0 <= k < |h| ==> h[k] == MarketEntryOf(all[k]))
            && (limit.Some? && limit.value >= 0 ==> |h| <= limit.value)
            && (forall e :: e in h ==> exists r :: r in rows && Searched(r.market, term) && e == MarketEntryOf(r))
            && (forall i, j :: 0 <= i < j < |h| ==> h[i].id > h[j].id)
            && (limit.None? ==> forall r :: r in rows && Searched(r.market, term) ==> MarketEntryOf(r) in h)
  {
    MarketMatchesMembers(rows, term);
    MarketHistoryNewestFirst(rows, term, limit);
    var all := MarketMatches(rows, term);
    var ms := Limited(all, limit);
    var h := MarketHistory(rows, term, limit);
    forall e | e in h ensures exists r :: r in rows && Searched(r.market, term) && e == MarketEntryOf(r) {
      var k :| 0 <= k < |h| && h[k] == e;
      assert ms[k] == all[k] && all[k] in all;
    }
    if limit.None? {
      forall r | r in rows && Searched(r.market, term) ensures MarketEntryOf(r) in h {
        var k :| 0 <= k < |all| && all[k] == r;
        assert h[k] == MarketEntryOf(r);
      }
    }
  }

  /** `restore_pdf_session`. */
  function RestorePdfSession(pdfs: seq<PdfRow>, pdfId: string): (r: Outcome<PdfSession>)
    ensures r.NotFound? <==> forall p :: p in pdfs ==> p.pdfId != pdfId
    ensures r.NotFound? ==> r.detail == "PDF session not found"
    ensures r.Ok? ==> exists p :: p in pdfs && p.pdfId == pdfId && r.value == PdfSession(pdfId, p.filename, |p.chunks|, p.processedAt, p.chunks)
  {
    var i := FirstPdf(pdfs, pdfId);
    if i.None? then NotFound("PDF session not found")
    else
      var p := pdfs[i.value];
      assert p in pdfs;
      Ok(PdfSession(p.pdfId, p.filename, |p.chunks|, p.processedAt, p.chunks))
  }

  // ---------------------------------------------------------------------------
  // Analytics

  /** The rows of the window: at or after the cutoff, in table order, each as often as
      the table holds it. */
  function Window(events: seq<Event>, cutoff: nat): (r: seq<Event>)
    ensures |r| <= |events|
    ensures forall e :: e in r ==> e in events && e.timestamp >= cutoff
    ensures forall e :: e in events && e.timestamp >= cutoff ==> e in r
  {
    if events == [] then []
    else
      var e := events[|events| - 1];
      Window(events[..|events| - 1], cutoff) + (if e.timestamp >= cutoff then [e] else [])
  }

  /** Each event of the window is there as many times as the table holds it. */
  lemma {:induction false} WindowMultiplicity(events: seq<Event>, cutoff: nat)
    ensures forall e :: multiset(Window(events, cutoff))[e] == if e.timestamp >= cutoff then multiset(events)[e] else 0
  {
    if events != [] {
      var n := |events| - 1;
      WindowMultiplicity(events[..n], cutoff);
      assert events == events[..n] + [events[n]];
    }
  }

  /** The window keeps the table's order: it is a subsequence of the events. */
  lemma {:induction false} WindowInOrder(events: seq<Event>, cutoff: nat)
    ensures IsSubsequence(Window(events, cutoff), events)
  {
    if events == [] {
      SubsequenceEmpty(events);
    } else {
      var n := |events| - 1;
      var init, w := events[..n], Window(events[..n], cutoff);
      WindowInOrder(init, cutoff);
      SubsequenceSnoc(w, init, events[n]);
      assert events == init + [events[n]];
      if events[n].timestamp >= cutoff {
        assert Window(events, cutoff) == w + [events[n]];
      } else {
        assert Window(events, cutoff) == w;
      }
    }
  }

  /** The number of events at or after the cutoff. */
  function CountSince(events: seq<Event>, cutoff: nat): nat {
    if events == [] then 0
    else CountSince(events[..|events| - 1], cutoff) + (if events[|events| - 1].timestamp >= cutoff then 1 else 0)
  }

  /** `total_events` counts every event at or after the cutoff, once per row. */
  lemma {:induction false} WindowCount(events: seq<Event>, cutoff: nat)
    ensures |Window(events, cutoff)| == CountSince(events, cutoff)
  {
    if events != [] {
      WindowCount(events[..|events| - 1], cutoff);
    }
  }

  /** One entry of the breakdown (a Python dict keeps its keys in insertion order). */
  datatype Tally = Tally(eventType: string, count: nat)

  /** `event_counts[t] = event_counts.get(t, 0) + 1` */
  function Bump(ts: seq<Tally>, t: string): (r: seq<Tally>)
    ensures |r| >= |ts|
  {
    if ts == [] then [Tally(t, 1)]
    else if ts[0].eventType == t then [ts[0].(count := ts[0].count + 1)] + ts[1..]
    else [ts[0]] + Bump(ts[1..], t)
  }

  /** The breakdown of a sequence of rows. */
  function Tallies(rows: seq<Event>): seq<Tally> {
    if rows == [] then [] else Bump(Tallies(rows[..|rows| - 1]), rows[|rows| - 1].eventType)
  }

  /** What the breakdown says about one type: its count, or 0 when it has no entry. */
  function CountIn(ts: seq<Tally>, t: string): nat {
    if ts == [] then 0 else if ts[0].eventType == t then ts[0].count else CountIn(ts[1..], t)
  }

  /** The number of rows of one type. */
  function Occurrences(rows: seq<Event>, t: string): nat {
    if rows == [] then 0
    else Occurrences(rows[..|rows| - 1], t) + (if rows[|rows| - 1].eventType == t then 1 else 0)
  }

  function SumCounts(ts: seq<Tally>): nat {
    if ts == [] then 0 else ts[0].count + SumCounts(ts[1..])
  }

  /** The types the breakdown has an entry for. */
  function Keys(ts: seq<Tally>): set<string> {
    if ts == [] then {} else {ts[0].eventType} + Keys(ts[1..])
  }

  /** No type has two entries. */
  predicate Distinct(ts: seq<Tally>) {
    ts == [] || (ts[0].eventType !in Keys(ts[1..]) && Distinct(ts[1..]))
  }

  predicate Positive(ts: seq<Tally>) {
    forall k :: 0 <= k < |ts| ==> ts[k].count >= 1
  }

  /** The types of the rows. */
  function EventTypes(rows: seq<Event>): set<string> {
    if rows == [] then {} else EventTypes(rows[..|rows| - 1]) + {rows[|rows| - 1].eventType}
  }

  /** One bump adds one to the type's count and to the total. */
  lemma {:induction false} BumpCounts(ts: seq<Tally>, t: string)
    ensures forall u :: CountIn(Bump(ts, t), u) == CountIn(ts, u) + (if u == t then 1 else 0)
    ensures SumCounts(Bump(ts, t)) == SumCounts(ts) + 1
    decreases |ts|
  {
    if ts != [] {
      var b := Bump(ts, t);
      if ts[0].eventType != t {
        BumpCounts(ts[1..], t);
        assert b[1..] == Bump(ts[1..], t);
      } else {
        assert b[1..] == ts[1..];
      }
    }
  }

  /** One bump adds the type to the keys, keeps them distinct and every count positive. */
  lemma {:induction false} BumpKeys(ts: seq<Tally>, t: string)
    ensures Keys(Bump(ts, t)) == Keys(ts) + {t}
    ensures Distinct(ts) ==> Distinct(Bump(ts, t))
    ensures Positive(ts) ==> Positive(Bump(ts, t))
    decreases |ts|
  {
    if ts != [] {
      var b := Bump(ts, t);
      if ts[0].eventType != t {
        BumpKeys(ts[1..], t);
        assert b[1..] == Bump(ts[1..], t);
      } else {
        assert b[1..] == ts[1..];
      }
    }
  }

  /** What `get_analytics` promises of its breakdown: each type of the window has exactly
      one entry, holding the number of its rows, no other type has one, and the counts add
      up to the number of rows. */
  lemma {:induction false} TalliesSpec(rows: seq<Event>)
    ensures var ts := Tallies(rows);
            && Distinct(ts)
            && Positive(ts)
            && Keys(ts) == EventTypes(rows)
            && (forall u :: CountIn(ts, u) == Occurrences(rows, u))
            && SumCounts(ts) == |rows|
  {
    if rows != [] {
      var n := |rows| - 1;
      TalliesSpec(rows[..n]);
      BumpCounts(Tallies(rows[..n]), rows[n].eventType);
      BumpKeys(Tallies(rows[..n]), rows[n].eventType);
    }
  }

  // ---------------------------------------------------------------------------
  // Restore

  /** The market's rows, in table order (`filter_by(market=...)`). */
  function MarketRows(rows: seq<MarketRow>, market: string): seq<MarketRow> {
    if rows == [] then []
    else
      var r := rows[|rows| - 1];
      MarketRows(rows[..|rows| - 1], market) + (if r.market == market then [r] else [])
  }

  /** The loop of `restore_market_analysis`: each row's data under its type, later rows
      overwriting earlier ones. */
  function Collect(rows: seq<MarketRow>): map<string, string> {
    if rows == [] then map[]
    else
      var r := rows[|rows| - 1];
      Collect(rows[..|rows| - 1])[r.analysisType := r.data]
  }

  /** The data of the last row of a type. */
  function LastOfType(rows: seq<MarketRow>, t: string): Option<string> {
    if rows == [] then None
    else if rows[|rows| - 1].analysisType == t then Some(rows[|rows| - 1].data)
    else LastOfType(rows[..|rows| - 1], t)
  }

  lemma {:induction false} CollectSpec(rows: seq<MarketRow>)
    ensures forall t :: t in Collect(rows) <==> LastOfType(rows, t).Some?
    ensures forall t :: t in Collect(rows) ==> Collect(rows)[t] == LastOfType(rows, t).value
  {
    if rows != [] {
      CollectSpec(rows[..|rows| - 1]);
    }
  }

  /** Within the market's rows, the last row of a type is the one the cache serves. */
  lemma {:induction false} MarketRowsLast(rows: seq<MarketRow>, market: string, t: string)
    ensures var i := Newest(rows, market, t);
            LastOfType(MarketRows(rows, market), t) == if i.Some? then Some(rows[i.value].data) else None
  {
    if rows != [] {
      var n := |rows| - 1;
      MarketRowsLast(rows[..n], market, t);
      var init := MarketRows(rows[..n], market);
      var m := MarketRows(rows, market);
      if rows[n].market == market {
        assert m == init + [rows[n]];
        assert m[..|m| - 1] == init;
        assert m[|m| - 1] == rows[n];
      } else {
        assert m == init;
      }
    }
  }

  /** What `restore_market_analysis` promises: a 404 exactly when the market has no row;
      otherwise one entry per analysis type the market has, holding the data the cache
      would serve for it. */
  lemma RestoreSpec(rows: seq<MarketRow>, market: string)
    ensures MarketRows(rows, market) == [] <==> forall j :: 0 <= j < |rows| ==> rows[j].market != market
    ensures var restored := Collect(MarketRows(rows, market));
            && (forall t :: t in restored <==> Newest(rows, market, t).Some?)
            && (forall t :: t in restored ==> restored[t] == rows[Newest(rows, market, t).value].data)
  {
    MarketRowsEmpty(rows, market);
    CollectSpec(MarketRows(rows, market));
    forall t ensures LastOfType(MarketRows(rows, market), t) == (var i := Newest(rows, market, t); if i.Some? then Some(rows[i.value].data) else None) {
      MarketRowsLast(rows, market, t);
    }
  }

  lemma {:induction false} MarketRowsEmpty(rows: seq<MarketRow>, market: string)
    ensures MarketRows(rows, market) == [] <==> forall j :: 0 <= j < |rows| ==> rows[j].market != market
  {
    if rows != [] {
      var n := |rows| - 1;
      MarketRowsEmpty(rows[..n], market);
      forall j | 0 <= j < n ensures rows[j] == rows[..n][j] { }
    }
  }

  // ---------------------------------------------------------------------------
  // Delete

  /** The delete lookup: the first row with the id. */
  function FindId(rows: seq<MarketRow>, id: int): (r: Option<nat>)
    ensures r.Some? ==> r.value < |rows| && rows[r.value].id == id
    ensures r.None? ==> forall j :: 0 <= j < |rows| ==> rows[j].id != id
  {
    if rows == [] then None
    else if rows[0].id == id then Some(0)
    else
      var r := FindId(rows[1..], id);
      if r.Some? then Some(r.value + 1) else None
  }

  function RemoveAt<T>(s: seq<T>, i: nat): (r: seq<T>)
    requires i < |s|
    ensures |r| == |s| - 1
    ensures forall j :: 0 <= j < i ==> r[j] == s[j]
    ensures forall j :: i <= j < |r| ==> r[j] == s[j + 1]
  {
    s[..i] + s[i + 1..]
  }

  /** Deleting by id removes exactly the row with that id and keeps the others in order. */
  lemma DeleteMarketExactly(rows: seq<MarketRow>, i: nat)
    requires AscendingIds(rows) && i < |rows|
    ensures var r := RemoveAt(rows, i);
            && AscendingIds(r)
            && (forall j :: 0 <= j < |r| ==> r[j].id != rows[i].id)
            && (forall row :: row in rows && row.id != rows[i].id ==> row in r)
  {
    var r := RemoveAt(rows, i);
    forall row | row in rows && row.id != rows[i].id ensures row in r {
      var k :| 0 <= k < |rows| && rows[k] == row;
      if k < i { assert r[k] == row; } else { assert r[k - 1] == row; }
    }
  }

  /** Deleting by digest removes exactly the PDF with that digest and keeps the others. */
  lemma DeletePdfExactly(pdfs: seq<PdfRow>, i: nat)
    requires UniquePdfIds(pdfs) && i < |pdfs|
    ensures var r := RemoveAt(pdfs, i);
            && UniquePdfIds(r)
            && (forall j :: 0 <= j < |r| ==> r[j].pdfId != pdfs[i].pdfId)
            && (forall p :: p in pdfs && p.pdfId != pdfs[i].pdfId ==> p in r)
  {
    var r := RemoveAt(pdfs, i);
    forall p | p in pdfs && p.pdfId != pdfs[i].pdfId ensures p in r {
      var k :| 0 <= k < |pdfs| && pdfs[k] == p;
      if k < i { assert r[k] == p; } else { assert r[k - 1] == p; }
    }
  }

  // ---------------------------------------------------------------------------
  // The database and its endpoints

  const MARKET_NOT_FOUND := "Market analysis not found"
  const MARKET_HISTORY_NOT_FOUND := "Market history not found"
  const PDF_HISTORY_NOT_FOUND := "PDF history not found"

  class Store {
    var analyses: seq<MarketRow>
    var pdfs: seq<PdfRow>
    var events: seq<Event>
    var calls: seq<Call>

    predicate Valid()
      reads this
    {
      AscendingIds(analyses) && UniquePdfIds(pdfs)
    }

    /** An empty database. */
    constructor ()
      ensures Valid()
      ensures analyses == [] && pdfs == [] && events == [] && calls == []
    {
      analyses := [];
      pdfs := [];
      events := [];
      calls := [];
    }

    /** `log_analytics` */
    method LogAnalytics(eventType: string, detail: string, now: nat)
      modifies this
      ensures events == old(events) + [Event(eventType, detail, now)]
      ensures analyses == old(analyses) && pdfs == old(pdfs) && calls == old(calls)
    {
      events := events + [Event(eventType, detail, now)];
    }

    /** A cached market endpoint. A hit serves the newest row's data and adds no row; a miss
        calls the agent once and adds exactly one row. Only the global overview logs an
        event, on a hit as on a miss. */
    method ServeMarket(e: Endpoint, market: string, agent: (Endpoint, string) -> string, now: nat) returns (resp: MarketResponse)
      requires Valid()
      modifies this
      ensures Valid()
      ensures var t := AnalysisType(e);
              var hit := Newest(old(analyses), market, t);
              && analyses == Stored(old(analyses), market, t, agent(e, market), now)
              && (hit.Some? ==> resp == Served(old(analyses)[hit.value].data, true) && calls == old(calls))
              && (hit.None? ==>
                    && resp == (if e == TechnologySegments then NoBody else Served(agent(e, market), false))
                    && calls == old(calls) + [AgentCall(e, market)])
              && events == old(events) +
                   (if e != GlobalOverview then []
                    else [Event(if hit.Some? then "market_analysis_cached" else "market_analysis", market, now)])
      ensures pdfs == old(pdfs)
    {
      var t := AnalysisType(e);
      var hit := Newest(analyses, market, t);
      if hit.Some? {
        var cached := analyses[hit.value];
        if e == GlobalOverview {
          LogAnalytics("market_analysis_cached", market, now);
        }
        resp := Served(cached.data, true);
        return;
      }
      var result := agent(e, market);
      calls := calls + [AgentCall(e, market)];
      analyses := analyses + [MarketRow(NextId(analyses), market, t, result, now)];
      if e == GlobalOverview {
        LogAnalytics("market_analysis", market, now);
      }
      if e == TechnologySegments {
        resp := NoBody;
      } else {
        resp := Served(result, false);
      }
    }

    /** `web_research`: the search runs, and one event is logged. */
    method WebResearch(query: string, search: string -> string, now: nat) returns (data: string)
      modifies this
      ensures data == search(query)
      ensures calls == old(calls) + [SearchCall(query)]
      ensures events == old(events) + [Event("web_research", query, now)]
      ensures analyses == old(analyses) && pdfs == old(pdfs)
    {
      data := search(query);
      calls := calls + [SearchCall(query)];
      LogAnalytics("web_research", query, now);
    }

    /** `upload_document`: bytes whose digest is known answer with the stored chunks and
        are neither split nor stored again; new bytes are split into chunks of 50 pages,
        uploaded and stored under their digest. */
    method UploadDocument(content: Bytes, filename: string, md5: Bytes -> string, pageCount: Bytes -> nat,
                          upload: (int, int) -> string, now: nat)
      returns (chunks: seq<PageChunks.ChunkRecord>, pdfId: string)
      requires Valid()
      modifies this
      ensures Valid()
      ensures pdfId == md5(content)
      ensures var split := PageChunks.ToRecords(PageChunks.ChunkRanges(pageCount(content), PageChunks.CHUNK_SIZE), upload);
              var known := FirstPdf(old(pdfs), md5(content));
              && pdfs == Uploaded(old(pdfs), md5(content), filename, split, now)
              && (known.Some? ==> chunks == old(pdfs)[known.value].chunks && calls == old(calls))
              && (known.None? ==> chunks == split && calls == old(calls) + [SplitCall(content)])
      ensures analyses == old(analyses) && events == old(events)
    {
      var fileHash := md5(content);
      var existing := FirstPdf(pdfs, fileHash);
      if existing.Some? {
        chunks, pdfId := pdfs[existing.value].chunks, pdfs[existing.value].pdfId;
        return;
      }
      calls := calls + [SplitCall(content)];
      chunks := PageChunks.SplitAndUploadPdfChunks(pageCount(content), upload);
      pdfId := fileHash;
      UploadedSpec(pdfs, pdfId, filename, chunks, now);
      pdfs := pdfs + [PdfRow(pdfId, filename, chunks, now)];
    }

    /** `get_analytics`: the number of rows since the cutoff and the count per event type. */
    method GetAnalytics(cutoff: nat) returns (total: nat, breakdown: seq<Tally>)
      ensures total == |Window(events, cutoff)| == CountSince(events, cutoff)
      ensures breakdown == Tallies(Window(events, cutoff))
    {
      var rows := Window(events, cutoff);
      WindowCount(events, cutoff);
      breakdown := [];
      var i := 0;
      while i < |rows|
        invariant 0 <= i <= |rows|
        invariant breakdown == Tallies(rows[..i])
      {
        assert rows[..i + 1][..i] == rows[..i];
        breakdown := Bump(breakdown, rows[i].eventType);
        i := i + 1;
      }
      assert rows[..i] == rows;
      total := |rows|;
    }

    /** `restore_market_analysis` */
    method RestoreMarketAnalysis(marketName: string) returns (r: Outcome<map<string, string>>)
      ensures var rows := MarketRows(analyses, marketName);
              r == if rows == [] then NotFound(MARKET_NOT_FOUND) else Ok(Collect(rows))
    {
      var rows := MarketRows(analyses, marketName);
      if rows == [] {
        return NotFound(MARKET_NOT_FOUND);
      }
      var restored: map<string, string> := map[];
      var i := 0;
      while i < |rows|
        invariant 0 <= i <= |rows|
        invariant restored == Collect(rows[..i])
      {
        assert rows[..i + 1][..i] == rows[..i];
        restored := restored[rows[i].analysisType := rows[i].data];
        i := i + 1;
      }
      assert rows[..i] == rows;
      r := Ok(restored);
    }

    /** `delete_market_history`: a 404 when no row has the id, otherwise that row goes. */
    method DeleteMarketHistory(marketId: int) returns (r: Outcome<string>)
      requires Valid()
      modifies this
      ensures Valid()
      ensures var i := FindId(old(analyses), marketId);
              && (i.None? ==> r == NotFound(MARKET_HISTORY_NOT_FOUND) && analyses == old(analyses))
              && (i.Some? ==>
                    && r == Ok("Deleted market history id=" + NatToString(old(analyses)[i.value].id))
                    && analyses == RemoveAt(old(analyses), i.value))
      ensures pdfs == old(pdfs) && events == old(events) && calls == old(calls)
    {
      var i := FindId(analyses, marketId);
      if i.None? {
        return NotFound(MARKET_HISTORY_NOT_FOUND);
      }
      var row := analyses[i.value];
      DeleteMarketExactly(analyses, i.value);
      analyses := RemoveAt(analyses, i.value);
      r := Ok("Deleted market history id=" + NatToString(row.id));
    }

    /** `delete_pdf_history`: a 404 when no row has the digest, otherwise that row goes. */
    method DeletePdfHistory(pdfId: string) returns (r: Outcome<string>)
      requires Valid()
      modifies this
      ensures Valid()
      ensures var i := FirstPdf(old(pdfs), pdfId);
              && (i.None? ==> r == NotFound(PDF_HISTORY_NOT_FOUND) && pdfs == old(pdfs))
              && (i.Some? ==> r == Ok("Deleted PDF history pdf_id=" + pdfId) && pdfs == RemoveAt(old(pdfs), i.value))
      ensures analyses == old(analyses) && events == old(events) && calls == old(calls)
    {
      var i := FirstPdf(pdfs, pdfId);
      if i.None? {
        return NotFound(PDF_HISTORY_NOT_FOUND);
      }
      DeletePdfExactly(pdfs, i.value);
      pdfs := RemoveAt(pdfs, i.value);
      r := Ok("Deleted PDF history pdf_id=" + pdfId);
    }
  }
}
