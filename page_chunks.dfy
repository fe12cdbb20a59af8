/**
 * Page-range chunking of an uploaded PDF (backend/pdf_chunks_util.py and
 * backend/split_and_upload_chunks.py). The PDF library and the upload client are opaque:
 * a document is its page count, and the temporary file written for a chunk and the file id
 * returned by the upload are given by function parameters of the page range.
 */
module PageChunks {

  /** Pages per chunk when the caller gives none. */
  const CHUNK_SIZE: nat := 50

  /** A 1-based, inclusive page range. */
  datatype PageRange = PageRange(start: nat, end: nat)

  /** One element of `split_pdf_to_chunks`'s result: `(start + 1, end, temp_path)`. */
  datatype Chunk = Chunk(start: nat, end: nat, tempPath: string)

  /** One element of `split_and_upload_pdf_chunks`'s result: `{file_id, start, end}`. */
  datatype ChunkRecord = ChunkRecord(fileId: string, start: nat, end: nat)

  /** Python's `range(0, total, 0)` raises `ValueError`; every other step gives a list. */
  datatype SplitResult = Chunks(chunks: seq<Chunk>) | ValueError

  function Min(a: int, b: int): int { if a <= b then a else b }

  /** The ranges produced from 0-based offset `from` on, one per step of `size` pages. */
  function Ranges(total: nat, size: nat, from: nat): seq<PageRange>
    requires size > 0
    decreases total - from
  {
    if from >= total then []
    else [PageRange(from + 1, Min(from + size, total))] + Ranges(total, size, from + size)
  }

  /** The page ranges of a `total`-page document cut into chunks of `size` pages. */
  function ChunkRanges(total: nat, size: nat): seq<PageRange>
    requires size > 0
  {
    Ranges(total, size, 0)
  }

  // ---------------------------------------------------------------------------
  // Properties of the ranges

  /** The k-th range (0-based) is pages `k*size + 1` to `min((k+1)*size, total)`. */
  lemma {:induction false} RangesAt(total: nat, size: nat, from: nat, k: nat)
    requires size > 0 && k < |Ranges(total, size, from)|
    ensures Ranges(total, size, from)[k] == PageRange(from + k * size + 1, Min(from + (k + 1) * size, total))
    decreases total - from
  {
    if k > 0 {
      RangesAt(total, size, from + size, k - 1);
      assert from + size + (k - 1) * size == from + k * size;
    }
  }

  lemma ChunkRangeAt(total: nat, size: nat, k: nat)
    requires size > 0 && k < |ChunkRanges(total, size)|
    ensures ChunkRanges(total, size)[k] == PageRange(k * size + 1, Min((k + 1) * size, total))
  {
    RangesAt(total, size, 0, k);
  }

  /** There are ceil((total - from) / size) ranges: `n` steps of `size` reach `total`, `n - 1` do not. */
  lemma {:induction false} RangesCount(total: nat, size: nat, from: nat)
    requires size > 0
    ensures var n := |Ranges(total, size, from)|;
            from + n * size >= total && (n == 0 || from + (n - 1) * size < total)
    decreases total - from
  {
    if from < total {
      RangesCount(total, size, from + size);
      var n := |Ranges(total, size, from + size)|;
      assert from + (n + 1) * size == from + size + n * size;
    }
  }

  /** The number of chunks is ceil(total / size); an empty document gives no chunk. */
  lemma ChunkCount(total: nat, size: nat)
    requires size > 0
    ensures var n := |ChunkRanges(total, size)|;
            n * size >= total && (n == 0 || (n - 1) * size < total)
    ensures total == 0 <==> ChunkRanges(total, size) == []
    ensures |ChunkRanges(total, size)| == (total + size - 1) / size
  {
    RangesCount(total, size, 0);
    var n := |ChunkRanges(total, size)|;
    if n > 0 {
      assert (n - 1) * size + size == n * size;
      DivBetween(total + size - 1, size, n);
    }
  }

  lemma MulLess(a: int, b: int, d: nat)
    requires d > 0 && a * d < b * d
    ensures a < b
  {
  }

  lemma MulMono(a: nat, b: nat, d: nat)
    requires a <= b
    ensures a * d <= b * d
  {
  }

  /** `n * d <= x < (n + 1) * d` pins `x / d` to `n`. */
  lemma DivBetween(x: nat, d: nat, n: nat)
    requires d > 0 && n * d <= x < (n + 1) * d
    ensures x / d == n
  {
    var q, r := x / d, x % d;
    assert x == q * d + r && 0 <= r < d;
    MulLess(n, q + 1, d);
    MulLess(q, n + 1, d);
  }

  /** The k-th range lies inside the document and is not empty. */
  lemma ChunkRangeBounds(total: nat, size: nat, k: nat)
    requires size > 0 && k < |ChunkRanges(total, size)|
    ensures k * size < total
    ensures k + 1 < |ChunkRanges(total, size)| ==> (k + 1) * size < total
    ensures k + 1 == |ChunkRanges(total, size)| ==> (k + 1) * size >= total
  {
    var n := |ChunkRanges(total, size)|;
    ChunkCount(total, size);
    MulMono(k, n - 1, size);
    if k + 1 < n {
      MulMono(k + 1, n - 1, size);
    }
  }

  /** The first range starts at page 1 and the last ends at page `total`. */
  lemma ChunkRangesEnds(total: nat, size: nat)
    requires size > 0
    ensures var r := ChunkRanges(total, size);
            r != [] ==> r[0].start == 1 && r[|r| - 1].end == total
  {
    var r := ChunkRanges(total, size);
    if r != [] {
      ChunkRangeAt(total, size, 0);
      ChunkRangeAt(total, size, |r| - 1);
      ChunkRangeBounds(total, size, |r| - 1);
    }
  }

  /** Consecutive ranges are adjacent: each starts right after the previous one ends, and
      none is empty; so they never overlap. */
  lemma ChunkRangesContiguous(total: nat, size: nat)
    requires size > 0
    ensures var r := ChunkRanges(total, size);
            && (forall k :: 0 <= k < |r| ==> r[k].start <= r[k].end)
            && (forall k :: 0 <= k < |r| - 1 ==> r[k + 1].start == r[k].end + 1)
  {
    var r := ChunkRanges(total, size);
    forall k | 0 <= k < |r| ensures r[k].start <= r[k].end {
      ChunkRangeAt(total, size, k);
      ChunkRangeBounds(total, size, k);
    }
    forall k | 0 <= k < |r| - 1 ensures r[k + 1].start == r[k].end + 1 {
      ChunkRangeAt(total, size, k);
      ChunkRangeAt(total, size, k + 1);
      ChunkRangeBounds(total, size, k);
    }
  }

  /** Every range has at most `size` pages, and all but the last have exactly `size`. */
  lemma ChunkRangeSizes(total: nat, size: nat)
    requires size > 0
    ensures var r := ChunkRanges(total, size);
            && (forall k :: 0 <= k < |r| ==> r[k].end - r[k].start + 1 <= size)
            && (forall k :: 0 <= k < |r| - 1 ==> r[k].end - r[k].start + 1 == size)
  {
    var r := ChunkRanges(total, size);
    forall k | 0 <= k < |r| ensures r[k].end - r[k].start + 1 <= size {
      ChunkRangeAt(total, size, k);
    }
    forall k | 0 <= k < |r| - 1 ensures r[k].end - r[k].start + 1 == size {
      ChunkRangeAt(total, size, k);
      ChunkRangeBounds(total, size, k);
    }
  }

  /** The ranges from `from` on start after page `from` and end by page `total`. */
  lemma RangesWithin(total: nat, size: nat, from: nat)
    requires size > 0
    ensures forall k :: 0 <= k < |Ranges(total, size, from)| ==>
              from < Ranges(total, size, from)[k].start && Ranges(total, size, from)[k].end <= total
  {
    forall k | 0 <= k < |Ranges(total, size, from)|
      ensures from < Ranges(total, size, from)[k].start && Ranges(total, size, from)[k].end <= total
    {
      RangesAt(total, size, from, k);
    }
  }

  /** Every page after `from` and up to `total` lies in one of the ranges from `from` on. */
  lemma {:induction false} RangesCover(total: nat, size: nat, from: nat, p: int)
    requires size > 0 && from < p <= total
    ensures exists k :: 0 <= k < |Ranges(total, size, from)| && Ranges(total, size, from)[k].start <= p <= Ranges(total, size, from)[k].end
    decreases total - from
  {
    var r := Ranges(total, size, from);
    var rest := Ranges(total, size, from + size);
    assert r == [PageRange(from + 1, Min(from + size, total))] + rest;
    if p > from + size {
      RangesCover(total, size, from + size, p);
      var k :| 0 <= k < |rest| && rest[k].start <= p <= rest[k].end;
      assert r[k + 1] == rest[k];
    } else {
      assert r[0].start <= p <= r[0].end;
    }
  }

  /** No two of the ranges from `from` on share a page. */
  lemma {:induction false} RangesDisjoint(total: nat, size: nat, from: nat, p: int, j: nat, k: nat)
    requires size > 0 && j < k < |Ranges(total, size, from)|
    ensures !(Ranges(total, size, from)[j].start <= p <= Ranges(total, size, from)[j].end
              && Ranges(total, size, from)[k].start <= p <= Ranges(total, size, from)[k].end)
  {
    RangesAt(total, size, from, j);
    RangesAt(total, size, from, k);
    MulMono(j + 1, k, size);
  }

  /** The ranges from `from` on cover pages `from + 1 .. total` exactly, each page once. */
  lemma RangesPartition(total: nat, size: nat, from: nat, p: int)
    requires size > 0
    ensures var r := Ranges(total, size, from);
            (from < p <= total <==> exists k :: 0 <= k < |r| && r[k].start <= p <= r[k].end)
    ensures var r := Ranges(total, size, from);
            forall j, k :: 0 <= j < |r| && 0 <= k < |r| && r[j].start <= p <= r[j].end && r[k].start <= p <= r[k].end ==> j == k
  {
    var r := Ranges(total, size, from);
    RangesWithin(total, size, from);
    if from < p <= total {
      RangesCover(total, size, from, p);
    }
    forall j, k | 0 <= j < |r| && 0 <= k < |r| && r[j].start <= p <= r[j].end && r[k].start <= p <= r[k].end
      ensures j == k
    {
      if j < k {
        RangesDisjoint(total, size, from, p, j, k);
      } else if k < j {
        RangesDisjoint(total, size, from, p, k, j);
      }
    }
  }

  /** The chunk ranges partition pages 1..total: each page lies in exactly one range. */
  lemma ChunkRangesPartition(total: nat, size: nat, p: int)
    requires size > 0
    ensures var r := ChunkRanges(total, size);
            (1 <= p <= total <==> exists k :: 0 <= k < |r| && r[k].start <= p <= r[k].end)
    ensures var r := ChunkRanges(total, size);
            forall j, k :: 0 <= j < |r| && 0 <= k < |r| && r[j].start <= p <= r[j].end && r[k].start <= p <= r[k].end ==> j == k
  {
    assert ChunkRanges(total, size) == Ranges(total, size, 0);
    RangesPartition(total, size, 0, p);
  }

  // ---------------------------------------------------------------------------
  // The two loops

  /** The chunk tuple written for each range. */
  function ToChunks(rs: seq<PageRange>, savedPath: (int, int) -> string): (r: seq<Chunk>)
    ensures |r| == |rs|
  {
    if rs == [] then []
    else [Chunk(rs[0].start, rs[0].end, savedPath(rs[0].start - 1, rs[0].end))] + ToChunks(rs[1..], savedPath)
  }

  /** One loop step emits the chunk of the range at `start`. */
  lemma ChunksStep(total: nat, size: nat, start: nat, savedPath: (int, int) -> string)
    requires size > 0 && start < total
    ensures ToChunks(Ranges(total, size, start), savedPath)
            == [Chunk(start + 1, Min(start + size, total), savedPath(start, Min(start + size, total)))]
               + ToChunks(Ranges(total, size, start + size), savedPath)
  {
    var rest := Ranges(total, size, start + size);
    assert Ranges(total, size, start) == [PageRange(start + 1, Min(start + size, total))] + rest;
    assert ([PageRange(start + 1, Min(start + size, total))] + rest)[1..] == rest;
  }

  /** The loop invariant of `split_pdf_to_chunks`: `chunks` followed by the chunks of the
      ranges from `start` on is the whole result. */
  predicate ChunksSoFar(total: nat, size: nat, start: nat, savedPath: (int, int) -> string, chunks: seq<Chunk>)
    requires size > 0
  {
    chunks + ToChunks(Ranges(total, size, start), savedPath) == ToChunks(ChunkRanges(total, size), savedPath)
  }

  /** The loop invariant survives one step. */
  lemma ChunksAppend(total: nat, size: nat, start: nat, savedPath: (int, int) -> string, chunks: seq<Chunk>)
    requires size > 0 && start < total && ChunksSoFar(total, size, start, savedPath, chunks)
    ensures var end := Min(start + size, total);
            ChunksSoFar(total, size, start + size, savedPath, chunks + [Chunk(start + 1, end, savedPath(start, end))])
  {
    ChunksStep(total, size, start, savedPath);
    var end := Min(start + size, total);
    var c, rest := Chunk(start + 1, end, savedPath(start, end)), ToChunks(Ranges(total, size, start + size), savedPath);
    assert (chunks + [c]) + rest == chunks + ([c] + rest);
  }

  /** Past the last page nothing is left to emit. */
  lemma ChunksDone(total: nat, size: nat, start: nat, savedPath: (int, int) -> string, chunks: seq<Chunk>)
    requires size > 0 && start >= total && ChunksSoFar(total, size, start, savedPath, chunks)
    ensures chunks == ToChunks(ChunkRanges(total, size), savedPath)
  {
    assert Ranges(total, size, start) == [];
    assert chunks + [] == chunks;
  }

  /** The loop of `split_pdf_to_chunks` for a positive step: one chunk per range, in page
      order. */
  method CutChunks(totalPages: nat, size: nat, savedPath: (int, int) -> string)
    returns (chunks: seq<Chunk>)
    requires size > 0
    ensures chunks == ToChunks(ChunkRanges(totalPages, size), savedPath)
  {
    chunks := [];
    var start: nat := 0;
    while start < totalPages
      invariant ChunksSoFar(totalPages, size, start, savedPath, chunks)
      decreases totalPages - start
    {
      var end := Min(start + size, totalPages);
      ChunksAppend(totalPages, size, start, savedPath, chunks);
      chunks := chunks + [Chunk(start + 1, end, savedPath(start, end))];
      start := start + size;
    }
    ChunksDone(totalPages, size, start, savedPath, chunks);
  }

  /** `split_pdf_to_chunks(file, chunk_size)` on a `totalPages`-page document. `savedPath(a, b)` is
      the temporary file written for 1-based pages `a + 1 .. b`. A zero step is Python's
      `ValueError`; a negative step gives an empty range and so no chunks. */
  method SplitPdfToChunks(totalPages: nat, chunkSize: int, savedPath: (int, int) -> string)
    returns (result: SplitResult)
    ensures chunkSize == 0 <==> result == ValueError
    ensures chunkSize < 0 ==> result == Chunks([])
    ensures chunkSize > 0 ==> result == Chunks(ToChunks(ChunkRanges(totalPages, chunkSize), savedPath))
  {
    if chunkSize == 0 {
      result := ValueError;
    } else if chunkSize < 0 {
      result := Chunks([]);
    } else {
      var chunks := CutChunks(totalPages, chunkSize, savedPath);
      result := Chunks(chunks);
    }
  }

  /** The upload record written for each range. */
  function ToRecords(rs: seq<PageRange>, upload: (int, int) -> string): (r: seq<ChunkRecord>)
    ensures |r| == |rs|
  {
    if rs == [] then []
    else [ChunkRecord(upload(rs[0].start - 1, rs[0].end), rs[0].start, rs[0].end)] + ToRecords(rs[1..], upload)
  }

  lemma {:induction false} RecordAt(rs: seq<PageRange>, upload: (int, int) -> string, k: nat)
    requires k < |rs|
    ensures |ToRecords(rs, upload)| == |rs|
    ensures ToRecords(rs, upload)[k] == ChunkRecord(upload(rs[k].start - 1, rs[k].end), rs[k].start, rs[k].end)
  {
    if k > 0 {
      RecordAt(rs[1..], upload, k - 1);
    } else if |rs| > 1 {
      RecordAt(rs[1..], upload, 0);
    }
  }

  /** The loop invariant of `split_and_upload_pdf_chunks`. */
  predicate RecordsSoFar(total: nat, size: nat, start: nat, upload: (int, int) -> string, records: seq<ChunkRecord>)
    requires size > 0
  {
    records + ToRecords(Ranges(total, size, start), upload) == ToRecords(ChunkRanges(total, size), upload)
  }

  /** The upload loop's invariant survives one step. */
  lemma RecordsAppend(total: nat, size: nat, start: nat, upload: (int, int) -> string, records: seq<ChunkRecord>)
    requires size > 0 && start < total && RecordsSoFar(total, size, start, upload, records)
    ensures var end := Min(start + size, total);
            RecordsSoFar(total, size, start + size, upload, records + [ChunkRecord(upload(start, end), start + 1, end)])
  {
    var end := Min(start + size, total);
    var rest := Ranges(total, size, start + size);
    assert Ranges(total, size, start) == [PageRange(start + 1, end)] + rest;
    assert ([PageRange(start + 1, end)] + rest)[1..] == rest;
    var r := ChunkRecord(upload(start, end), start + 1, end);
    assert (records + [r]) + ToRecords(rest, upload) == records + ([r] + ToRecords(rest, upload));
  }

  lemma RecordsDone(total: nat, size: nat, start: nat, upload: (int, int) -> string, records: seq<ChunkRecord>)
    requires size > 0 && start >= total && RecordsSoFar(total, size, start, upload, records)
    ensures records == ToRecords(ChunkRanges(total, size), upload)
  {
    assert Ranges(total, size, start) == [];
    assert records + [] == records;
  }

  /** One record per range, the k-th for pages `k*size + 1 .. min((k+1)*size, total)`. */
  lemma RecordsSpec(total: nat, size: nat, upload: (int, int) -> string)
    requires size > 0
    ensures var records := ToRecords(ChunkRanges(total, size), upload);
            && |records| == (total + size - 1) / size
            && forall k :: 0 <= k < |records| ==>
                 records[k].start == k * size + 1 && records[k].end == Min((k + 1) * size, total)
  {
    var records := ToRecords(ChunkRanges(total, size), upload);
    ChunkCount(total, size);
    forall k | 0 <= k < |records|
      ensures records[k].start == k * size + 1 && records[k].end == Min((k + 1) * size, total)
    {
      ChunkRangeAt(total, size, k);
      RecordAt(ChunkRanges(total, size), upload, k);
    }
  }

  /** `split_and_upload_pdf_chunks(file_stream)`: one record per 50-page range, in page order.
      `upload(a, b)` is the file id the upload of 1-based pages `a + 1 .. b` returns. */
  method SplitAndUploadPdfChunks(totalPages: nat, upload: (int, int) -> string)
    returns (records: seq<ChunkRecord>)
    ensures records == ToRecords(ChunkRanges(totalPages, CHUNK_SIZE), upload)
    ensures |records| == (totalPages + CHUNK_SIZE - 1) / CHUNK_SIZE
    ensures forall k :: 0 <= k < |records| ==>
              records[k].start == k * CHUNK_SIZE + 1 && records[k].end == Min((k + 1) * CHUNK_SIZE, totalPages)
  {
    records := [];
    var start: nat := 0;
    while start < totalPages
      invariant RecordsSoFar(totalPages, CHUNK_SIZE, start, upload, records)
      decreases totalPages - start
    {
      var end := Min(start + CHUNK_SIZE, totalPages);
      RecordsAppend(totalPages, CHUNK_SIZE, start, upload, records);
      records := records + [ChunkRecord(upload(start, end), start + 1, end)];
      start := start + CHUNK_SIZE;
    }
    RecordsDone(totalPages, CHUNK_SIZE, start, upload, records);
    RecordsSpec(totalPages, CHUNK_SIZE, upload);
  }
}
