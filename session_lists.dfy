/**
 * The dashboard's session lists (frontend/src/components/Dashboard.js): the history of
 * follow-up analyses kept by `analyzeFromTable` (1833-1914), the PDF comparison uploads
 * merged by `handlePdfComparisonUpload`, and the checks `runComparison` makes before it
 * sends them (704-729).
 *
 * React's state setters become functions from the old list to the new one. The requests
 * made between starting and completing an analysis are left out; the completed or failed
 * entry is a parameter.
 */
module SessionLists {
  import opened JsText

  // ---------------------------------------------------------------------------
  // Analysis history

  /** One history entry. `id` is the clock reading taken when the analysis started. */
  datatype Analysis = Analysis(
    marketName: string,
    analysisType: string,
    metrics: string,
    companies: string,
    loading: bool,
    timestamp: string,
    id: int)

  const HISTORY_LIMIT: nat := 10

  predicate SameKey(a: Analysis, marketName: string, analysisType: string) {
    a.marketName == marketName && a.analysisType == analysisType
  }

  /** The entries that do not share the key, in order. */
  function WithoutKey(history: seq<Analysis>, marketName: string, analysisType: string): (r: seq<Analysis>)
    ensures |r| <= |history|
    decreases |history|
  {
    if history == [] then []
    else
      var rest := WithoutKey(history[1..], marketName, analysisType);
      if SameKey(history[0], marketName, analysisType) then rest else [history[0]] + rest
  }

  /** The cached analysis `analyzeFromTable` reuses: the first finished entry with the key. */
  function FindCached(history: seq<Analysis>, marketName: string, analysisType: string): (r: Option<nat>)
    ensures r.Some? ==> r.value < |history|
    decreases |history|
  {
    if history == [] then None
    else if SameKey(history[0], marketName, analysisType) && !history[0].loading then Some(0)
    else
      match FindCached(history[1..], marketName, analysisType)
      case None => None
      case Some(i) => Some(i + 1)
  }

  /** Starting an analysis: drop the entries with the same key, put the new one first and
      keep at most ten. */
  function StartAnalysis(history: seq<Analysis>, entry: Analysis): seq<Analysis> {
    Take([entry] + WithoutKey(history, entry.marketName, entry.analysisType), HISTORY_LIMIT)
  }

  /** Completing or failing an analysis: the entry with the id is replaced. */
  function ReplaceById(history: seq<Analysis>, id: int, done: Analysis): (r: seq<Analysis>)
    ensures |r| == |history|
  {
    seq(|history|, i requires 0 <= i < |history| => if history[i].id == id then done else history[i])
  }

  /** The failed form of a started entry: loading ends and both texts become the error
      markup. */
  function Failed(started: Analysis, metricsError: string, companiesError: string): (r: Analysis)
    ensures r.id == started.id && !r.loading
  {
    started.(loading := false, metrics := metricsError, companies := companiesError)
  }

  /** `FindCached` finds the first finished entry with the key, or says there is none. */
  lemma {:induction false} FindCachedSpec(history: seq<Analysis>, marketName: string, analysisType: string)
    ensures var r := FindCached(history, marketName, analysisType);
            && (r.Some? ==> SameKey(history[r.value], marketName, analysisType) && !history[r.value].loading)
            && (r.Some? ==> forall k :: 0 <= k < r.value ==> !(SameKey(history[k], marketName, analysisType) && !history[k].loading))
            && (r.None? ==> forall k :: 0 <= k < |history| ==> !(SameKey(history[k], marketName, analysisType) && !history[k].loading))
    decreases |history|
  {
    if history != [] {
      FindCachedSpec(history[1..], marketName, analysisType);
      assert forall k :: 1 <= k < |history| ==> history[k] == history[1..][k - 1];
    }
  }

  /** `WithoutKey` keeps exactly the entries without the key, in their order. */
  lemma {:induction false} WithoutKeySpec(history: seq<Analysis>, marketName: string, analysisType: string)
    ensures var r := WithoutKey(history, marketName, analysisType);
            && (forall i :: 0 <= i < |r| ==> !SameKey(r[i], marketName, analysisType))
            && (forall a :: a in r <==> a in history && !SameKey(a, marketName, analysisType))
            && IsSubsequence(r, history)
    decreases |history|
  {
    if history == [] {
      SubsequenceEmpty(history);
    } else {
      WithoutKeySpec(history[1..], marketName, analysisType);
      assert history == [history[0]] + history[1..];
      SubsequenceCons(WithoutKey(history[1..], marketName, analysisType), history[1..], history[0]);
    }
  }

  /** Starting an analysis keeps at most ten entries with the new one first; no other entry
      has its key; the others are the newest of the old entries without the key, in their
      old order, so the oldest are the ones evicted, and none is lost while fewer than ten
      remain. */
  lemma StartAnalysisSpec(history: seq<Analysis>, entry: Analysis)
    ensures var rest := WithoutKey(history, entry.marketName, entry.analysisType);
            var r := StartAnalysis(history, entry);
            && |r| == (if 1 + |rest| < HISTORY_LIMIT then 1 + |rest| else HISTORY_LIMIT)
            && r[0] == entry
            && r[1..] == rest[..|r| - 1]
            && (forall i :: 1 <= i < |r| ==> !SameKey(r[i], entry.marketName, entry.analysisType))
            && (forall i :: 1 <= i < |r| ==> r[i] in history)
            && IsSubsequence(r[1..], history)
            && (|rest| < HISTORY_LIMIT ==> forall a :: a in history && !SameKey(a, entry.marketName, entry.analysisType) ==> a in r)
  {
    var rest := WithoutKey(history, entry.marketName, entry.analysisType);
    var r := StartAnalysis(history, entry);
    WithoutKeySpec(history, entry.marketName, entry.analysisType);
    assert forall i :: 1 <= i < |r| ==> r[i] == rest[i - 1];
    assert r[1..] == rest[..|r| - 1];
    SubsequencePrefix(rest, |r| - 1, history);
    if |rest| < HISTORY_LIMIT {
      assert r == [entry] + rest;
    }
  }

  /** Completion or failure replaces exactly the entries with the id and keeps the length;
      when the history holds the id once, exactly that entry changes. */
  lemma ReplaceByIdSpec(history: seq<Analysis>, id: int, done: Analysis)
    ensures var r := ReplaceById(history, id, done);
            && |r| == |history|
            && (forall i :: 0 <= i < |r| && history[i].id != id ==> r[i] == history[i])
            && (forall i :: 0 <= i < |r| && history[i].id == id ==> r[i] == done)
            && ((forall i :: 0 <= i < |history| ==> history[i].id != id) ==> r == history)
  {
  }

  /** After a start, completing with the same id replaces the new head and nothing else when
      the older entries carry other ids. */
  lemma StartThenComplete(history: seq<Analysis>, entry: Analysis, done: Analysis)
    requires forall i :: 0 <= i < |history| ==> history[i].id != entry.id
    ensures var started := StartAnalysis(history, entry);
            var r := ReplaceById(started, entry.id, done);
            && |r| == |started| && r[0] == done && r[1..] == started[1..]
  {
    var started := StartAnalysis(history, entry);
    StartAnalysisSpec(history, entry);
    var r := ReplaceById(started, entry.id, done);
    forall i | 1 <= i < |started| ensures r[i] == started[i] {
      assert started[i] in history;
    }
  }

  // ---------------------------------------------------------------------------
  // Comparison uploads

  datatype Upload = Upload(name: string, mimeType: string)

  const UPLOAD_LIMIT: nat := 5

  predicate IsPdf(u: Upload) {
    u.mimeType == "application/pdf"
  }

  /** The PDFs among the chosen files, in order. */
  function Pdfs(files: seq<Upload>): (r: seq<Upload>)
    ensures |r| <= |files|
    decreases |files|
  {
    if files == [] then []
    else
      var rest := Pdfs(files[..|files| - 1]);
      if IsPdf(files[|files| - 1]) then rest + [files[|files| - 1]] else rest
  }

  /** Names taken by the uploads. */
  function Names(us: seq<Upload>): set<string> {
    set i | 0 <= i < |us| :: us[i].name
  }

  /** `findIndex(f => f.name === name)`, with `|us|` for none. */
  function FirstWithName(us: seq<Upload>, name: string): (r: nat)
    ensures r <= |us|
    ensures r < |us| ==> us[r].name == name
    ensures forall k :: 0 <= k < r ==> us[k].name != name
    decreases |us|
  {
    if us == [] then 0 else if us[0].name == name then 0 else 1 + FirstWithName(us[1..], name)
  }

  lemma {:induction false} FirstWithNameSnoc(us: seq<Upload>, u: Upload, name: string)
    ensures name in Names(us) ==> FirstWithName(us + [u], name) == FirstWithName(us, name)
    ensures name !in Names(us) && u.name == name ==> FirstWithName(us + [u], name) == |us|
    decreases |us|
  {
    var all := us + [u];
    if us == [] {
      assert all == [u];
    } else {
      assert all[1..] == us[1..] + [u];
      FirstWithNameSnoc(us[1..], u, name);
      if name in Names(us) && us[0].name != name {
        var i :| 0 <= i < |us| && us[i].name == name;
        assert us[1..][i - 1].name == name;
      }
      if name !in Names(us) {
        assert us[0].name in Names(us);
        forall n | n in Names(us[1..]) ensures n in Names(us) {
          var i :| 0 <= i < |us[1..]| && us[1..][i].name == n;
          assert us[i + 1].name == n;
        }
      }
    }
  }

  /** The filter `index === self.findIndex(f => f.name === file.name)`: each file whose name
      no earlier file has. */
  function FirstByName(us: seq<Upload>): (r: seq<Upload>)
    ensures |r| <= |us|
    decreases |us|
  {
    if us == [] then []
    else
      var init := us[..|us| - 1];
      var last := us[|us| - 1];
      if last.name in Names(init) then FirstByName(init) else FirstByName(init) + [last]
  }

  /** `handlePdfComparisonUpload`: no files leaves the list as it is; otherwise the PDFs are
      appended, later files with a name already present are dropped and five are kept. */
  function MergeUploads(current: seq<Upload>, files: Option<seq<Upload>>): seq<Upload> {
    match files
    case None => current
    case Some(fs) => if fs == [] then current else Take(FirstByName(current + Pdfs(fs)), UPLOAD_LIMIT)
  }

  lemma {:induction false} PdfsSpec(files: seq<Upload>)
    ensures forall u :: u in Pdfs(files) <==> u in files && IsPdf(u)
    decreases |files|
  {
    if files != [] {
      var init := files[..|files| - 1];
      PdfsSpec(init);
      assert files == init + [files[|files| - 1]];
    }
  }

  lemma NamesSnoc(us: seq<Upload>, u: Upload)
    ensures Names(us + [u]) == Names(us) + {u.name}
  {
    var all := us + [u];
    forall n | n in Names(all) ensures n in Names(us) + {u.name} {
      var i :| 0 <= i < |all| && all[i].name == n;
      if i < |us| {
        assert all[i] == us[i];
      }
    }
    forall n | n in Names(us) + {u.name} ensures n in Names(all) {
      if n in Names(us) {
        var i :| 0 <= i < |us| && us[i].name == n;
        assert all[i] == us[i];
      } else {
        assert all[|us|] == u;
      }
    }
  }

  /** `FirstByName` keeps unique names, each the first file with that name, in order, and
      every name of its input. */
  lemma {:induction false} FirstByNameSpec(us: seq<Upload>)
    ensures var r := FirstByName(us);
            && (forall i, j :: 0 <= i < j < |r| ==> r[i].name != r[j].name)
            && (forall u :: u in r ==> u in us)
            && Names(r) == Names(us)
            && (forall i :: 0 <= i < |r| ==> FirstWithName(us, r[i].name) < |us| && r[i] == us[FirstWithName(us, r[i].name)])
    decreases |us|
  {
    if us != [] {
      var init, last := us[..|us| - 1], us[|us| - 1];
      var r0 := FirstByName(init);
      FirstByNameSpec(init);
      assert us == init + [last];
      NamesSnoc(init, last);
      forall i | 0 <= i < |r0| ensures FirstWithName(us, r0[i].name) == FirstWithName(init, r0[i].name) {
        assert r0[i] in r0 && r0[i].name in Names(r0);
        FirstWithNameSnoc(init, last, r0[i].name);
      }
      FirstWithNameSnoc(init, last, last.name);
      if last.name !in Names(init) {
        NamesSnoc(r0, last);
        assert us[..|init|] == init;
        var r := r0 + [last];
        forall i, j | 0 <= i < j < |r| ensures r[i].name != r[j].name {
          if j == |r0| {
            assert r[i] in r0;
            assert r[i].name in Names(r0);
          }
        }
      }
    }
  }

  /** What the merge promises: no files leaves the list as it was; otherwise at most five
      files with unique names remain, every file added is a chosen PDF, each file kept is
      the first of its name in the combined list, and when fewer than five remain every
      name offered by the list or by a chosen PDF is present. */
  lemma MergeUploadsSpec(current: seq<Upload>, files: Option<seq<Upload>>)
    ensures files == None || files == Some([]) ==> MergeUploads(current, files) == current
    ensures files.Some? && files.value != [] ==>
              var combined := current + Pdfs(files.value);
              var r := MergeUploads(current, files);
              && |r| <= UPLOAD_LIMIT
              && (forall i, j :: 0 <= i < j < |r| ==> r[i].name != r[j].name)
              && (forall u :: u in r ==> u in current || (u in files.value && IsPdf(u)))
              && (forall i :: 0 <= i < |r| ==> FirstWithName(combined, r[i].name) < |combined| && r[i] == combined[FirstWithName(combined, r[i].name)])
              && (|r| < UPLOAD_LIMIT ==> Names(r) == Names(combined))
              && IsSubsequence(r, combined)
  {
    if files.Some? && files.value != [] {
      var combined := current + Pdfs(files.value);
      var all := FirstByName(combined);
      var r := MergeUploads(current, files);
      FirstByNameSpec(combined);
      PdfsSpec(files.value);
      assert forall u :: u in combined ==> u in current || u in Pdfs(files.value);
      assert r == all[..|r|];
      if |r| < UPLOAD_LIMIT {
        assert r == all;
      }
      FirstByNameOrder(combined);
      SubsequencePrefix(all, |r|, combined);
    }
  }

  /** The order of the kept files is their order in the combined list. */
  lemma {:induction false} FirstByNameOrder(us: seq<Upload>)
    ensures IsSubsequence(FirstByName(us), us)
    decreases |us|
  {
    if us == [] {
      SubsequenceEmpty(us);
    } else {
      var init, last := us[..|us| - 1], us[|us| - 1];
      assert us == init + [last];
      FirstByNameOrder(init);
      SubsequenceSnoc(FirstByName(init), init, last);
    }
  }

  // ---------------------------------------------------------------------------
  // runComparison

  datatype Outcome = Send | Reject(message: string)

  const TOO_FEW_FILES := "Please upload at least two PDFs to compare."
  const NO_PROMPT := "Please enter a prompt for comparison."

  /** The checks `runComparison` makes before its request, in their order. */
  function CheckComparison(files: Option<seq<Upload>>, prompt: string): Outcome {
    if files == None || |files.value| < 2 then Reject(TOO_FEW_FILES)
    else if Trim(prompt) == [] then Reject(NO_PROMPT)
    else Send
  }

  /** Fewer than two files is reported whatever the prompt; a blank prompt only when there
      are enough files; the request is sent exactly when both checks pass. */
  lemma CheckComparisonSpec(files: Option<seq<Upload>>, prompt: string)
    ensures (files == None || |files.value| < 2) ==> CheckComparison(files, prompt) == Reject(TOO_FEW_FILES)
    ensures CheckComparison(files, prompt) == Reject(NO_PROMPT) <==>
              files.Some? && |files.value| >= 2 && forall k :: 0 <= k < |prompt| ==> IsSpace(prompt[k])
    ensures CheckComparison(files, prompt) == Send <==>
              files.Some? && |files.value| >= 2 && exists k :: 0 <= k < |prompt| && !IsSpace(prompt[k])
  {
    TrimEmptyIff(prompt);
  }

  /** The trimmed text is empty exactly when every character is white space. */
  lemma TrimEmptyIff(s: string)
    ensures Trim(s) == [] <==> forall k :: 0 <= k < |s| ==> IsSpace(s[k])
  {
    TrimStartSpec(s);
    TrimEndSpec(TrimStart(s));
    if Trim(s) == [] {
      assert |TrimStart(s)| == 0 || TrimEnd(TrimStart(s)) == [];
    }
  }
}
