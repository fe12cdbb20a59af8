/**
 * The download dialog (frontend/src/components/DownloadModal.js, 30-56): the market name is
 * made safe for a file name, the chosen format picks the emitter and the extension, and the
 * `downloading` flag is raised around the emit and lowered again whatever happens.
 *
 * The three emitters (PDF, spreadsheet, Markdown) are not run here: whether the chosen one
 * throws is a parameter of `HandleDownload`.
 */
module DownloadNames {
  import opened JsText

  /** Characters `safe` keeps as they are. */
  predicate SafeChar(c: char) {
    IsAsciiAlnum(c) || c == '_'
  }

  /** `safe`: every character outside `[a-zA-Z0-9]` becomes `_`; a missing or empty name
      gives `analysis`. */
  function Safe(s: Option<string>): (r: string)
    ensures |r| > 0
  {
    match s
    case None => "analysis"
    case Some(t) =>
      if t == "" then "analysis"
      else seq(|t|, i requires 0 <= i < |t| => if IsAsciiAlnum(t[i]) then t[i] else '_')
  }

  /** Every character of a safe name is a letter, a digit or `_`. */
  predicate SafeText(r: string) {
    forall k :: 0 <= k < |r| ==> SafeChar(r[k])
  }

  lemma SafeSpec(s: Option<string>)
    ensures s == None || s == Some("") ==> Safe(s) == "analysis"
    ensures s != None && s != Some("") ==>
              && |Safe(s)| == |s.value|
              && forall k :: 0 <= k < |s.value| ==>
                   (IsAsciiAlnum(s.value[k]) ==> Safe(s)[k] == s.value[k])
                   && (!IsAsciiAlnum(s.value[k]) ==> Safe(s)[k] == '_')
    ensures SafeText(Safe(s))
  {
    if s == None || s == Some("") {
      var r := Safe(s);
      assert r == "analysis";
      forall k | 0 <= k < |r| ensures SafeChar(r[k]) {
        assert r[k] in "analysis";
      }
    }
  }

  /** A safe name is its own safe form, so making it safe twice changes nothing. */
  lemma SafeIdempotent(s: Option<string>)
    ensures Safe(Some(Safe(s))) == Safe(s)
  {
    SafeSpec(s);
    var r := Safe(s);
    var rr := Safe(Some(r));
    assert |rr| == |r|;
    forall k | 0 <= k < |r| ensures rr[k] == r[k] {
      assert SafeChar(r[k]);
    }
  }

  /** The three emitters of the dialog. */
  datatype Emitter = PdfEmitter | ExcelEmitter | MarkdownEmitter

  /** The `switch` on the selected format: `markdown` and every unknown value fall to the
      Markdown emitter. */
  function Dispatch(format: string): (e: Emitter)
    ensures e == PdfEmitter <==> format == "pdf"
    ensures e == ExcelEmitter <==> format == "excel"
  {
    if format == "pdf" then PdfEmitter
    else if format == "excel" then ExcelEmitter
    else MarkdownEmitter
  }

  function Extension(e: Emitter): string {
    match e
    case PdfEmitter => ".pdf"
    case ExcelEmitter => ".xlsx"
    case MarkdownEmitter => ".md"
  }

  /** The name the file is saved under. */
  function FileName(marketName: Option<string>, format: string): string {
    Safe(marketName) + "_analysis" + Extension(Dispatch(format))
  }

  /** The file name is the safe market name, `_analysis` and the emitter's extension; its only
      dot starts the extension, and its last character tells the emitter apart. */
  lemma FileNameSpec(marketName: Option<string>, format: string)
    ensures var n := FileName(marketName, format);
            var ext := Extension(Dispatch(format));
            && |n| > |ext| + 9
            && n[..|Safe(marketName)|] == Safe(marketName)
            && n[|Safe(marketName)|..|n| - |ext|] == "_analysis"
            && n[|n| - |ext|..] == ext
            && n[|n| - |ext|] == '.'
            && (forall k :: 0 <= k < |n| - |ext| ==> n[k] != '.')
            && (format == "pdf" <==> n[|n| - 1] == 'f')
            && (format == "excel" <==> n[|n| - 1] == 'x')
  {
    var safe := Safe(marketName);
    var ext := Extension(Dispatch(format));
    var n := FileName(marketName, format);
    SafeSpec(marketName);
    assert n == safe + "_analysis" + ext;
    forall k | 0 <= k < |n| - |ext| ensures n[k] != '.' {
      if k < |safe| {
        assert n[k] == safe[k] && SafeChar(safe[k]);
      } else {
        assert n[k] == "_analysis"[k - |safe|];
      }
    }
  }

  /** Two requests saved under the same name went to the same emitter. */
  lemma FileNameDeterminesEmitter(m1: Option<string>, f1: string, m2: Option<string>, f2: string)
    requires FileName(m1, f1) == FileName(m2, f2)
    ensures Dispatch(f1) == Dispatch(f2)
  {
    FileNameSpec(m1, f1);
    FileNameSpec(m2, f2);
  }

  /** What the dialog is asked to save. */
  datatype AnalysisData = AnalysisData(marketName: Option<string>)

  /** One call of an emitter. */
  datatype Emit = Emit(emitter: Emitter, fileName: string)

  const FAILURE_ALERT := "Download failed. Please try again."

  /** The dialog's state: its flag, its chosen format, and what it has done so far. */
  class DownloadModal {
    var downloading: bool
    var selectedFormat: string
    var emits: seq<Emit>
    var closes: nat
    var alerts: seq<string>

    constructor ()
      ensures !downloading && selectedFormat == "markdown"
      ensures emits == [] && closes == 0 && alerts == []
    {
      downloading := false;
      selectedFormat := "markdown";
      emits := [];
      closes := 0;
      alerts := [];
    }

    /** `handleDownload`. Without data nothing happens. Otherwise the chosen emitter is
        called once; the dialog closes when it returns and shows the alert when it throws;
        the flag is down again at the end. */
    method HandleDownload(analysisData: Option<AnalysisData>, emitThrows: bool)
      modifies this
      ensures analysisData == None ==>
                && downloading == old(downloading) && emits == old(emits)
                && closes == old(closes) && alerts == old(alerts)
      ensures analysisData != None ==>
                var e := Dispatch(selectedFormat);
                && !downloading
                && emits == old(emits) + [Emit(e, FileName(analysisData.value.marketName, selectedFormat))]
                && closes == old(closes) + (if emitThrows then 0 else 1)
                && alerts == old(alerts) + (if emitThrows then [FAILURE_ALERT] else [])
      ensures selectedFormat == old(selectedFormat)
    {
      if analysisData == None {
        return;
      }
      downloading := true;
      var name := Safe(analysisData.value.marketName) + "_analysis";
      var e: Emitter;
      if selectedFormat == "pdf" {
        e := PdfEmitter;
      } else if selectedFormat == "excel" {
        e := ExcelEmitter;
      } else {
        e := MarkdownEmitter;
      }
      emits := emits + [Emit(e, name + Extension(e))];
      if !emitThrows {
        closes := closes + 1;
      } else {
        alerts := alerts + [FAILURE_ALERT];
      }
      downloading := false;
    }
  }
}
