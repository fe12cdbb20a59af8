/**
 * `formatContent` in the dashboard formatter (frontend/src/components/Dashboard.js,
 * 1337-1391): markdown links become anchors, table runs become tables, a chain of inline
 * passes runs, list lines become list items, line breaks become paragraph and line breaks,
 * and text that holds no block markup is wrapped in one paragraph.
 *
 * The inline passes (bare links through the browser DOM, e-mail addresses, emphasis, code,
 * headings and block quotes) are one function parameter: the properties proved here hold
 * whatever they do.
 */
module ContentFormat {
  import opened JsText
  import opened Markup
  import CellLinks
  import TableBlocks
  import ListFormat

  /** The test before the final wrap: the text already holds a paragraph, a table or a
      heading. */
  predicate Structured(s: string) {
    || Contains(s, "<p class=")
    || Contains(s, "<table")
    || Contains(s, "<h1")
    || Contains(s, "<h2")
    || Contains(s, "<h3")
  }

  /** Step 7: blank lines end a paragraph, other line breaks become `<br/>`. */
  function Breaks(f: Fragments, s: string): string {
    ReplaceAll(ReplaceAll(s, "\n\n", f.paraBreak), "\n", f.lineBreak)
  }

  /** Step 8: wrap unstructured text in one paragraph. */
  function WrapParagraph(f: Fragments, s: string): string {
    if Structured(s) then s else f.paraOpen + s + f.paraClose
  }

  /** Steps 1 to 7, for text that is not empty. */
  function Formatted(f: Fragments, content: string, analysisType: string, inline: string -> string): string {
    var linked := CellLinks.Anchors(f, content, true);
    var tabled := TableBlocks.TablesFormatted(f, linked, analysisType);
    var listed := ListFormat.FormatLists(f, inline(tabled));
    Breaks(f, listed)
  }

  /** `formatContent`: missing or empty content (`!content`) gives the empty string. */
  function FormatContent(f: Fragments, content: Option<string>, analysisType: string, inline: string -> string): string {
    match content
    case None => ""
    case Some(c) => if c == "" then "" else WrapParagraph(f, Formatted(f, c, analysisType, inline))
  }

  /** The markup opens its paragraph with the text the wrap test looks for. */
  predicate ParagraphMarked(f: Fragments) {
    |f.paraOpen| >= 9 && f.paraOpen[..9] == "<p class="
  }

  lemma DashboardParagraph()
    ensures ParagraphMarked(DASHBOARD)
  {
    var mark, rest := "<p class=", "\"mb-4 text-gray-700 leading-relaxed\">";
    assert (mark + rest)[..9] == mark;
    OneLinePrefix(mark + rest, 9);
  }

  /** After step 7 no line break is left, whatever the earlier passes produced. */
  lemma BreaksNoNewline(f: Fragments, s: string)
    requires '\n' !in f.lineBreak
    ensures '\n' !in Breaks(f, s)
  {
    ReplaceCharRemoves(ReplaceAll(s, "\n\n", f.paraBreak), '\n', f.lineBreak);
  }

  /** The wrap is added exactly when the text is unstructured, and afterwards the text is
      always structured: it is never wrapped twice. */
  lemma WrapParagraphSpec(f: Fragments, s: string)
    requires ParagraphMarked(f)
    ensures Structured(s) ==> WrapParagraph(f, s) == s
    ensures !Structured(s) ==> WrapParagraph(f, s) == f.paraOpen + s + f.paraClose
    ensures Structured(WrapParagraph(f, s))
    ensures WrapParagraph(f, WrapParagraph(f, s)) == WrapParagraph(f, s)
  {
    if !Structured(s) {
      var r := f.paraOpen + s + f.paraClose;
      assert r[..9] == "<p class=";
      assert At(r, 0, "<p class=");
      ContainsAt(r, 0, "<p class=");
    }
  }

  /** A wrapped paragraph keeps the text free of line breaks. */
  lemma WrapParagraphNoNewline(f: Fragments, s: string)
    requires OneLineFragments(f) && '\n' !in s
    ensures '\n' !in WrapParagraph(f, s)
  {
  }

  /** What `formatContent` promises: no content gives no text; otherwise the text holds no
      line break and is structured, with the paragraph wrap added only when the formatted
      text had no block markup of its own. */
  lemma FormatContentSpec(f: Fragments, content: Option<string>, analysisType: string, inline: string -> string)
    requires OneLineFragments(f) && ParagraphMarked(f)
    ensures content == None || content == Some("") ==> FormatContent(f, content, analysisType, inline) == ""
    ensures content != None && content != Some("") ==>
              var r := FormatContent(f, content, analysisType, inline);
              var s := Formatted(f, content.value, analysisType, inline);
              && '\n' !in r
              && Structured(r)
              && (Structured(s) <==> r == s)
              && (!Structured(s) <==> r == f.paraOpen + s + f.paraClose)
  {
    if content != None && content != Some("") {
      var s := Formatted(f, content.value, analysisType, inline);
      var r := FormatContent(f, content, analysisType, inline);
      BreaksNoNewline(f, ListFormat.FormatLists(f, inline(TableBlocks.TablesFormatted(f, CellLinks.Anchors(f, content.value, true), analysisType))));
      WrapParagraphSpec(f, s);
      WrapParagraphNoNewline(f, s);
      if !Structured(s) {
        assert |r| == |f.paraOpen| + |s| + |f.paraClose| > |s|;
      }
    }
  }
}
