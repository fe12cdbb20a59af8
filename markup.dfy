/**
 * The fixed markup the dashboard formatter writes (frontend/src/components/Dashboard.js,
 * lines 1345, 1376-1387, 1497-1547 and 1556-1568).
 *
 * The formatting functions take the fragments as a value of `Fragments`, and the proofs
 * about them need only that no fragment holds a line break; `DASHBOARD` holds the strings
 * the source writes.
 */
module Markup {

  /** `s` with each line break turned into a space. The fragments of `DASHBOARD` are written
      through it: their literals hold no line break, so it returns each unchanged, and its
      contract tells the verifier that they hold none without a check character by
      character. */
  function OneLine(s: string): (r: string)
    ensures '\n' !in r
  {
    seq(|s|, i requires 0 <= i < |s| => if s[i] == '\n' then ' ' else s[i])
  }

  /** `OneLine` keeps a prefix without line breaks as it is. */
  lemma OneLinePrefix(s: string, n: nat)
    requires n <= |s| && '\n' !in s[..n]
    ensures OneLine(s)[..n] == s[..n]
  {
    forall i | 0 <= i < n ensures OneLine(s)[i] == s[i] {
      assert s[i] == s[..n][i];
    }
  }

  /** The fragments of markup the formatter puts around the text it rewrites. */
  datatype Fragments = Fragments(
    anchorOpen: string,
    iconAnchorAttrs: string,
    iconAnchorClose: string,
    anchorAttrs: string,
    anchorClose: string,
    tableOpen: string,
    tableClose: string,
    headOpen: string,
    headClose: string,
    thOpen: string,
    thClose: string,
    rowOpen: string,
    rowClose: string,
    tdOpen: string,
    tdClose: string,
    buttonOpen: string,
    buttonType: string,
    buttonTitle: string,
    buttonLabel: string,
    buttonClose: string,
    liNumberedOpen: string,
    liBulletOpen: string,
    liClose: string,
    listAttrs: string,
    paraOpen: string,
    paraBreak: string,
    paraClose: string,
    lineBreak: string)

  /** No fragment holds a line break. */
  predicate OneLineFragments(f: Fragments) {
    '\n' !in f.anchorOpen
    && '\n' !in f.iconAnchorAttrs
    && '\n' !in f.iconAnchorClose
    && '\n' !in f.anchorAttrs
    && '\n' !in f.anchorClose
    && '\n' !in f.tableOpen
    && '\n' !in f.tableClose
    && '\n' !in f.headOpen
    && '\n' !in f.headClose
    && '\n' !in f.thOpen
    && '\n' !in f.thClose
    && '\n' !in f.rowOpen
    && '\n' !in f.rowClose
    && '\n' !in f.tdOpen
    && '\n' !in f.tdClose
    && '\n' !in f.buttonOpen
    && '\n' !in f.buttonType
    && '\n' !in f.buttonTitle
    && '\n' !in f.buttonLabel
    && '\n' !in f.buttonClose
    && '\n' !in f.liNumberedOpen
    && '\n' !in f.liBulletOpen
    && '\n' !in f.liClose
    && '\n' !in f.listAttrs
    && '\n' !in f.paraOpen
    && '\n' !in f.paraBreak
    && '\n' !in f.paraClose
    && '\n' !in f.lineBreak
  }

  /** The markup of the dashboard. */
  const DASHBOARD: Fragments := Fragments(
    // Opens an anchor; the URL follows.
    anchorOpen := OneLine("<a href=\""),
    // Closes the `href` of an in-text link anchor.
    iconAnchorAttrs := OneLine("\" target=\"_blank\" rel=\"noopener noreferrer\" class=\"text-blue-600 hover:text-blue-800 underline inline-flex items-center\">"),
    // The external-link icon and the end of an in-text link anchor.
    iconAnchorClose := OneLine(" <svg class=\"w-3 h-3 ml-1\" fill=\"none\" stroke=\"currentColor\" viewBox=\"0 0 24 24\"><path stroke-linecap=\"round\" stroke-linejoin=\"round\" stroke-width=\"2\" d=\"M10 6H6a2 2 0 00-2 2v10a2 2 0 002 2h10a2 2 0 002-2v-4M14 4h6m0 0v6m0-6L10 14\"></path></svg></a>"),
    // Closes the `href` of a table-cell anchor.
    anchorAttrs := OneLine("\" target=\"_blank\" rel=\"noopener noreferrer\" class=\"text-blue-600 hover:text-blue-800 underline\">"),
    anchorClose := OneLine("</a>"),
    // Opens a rendered table.
    tableOpen := OneLine("<div class=\"overflow-x-auto my-6\"><table class=\"min-w-full bg-white border border-gray-200 rounded-lg shadow-sm\">"),
    // Closes a rendered table.
    tableClose := OneLine("</tbody></table></div>"),
    // Opens the header row.
    headOpen := OneLine("<thead class=\"bg-gray-50\"><tr>"),
    // Closes the header row and opens the body.
    headClose := OneLine("</tr></thead><tbody class=\"divide-y divide-gray-200\">"),
    thOpen := OneLine("<th class=\"px-4 py-3 text-left text-xs font-semibold text-gray-900 uppercase tracking-wider border-b border-gray-200\">"),
    thClose := OneLine("</th>"),
    // Opens a body row.
    rowOpen := OneLine("<tr class=\"hover:bg-gray-50 transition-colors\">"),
    rowClose := OneLine("</tr>"),
    // Opens a plain body cell.
    tdOpen := OneLine("<td class=\"px-4 py-3 text-sm text-gray-700 border-b border-gray-100\">"),
    tdClose := OneLine("</td>"),
    // Opens a clickable first cell; the market name follows.
    buttonOpen := OneLine("<td class=\"px-4 py-3 text-sm border-b border-gray-100\"><button data-market-name=\""),
    buttonType := OneLine("\" data-analysis-type=\""),
    buttonTitle := OneLine("\" class=\"clickable-market-entry text-left w-full text-blue-700 hover:text-blue-900 hover:bg-blue-50 px-2 py-1 rounded transition-colors font-medium\" title=\"Click to analyze "),
    buttonLabel := OneLine("\">"),
    buttonClose := OneLine(" <span class=\"text-xs text-gray-500 ml-1\"></span></button></td>"),
    // Opens a numbered list item.
    liNumberedOpen := OneLine("<li class=\"ml-6 mb-2 text-gray-700\">"),
    // Opens a bullet list item.
    liBulletOpen := OneLine("<li class=\"ml-6 mb-2 text-gray-700 list-disc\">"),
    liClose := OneLine("</li>"),
    // The attributes of the `ol`/`ul` wrapper.
    listAttrs := OneLine(" class=\"my-4 space-y-1\">"),
    // Opens a paragraph; its first characters are what the final wrap test looks for.
    paraOpen := OneLine("<p class=" + "\"mb-4 text-gray-700 leading-relaxed\">"),
    // Replaces a blank line.
    paraBreak := OneLine("</p><p class=\"mb-4 text-gray-700 leading-relaxed\">"),
    paraClose := OneLine("</p>"),
    // Replaces a single line break.
    lineBreak := OneLine("<br/>"))

  lemma DashboardOneLine()
    ensures OneLineFragments(DASHBOARD)
  {
  }
}
