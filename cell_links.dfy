/**
 * The two link passes of the dashboard formatter (frontend/src/components/Dashboard.js):
 * Markdown links `[text](url)` become anchors, and inside table cells bare `http(s)://`
 * URLs that are not already part of an anchor become anchors too. Both are global
 * JavaScript regular-expression replacements in the source; here each is a scanner.
 */
module CellLinks {
  import opened JsText
  import opened Markup

  // ---------------------------------------------------------------------------
  // /\[([^\]]+)\]\(([^)]+)\)/g

  /** The expression matches at the start of `s` with `]` at `j` and `)` at `m`. Both
      classes are negated and followed by the excluded character, so no backtracking
      happens: the text is everything up to the first `]`, the URL everything up to the
      first `)` after `](`, and both are non-empty. Unlike Python's `.`, the classes do cross
      line breaks. */
  predicate IsAnchorAt(s: string, j: nat, m: nat) {
    && 2 <= j && j + 3 <= m < |s|
    && s[0] == '[' && s[j] == ']' && s[j + 1] == '(' && s[m] == ')'
    && (forall k :: 1 <= k < j ==> s[k] != ']')
    && (forall k :: j + 2 <= k < m ==> s[k] != ')')
  }

  function AnchorAt(s: string): (r: Option<(nat, nat)>)
    ensures r.Some? ==> IsAnchorAt(s, r.value.0, r.value.1)
  {
    if s == [] || s[0] != '[' then None
    else
      match CharFrom(s, ']', 1)
      case None => None
      case Some(j) =>
        if j < 2 || j + 1 >= |s| || s[j + 1] != '(' then None
        else
          match CharFrom(s, ')', j + 2)
          case None => None
          case Some(m) => if m < j + 3 then None else Some((j, m))
  }

  /** `AnchorAt` finds the match exactly when the expression matches at the start of `s`. */
  lemma AnchorAtIsMatch(s: string, j: nat, m: nat)
    ensures AnchorAt(s) == Some((j, m)) <==> IsAnchorAt(s, j, m)
  {
    if IsAnchorAt(s, j, m) {
      var j0 := CharFrom(s, ']', 1).value;
      assert j0 == j;
      var m0 := CharFrom(s, ')', j + 2).value;
      assert m0 == m;
    }
  }

  /** What a global replacement sees: characters it leaves alone and the matches it
      rewrites, each with its text and URL. */
  datatype Piece = Plain(c: char) | Link(text: string, url: string)

  /** The matches of the link expression in `s`, left to right, with the characters between
      them. */
  function LinkScan(s: string): (ps: seq<Piece>)
    decreases |s|
  {
    if s == [] then []
    else
      var (p, next) := LinkStep(s);
      [p] + LinkScan(s[next..])
  }

  /** One step of the scan: the match at the start with the index after its `)`, or else
      the first character on its own. */
  function LinkStep(s: string): (r: (Piece, nat))
    requires s != []
    ensures 1 <= r.1 <= |s|
  {
    match AnchorAt(s)
    case Some((j, m)) => (Link(s[1..j], s[j + 2..m]), m + 1)
    case None => (Plain(s[0]), 1)
  }

  /** `s` read as characters only. */
  function Plains(s: string): (ps: seq<Piece>)
    ensures |ps| == |s| && forall i :: 0 <= i < |s| ==> ps[i] == Plain(s[i])
  {
    seq(|s|, i requires 0 <= i < |s| => Plain(s[i]))
  }

  /** The anchor written for a link; the in-text form carries an external-link icon. */
  function AnchorHtml(f: Fragments, text: string, url: string, icon: bool): string {
    if icon then f.anchorOpen + url + f.iconAnchorAttrs + text + f.iconAnchorClose
    else f.anchorOpen + url + f.anchorAttrs + text + f.anchorClose
  }

  function PieceHtml(f: Fragments, p: Piece, icon: bool): string {
    match p
    case Plain(c) => [c]
    case Link(text, url) => AnchorHtml(f, text, url, icon)
  }

  /** The replacement written out: each match becomes its anchor, other characters stay. */
  function Render(f: Fragments, ps: seq<Piece>, icon: bool): string {
    if ps == [] then [] else PieceHtml(f, ps[0], icon) + Render(f, ps[1..], icon)
  }

  /** Characters alone are written back as they are. */
  lemma {:induction false} RenderPlains(f: Fragments, s: string, icon: bool)
    ensures Render(f, Plains(s), icon) == s
  {
    if s != [] {
      assert Plains(s)[1..] == Plains(s[1..]);
      RenderPlains(f, s[1..], icon);
    }
  }

  predicate PieceOneLine(p: Piece) {
    match p
    case Plain(c) => c != '\n'
    case Link(text, url) => '\n' !in text && '\n' !in url
  }

  /** Pieces without line breaks are written without line breaks. */
  lemma {:induction false} RenderNoNewline(f: Fragments, ps: seq<Piece>, icon: bool)
    requires OneLineFragments(f)
    requires forall i :: 0 <= i < |ps| ==> PieceOneLine(ps[i])
    ensures '\n' !in Render(f, ps, icon)
  {
    if ps != [] {
      RenderNoNewline(f, ps[1..], icon);
      assert PieceOneLine(ps[0]);
    }
  }

  /** The global replacement of `/\[([^\]]+)\]\(([^)]+)\)/g`. */
  function Anchors(f: Fragments, s: string, icon: bool): string {
    Render(f, LinkScan(s), icon)
  }

  /** Text without `[` holds no link. */
  lemma {:induction false} LinkScanNoBracket(s: string)
    requires '[' !in s
    ensures LinkScan(s) == Plains(s)
    decreases |s|
  {
    if s != [] {
      LinkScanNoBracket(s[1..]);
    }
  }

  /** Text without `[` is left as it is. */
  lemma AnchorsNoBracket(f: Fragments, s: string, icon: bool)
    requires '[' !in s
    ensures Anchors(f, s, icon) == s
  {
    LinkScanNoBracket(s);
    RenderPlains(f, s, icon);
  }

  /** A link written out is matched at its start, with its text and URL as the groups. */
  lemma LinkScanOne(text: string, url: string, post: string)
    requires text != [] && url != [] && ']' !in text && ')' !in url
    ensures LinkScan("[" + text + "](" + url + ")" + post) == [Link(text, url)] + LinkScan(post)
  {
    var s := "[" + text + "](" + url + ")" + post;
    var j, m := |text| + 1, |text| + 3 + |url|;
    assert s[1..j] == text && s[j + 2..m] == url && s[m + 1..] == post;
    forall k | 1 <= k < j ensures s[k] != ']' {
      assert s[k] == text[k - 1];
    }
    forall k | j + 2 <= k < m ensures s[k] != ')' {
      assert s[k] == url[k - j - 2];
    }
    AnchorAtIsMatch(s, j, m);
    LinkScanAt(s, j, m);
  }

  /** A match at the start is the first piece; the scan goes on after its `)`. */
  lemma LinkScanAt(s: string, j: nat, m: nat)
    requires AnchorAt(s) == Some((j, m))
    ensures m + 1 <= |s|
    ensures LinkScan(s) == [Link(s[1..j], s[j + 2..m])] + LinkScan(s[m + 1..])
  {
    assert IsAnchorAt(s, j, m);
    LinkScanStep(s, j, m);
  }

  /** The scan after a step that read a link ending at `m`. */
  lemma LinkScanStep(s: string, j: nat, m: nat)
    requires 1 <= j && j + 2 <= m < |s|
    requires LinkStep(s).0 == Link(s[1..j], s[j + 2..m]) && LinkStep(s).1 == m + 1
    ensures LinkScan(s) == [Link(s[1..j], s[j + 2..m])] + LinkScan(s[m + 1..])
  {
    LinkScanUnfold(s);
    var k := LinkStep(s).1;
    assert s[k..] == s[m + 1..];
    assert LinkScan(s[k..]) == LinkScan(s[m + 1..]);
    assert [LinkStep(s).0] == [Link(s[1..j], s[j + 2..m])];
  }

  lemma LinkScanUnfold(s: string)
    requires s != []
    ensures LinkScan(s) == [LinkStep(s).0] + LinkScan(s[LinkStep(s).1..])
  {
  }

  /** One link becomes one anchor holding its text and URL; the rest is rewritten on its own. */
  lemma AnchorsOne(f: Fragments, text: string, url: string, post: string, icon: bool)
    requires text != [] && url != [] && ']' !in text && ')' !in url
    ensures Anchors(f, "[" + text + "](" + url + ")" + post, icon)
            == AnchorHtml(f, text, url, icon) + Anchors(f, post, icon)
  {
    var ps := [Link(text, url)] + LinkScan(post);
    LinkScanOne(text, url, post);
    assert ps[0] == Link(text, url) && ps[1..] == LinkScan(post);
  }

  /** The matches of a text without line breaks hold none. */
  lemma {:induction false} LinkScanOneLine(s: string)
    requires '\n' !in s
    ensures forall i :: 0 <= i < |LinkScan(s)| ==> PieceOneLine(LinkScan(s)[i])
    decreases |s|
  {
    if s != [] {
      var k := LinkStep(s).1;
      assert '\n' !in s[k..] by {
        forall c | c in s[k..] ensures c != '\n' { assert c in s; }
      }
      LinkScanOneLine(s[k..]);
      LinkStepOneLine(s);
      LinkScanUnfold(s);
      var rest := LinkScan(s[k..]);
      forall i | 0 <= i < |LinkScan(s)| ensures PieceOneLine(LinkScan(s)[i]) {
        if i > 0 {
          assert LinkScan(s)[i] == rest[i - 1];
        }
      }
    }
  }

  /** A piece read from a text without line breaks holds none. */
  lemma LinkStepOneLine(s: string)
    requires s != [] && '\n' !in s
    ensures PieceOneLine(LinkStep(s).0)
  {
    match AnchorAt(s)
    case Some((j, m)) =>
      assert '\n' !in s[1..j] by {
        forall c | c in s[1..j] ensures c != '\n' { assert c in s; }
      }
      var url := s[j + 2..m];
      assert '\n' !in url by {
        forall c | c in url ensures c != '\n' { assert c in s; }
      }
    case None =>
  }

  /** The anchors add no line break of their own. */
  lemma AnchorsNoNewline(f: Fragments, s: string, icon: bool)
    requires OneLineFragments(f) && '\n' !in s
    ensures '\n' !in Anchors(f, s, icon)
  {
    LinkScanOneLine(s);
    RenderNoNewline(f, LinkScan(s), icon);
  }

  // ---------------------------------------------------------------------------
  // /(?<!href="|">)(https?:\/\/[^\s<>"{}|\\^`[\]]+)(?![^<]*<\/a>)/g

  /** A character the URL class `[^\s<>"{}|\\^`[\]]` accepts. */
  predicate IsUrlChar(c: char) {
    !IsSpace(c) && c !in "<>\"{}|\\^`[]"
  }

  /** The end of the run of URL characters starting at `i`. */
  function UrlRunEnd(s: string, i: nat): (e: nat)
    requires i <= |s|
    ensures i <= e <= |s|
    ensures forall k :: i <= k < e ==> IsUrlChar(s[k])
    ensures e < |s| ==> !IsUrlChar(s[e])
    decreases |s| - i
  {
    if i < |s| && IsUrlChar(s[i]) then UrlRunEnd(s, i + 1) else i
  }

  /** The negative lookahead `(?![^<]*<\/a>)` at `e`: the first `<` from `e` on (if any)
      does not open `</a>`. Shortening the URL cannot help, since URL characters are never
      `<`: the first `<` stays the same. */
  predicate NotBeforeClosingAnchor(s: string, e: nat) {
    match FindFrom(s, "<", e)
    case None => true
    case Some(k) => !At(s, k, "</a>")
  }

  /** The negative lookbehind `(?<!href="|">)` at `i`. */
  predicate NotAfterAttribute(s: string, i: nat)
    requires i <= |s|
  {
    !(i >= 6 && s[i - 6..i] == "href=\"") && !(i >= 2 && s[i - 2..i] == "\">")
  }

  /** The end of the URL matched at `i`, if any. `s?` is greedy and `://` cannot start with
      `s`, so `https://` is tried first and `http://` otherwise. */
  function UrlAt(s: string, i: nat): (r: Option<nat>)
    requires i <= |s|
    ensures r.Some? ==> i < r.value <= |s|
  {
    var p := if At(s, i, "https://") then 8 else if At(s, i, "http://") then 7 else 0;
    if p == 0 then None
    else
      var e := UrlRunEnd(s, i + p);
      if e == i + p || !NotAfterAttribute(s, i) || !NotBeforeClosingAnchor(s, e) then None
      else Some(e)
  }

  /** The matches of the bare-URL expression from index `i` on; the lookarounds look at the
      whole string. A URL is written as the text of its own anchor. */
  function UrlScanFrom(s: string, i: nat): (ps: seq<Piece>)
    requires i <= |s|
    decreases |s| - i
  {
    if i == |s| then []
    else
      match UrlAt(s, i)
      case Some(e) => [Link(s[i..e], s[i..e])] + UrlScanFrom(s, e)
      case None => [Plain(s[i])] + UrlScanFrom(s, i + 1)
  }

  /** The global replacement of the bare-URL expression. */
  function BareUrls(f: Fragments, s: string): string {
    Render(f, UrlScanFrom(s, 0), false)
  }

  /** A URL found is `http://` or `https://` followed by the longest run of URL characters. */
  lemma UrlAtShape(s: string, i: nat)
    requires i <= |s| && UrlAt(s, i).Some?
    ensures At(s, i, "https://") || At(s, i, "http://")
    ensures var e := UrlAt(s, i).value;
            var p := if At(s, i, "https://") then 8 else 7;
            && i + p < e
            && (forall k :: i + p <= k < e ==> IsUrlChar(s[k]))
            && (e < |s| ==> !IsUrlChar(s[e]))
            && NotAfterAttribute(s, i) && NotBeforeClosingAnchor(s, e)
  {
  }

  /** Conversely, every match of the bare-URL expression at `i` is found: a scheme, a
      non-empty run of URL characters and both lookarounds give the whole run. */
  lemma UrlAtFound(s: string, i: nat, p: nat)
    requires (p == 8 && At(s, i, "https://")) || (p == 7 && At(s, i, "http://"))
    requires UrlRunEnd(s, i + p) > i + p
    requires NotAfterAttribute(s, i) && NotBeforeClosingAnchor(s, UrlRunEnd(s, i + p))
    ensures UrlAt(s, i) == Some(UrlRunEnd(s, i + p))
  {
    if p == 7 {
      HttpIsNotHttps(s, i);
    }
  }

  /** `http://` has `:` where `https://` has `s`, so both cannot start at one index. */
  lemma HttpIsNotHttps(s: string, i: nat)
    requires At(s, i, "http://")
    ensures !At(s, i, "https://")
  {
    assert s[i + 4] == s[i..i + 7][4] == ':';
  }

  /** Text without `http` holds no URL. */
  lemma {:induction false} UrlScanNoScheme(s: string, i: nat)
    requires i <= |s| && forall k :: i <= k <= |s| ==> !At(s, k, "http")
    ensures UrlScanFrom(s, i) == Plains(s[i..])
    decreases |s| - i
  {
    if i < |s| {
      AtPrefix(s, i, "https://", 4);
      AtPrefix(s, i, "http://", 4);
      assert "https://"[..4] == "http" && "http://"[..4] == "http";
      UrlScanNoScheme(s, i + 1);
      assert Plains(s[i..]) == [Plain(s[i])] + Plains(s[i + 1..]);
    }
  }

  /** Text without `http` is left as it is. */
  lemma BareUrlsNoScheme(f: Fragments, s: string)
    requires forall k :: 0 <= k <= |s| ==> !At(s, k, "http")
    ensures BareUrls(f, s) == s
  {
    UrlScanNoScheme(s, 0);
    assert s[0..] == s;
    RenderPlains(f, s, false);
  }

  /** The URLs of a text without line breaks hold none. */
  lemma {:induction false} UrlScanOneLine(s: string, i: nat)
    requires i <= |s| && '\n' !in s
    ensures forall k :: 0 <= k < |UrlScanFrom(s, i)| ==> PieceOneLine(UrlScanFrom(s, i)[k])
    decreases |s| - i
  {
    if i < |s| {
      match UrlAt(s, i)
      case Some(e) =>
        UrlScanOneLine(s, e);
        assert '\n' !in s[i..e];
      case None =>
        UrlScanOneLine(s, i + 1);
    }
  }

  /** The bare-URL pass adds no line break of its own. */
  lemma BareUrlsNoNewline(f: Fragments, s: string)
    requires OneLineFragments(f) && '\n' !in s
    ensures '\n' !in BareUrls(f, s)
  {
    UrlScanOneLine(s, 0);
    RenderNoNewline(f, UrlScanFrom(s, 0), false);
  }
}
