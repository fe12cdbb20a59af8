/**
 * `formatLists` in the dashboard formatter (frontend/src/components/Dashboard.js): lines
 * that start with a number and a dot, then with `-` or `*`, become list items, and then
 * everything from the first item to the last is wrapped in one `ol` or `ul`.
 *
 * The three global replacements are scanners, as the link passes are. The item
 * expressions use the multiline flag (`^` and `$` at line terminators, `.` stops at them);
 * the wrapping expression uses the dot-all flag, so its `.*` runs to the last `</li>` of the
 * whole text.
 */
module ListFormat {
  import opened JsText
  import opened Markup

  // ---------------------------------------------------------------------------
  // /^(\d+\.\s+.*)$/gm and /^([-*]\s+.*)$/gm

  /** The two kinds of item: `\d+\.` and `[-*]`. */
  datatype Marker = Numbered | Bullet

  /** `^` under the multiline flag: the start of the text or just after a line terminator. */
  predicate LineStart(s: string, i: nat) {
    i == 0 || (0 < i <= |s| && IsLineTerminator(s[i - 1]))
  }

  /** The end of `.*` from `i`: the next line terminator, or the end of the text. */
  function RestOfLine(s: string, i: nat): (e: nat)
    requires i <= |s|
    ensures i <= e <= |s| && (forall k :: i <= k < e ==> !IsLineTerminator(s[k]))
    ensures e < |s| ==> IsLineTerminator(s[e])
    decreases |s| - i
  {
    if i < |s| && !IsLineTerminator(s[i]) then RestOfLine(s, i + 1) else i
  }

  /** Where the marker that starts at `i` ends. `\d+` is greedy and a digit is not a dot, so
      the digits before the dot are the whole run. */
  function MarkerEnd(s: string, i: nat, m: Marker): (r: Option<nat>)
    requires i <= |s|
    ensures r.Some? ==> i < r.value <= |s|
  {
    match m
    case Numbered =>
      var d := DigitsEnd(s, i);
      if d > i && d < |s| && s[d] == '.' then Some(d + 1) else None
    case Bullet =>
      if i < |s| && (s[i] == '-' || s[i] == '*') then Some(i + 1) else None
  }

  /** The item expression matches at `i` with its text running from `w` to `e`: `i` starts a
      line, the marker is followed by white space up to `w`, which ends that run, and the text
      runs from there to the end of the line. The greedy `\s+` may cross line breaks; `.*`
      then takes the rest of the line it reaches, and `$` always holds after it. */
  predicate IsItemAt(s: string, i: nat, m: Marker, w: nat, e: nat)
    requires i <= |s|
  {
    && LineStart(s, i)
    && MarkerEnd(s, i, m).Some?
    && var q := MarkerEnd(s, i, m).value;
       && q < w <= e <= |s|
       && (forall k :: q <= k < w ==> IsSpace(s[k]))
       && (w < |s| ==> !IsSpace(s[w]))
       && (forall k :: w <= k < e ==> !IsLineTerminator(s[k]))
       && (e < |s| ==> IsLineTerminator(s[e]))
  }

  /** The match at `i`, if any, as the start and end of the item's text. */
  function ItemAt(s: string, i: nat, m: Marker): (r: Option<(nat, nat)>)
    requires i <= |s|
    ensures r.Some? ==> i < r.value.0 <= r.value.1 <= |s|
  {
    if !LineStart(s, i) then None
    else
      match MarkerEnd(s, i, m)
      case None => None
      case Some(q) =>
        var w := SpacesEnd(s, q);
        if w == q then None else Some((w, RestOfLine(s, w)))
  }

  /** `ItemAt` finds exactly the match of the expression. */
  lemma ItemAtIsMatch(s: string, i: nat, m: Marker, w: nat, e: nat)
    requires i <= |s|
    ensures ItemAt(s, i, m) == Some((w, e)) <==> IsItemAt(s, i, m, w, e)
  {
    if IsItemAt(s, i, m, w, e) {
      var q := MarkerEnd(s, i, m).value;
      SpacesEndIs(s, q, w);
      RestOfLineIs(s, w, e);
    }
  }

  lemma {:induction false} SpacesEndIs(s: string, i: nat, w: nat)
    requires i <= w <= |s|
    requires forall k :: i <= k < w ==> IsSpace(s[k])
    requires w < |s| ==> !IsSpace(s[w])
    ensures SpacesEnd(s, i) == w
    decreases w - i
  {
    if i < w {
      SpacesEndIs(s, i + 1, w);
    }
  }

  lemma {:induction false} RestOfLineIs(s: string, i: nat, e: nat)
    requires i <= e <= |s|
    requires forall k :: i <= k < e ==> !IsLineTerminator(s[k])
    requires e < |s| ==> IsLineTerminator(s[e])
    ensures RestOfLine(s, i) == e
    decreases e - i
  {
    if i < e {
      RestOfLineIs(s, i + 1, e);
    }
  }

  /** What an item replacement sees: characters it leaves alone and items. */
  datatype Piece = Plain(c: char) | Item(text: string)

  /** The matches from `i` on, left to right. */
  function ItemScan(s: string, i: nat, m: Marker): seq<Piece>
    requires i <= |s|
    decreases |s| - i
  {
    if i == |s| then []
    else
      match ItemAt(s, i, m)
      case Some((w, e)) => [Item(s[w..e])] + ItemScan(s, e, m)
      case None => [Plain(s[i])] + ItemScan(s, i + 1, m)
  }

  /** The item written out: the marker and the white space after it are gone. */
  function PieceHtml(f: Fragments, p: Piece, m: Marker): string {
    match p
    case Plain(c) => [c]
    case Item(text) => (if m == Numbered then f.liNumberedOpen else f.liBulletOpen) + text + f.liClose
  }

  function Render(f: Fragments, ps: seq<Piece>, m: Marker): string {
    if ps == [] then [] else PieceHtml(f, ps[0], m) + Render(f, ps[1..], m)
  }

  /** One item pass: numbered items first, bullets second. */
  function ListItems(f: Fragments, s: string, m: Marker): string {
    Render(f, ItemScan(s, 0, m), m)
  }

  /** No line starts with a marker character: the scan sees characters only. */
  lemma {:induction false} ItemScanNoMarker(s: string, i: nat, m: Marker)
    requires i <= |s|
    requires forall k :: i <= k < |s| && LineStart(s, k) ==> MarkerEnd(s, k, m).None?
    ensures ItemScan(s, i, m) == Plains(s[i..])
    decreases |s| - i
  {
    if i < |s| {
      ItemScanNoMarker(s, i + 1, m);
      assert s[i..] == [s[i]] + s[i + 1..];
    }
  }

  function Plains(s: string): (ps: seq<Piece>)
    ensures |ps| == |s| && forall i :: 0 <= i < |s| ==> ps[i] == Plain(s[i])
  {
    seq(|s|, i requires 0 <= i < |s| => Plain(s[i]))
  }

  lemma {:induction false} RenderPlains(f: Fragments, s: string, m: Marker)
    ensures Render(f, Plains(s), m) == s
  {
    if s != [] {
      assert Plains(s)[1..] == Plains(s[1..]);
      RenderPlains(f, s[1..], m);
    }
  }

  /** Text where no line starts with the marker is left as it is. */
  lemma ListItemsNoMarker(f: Fragments, s: string, m: Marker)
    requires forall k :: 0 <= k < |s| && LineStart(s, k) ==> MarkerEnd(s, k, m).None?
    ensures ListItems(f, s, m) == s
  {
    ItemScanNoMarker(s, 0, m);
    assert s[0..] == s;
    RenderPlains(f, s, m);
  }

  /** A line `12.  Text` (or `- Text`) at the start of the text is an item holding `Text`,
      which ends where the line does. */
  lemma ItemLine(s: string, m: Marker, head: string, gap: string, text: string, rest: string)
    requires s == head + gap + text + rest
    requires MarkerEnd(head + gap, 0, m) == Some(|head|)
    requires gap != [] && forall k :: 0 <= k < |gap| ==> IsSpace(gap[k])
    requires text != [] && !IsSpace(text[0]) && forall k :: 0 <= k < |text| ==> !IsLineTerminator(text[k])
    requires rest != [] ==> IsLineTerminator(rest[0])
    ensures ItemAt(s, 0, m) == Some((|head + gap|, |head + gap + text|))
    ensures s[|head + gap|..|head + gap + text|] == text
  {
    var w := |head + gap|;
    var e := w + |text|;
    MarkerPrefix(head + gap, text + rest, m);
    assert s == (head + gap) + (text + rest);
    forall k | |head| <= k < w ensures IsSpace(s[k]) {
      assert s[k] == gap[k - |head|];
    }
    assert s[w] == text[0];
    forall k | w <= k < e ensures !IsLineTerminator(s[k]) {
      assert s[k] == text[k - w];
    }
    assert e < |s| ==> s[e] == rest[0];
    assert IsItemAt(s, 0, m, w, e);
    ItemAtIsMatch(s, 0, m, w, e);
  }

  /** The marker is read from the front, so what follows it does not matter. */
  lemma MarkerPrefix(a: string, b: string, m: Marker)
    requires MarkerEnd(a, 0, m).Some? && MarkerEnd(a, 0, m).value < |a|
    ensures MarkerEnd(a + b, 0, m) == MarkerEnd(a, 0, m)
  {
    if m == Numbered {
      DigitsPrefix(a, b, 0);
    }
  }

  lemma {:induction false} DigitsPrefix(a: string, b: string, i: nat)
    requires i <= |a| && DigitsEnd(a, i) < |a|
    ensures DigitsEnd(a + b, i) == DigitsEnd(a, i)
    decreases |a| - i
  {
    if IsDigit(a[i]) {
      DigitsPrefix(a, b, i + 1);
    }
  }

  // ---------------------------------------------------------------------------
  // /(<li[^>]*>.*<\/li>\s*)+/gs

  /** `<li[^>]*>` at `i`: where the opening tag ends (after its first `>`). */
  function LiOpenEnd(s: string, i: nat): (r: Option<nat>)
    ensures r.Some? ==> i + 4 <= r.value <= |s|
  {
    if !At(s, i, "<li") then None
    else
      match FindFrom(s, ">", i + 3)
      case None => None
      case Some(g) => Some(g + 1)
  }

  /** The last occurrence of `pat` starting at or after `from`. */
  function LastFrom(s: string, pat: string, from: nat): (r: Option<nat>)
    ensures r.Some? ==> from <= r.value && At(s, r.value, pat)
    ensures r.Some? ==> forall k :: r.value < k ==> !At(s, k, pat)
    ensures r.None? ==> forall k :: from <= k ==> !At(s, k, pat)
    decreases |s| - from
  {
    if from + |pat| > |s| then None
    else
      match LastFrom(s, pat, from + 1)
      case Some(k) => Some(k)
      case None => if At(s, from, pat) then Some(from) else None
  }

  /** Where the wrapping expression's match at `i` ends. With the dot-all flag, the first
      repetition's greedy `.*` reaches the last `</li>` of the text; nothing after it can
      hold another repetition (which would need a later `</li>`), so the match ends after
      that `</li>` and the white space following it. */
  function WrapAt(s: string, i: nat): (r: Option<nat>)
    ensures r.Some? ==> i < r.value <= |s|
  {
    match LiOpenEnd(s, i)
    case None => None
    case Some(a) =>
      match LastFrom(s, "</li>", a)
      case None => None
      case Some(c) => Some(SpacesEnd(s, c + 5))
  }

  /** The wrapper chosen for a matched block: `ol` when it holds `1.`, `2.` or `3.`. */
  predicate HasNumbers(block: string) {
    Contains(block, "1.") || Contains(block, "2.") || Contains(block, "3.")
  }

  function Wrapped(f: Fragments, block: string): string {
    var tag := if HasNumbers(block) then "ol" else "ul";
    "<" + tag + f.listAttrs + block + "</" + tag + ">"
  }

  /** The wrapper is `ol` exactly when the block holds `1.`, `2.` or `3.`, and it encloses
      the block unchanged. */
  lemma WrapTag(f: Fragments, block: string)
    ensures var w := Wrapped(f, block);
            var n := 3 + |f.listAttrs|;
            && (w[..3] == "<ol" <==> HasNumbers(block))
            && (w[..3] == "<ul" <==> !HasNumbers(block))
            && n + |block| <= |w| && w[n..n + |block|] == block
            && w[n + |block|..] == (if HasNumbers(block) then "</ol>" else "</ul>")
  {
    var tag := if HasNumbers(block) then "ol" else "ul";
    var n := 3 + |f.listAttrs|;
    var w := Wrapped(f, block);
    assert w == ("<" + tag + f.listAttrs) + block + ("</" + tag + ">");
    assert w[..3] == "<" + tag;
    assert ("<ol")[1] != ("<ul")[1];
  }

  /** What the wrapping replacement sees: characters it leaves alone and matched regions. */
  datatype Region = Kept(c: char) | Block(text: string)

  /** The matches of the wrapping expression from `i` on. */
  function WrapScan(s: string, i: nat): seq<Region>
    requires i <= |s|
    decreases |s| - i
  {
    if i == |s| then []
    else
      match WrapAt(s, i)
      case Some(e) => [Block(s[i..e])] + WrapScan(s, e)
      case None => [Kept(s[i])] + WrapScan(s, i + 1)
  }

  function RegionHtml(f: Fragments, r: Region): string {
    match r
    case Kept(c) => [c]
    case Block(text) => Wrapped(f, text)
  }

  function RenderRegions(f: Fragments, rs: seq<Region>): string {
    if rs == [] then [] else RegionHtml(f, rs[0]) + RenderRegions(f, rs[1..])
  }

  function WrapLists(f: Fragments, s: string): string {
    RenderRegions(f, WrapScan(s, 0))
  }

  /** `formatLists` */
  function FormatLists(f: Fragments, s: string): string {
    WrapLists(f, ListItems(f, ListItems(f, s, Numbered), Bullet))
  }

  function Kepts(s: string): (rs: seq<Region>)
    ensures |rs| == |s| && forall i :: 0 <= i < |s| ==> rs[i] == Kept(s[i])
  {
    seq(|s|, i requires 0 <= i < |s| => Kept(s[i]))
  }

  lemma {:induction false} RenderKepts(f: Fragments, s: string)
    ensures RenderRegions(f, Kepts(s)) == s
  {
    if s != [] {
      assert Kepts(s)[1..] == Kepts(s[1..]);
      RenderKepts(f, s[1..]);
    }
  }

  lemma RenderRegionsCons(f: Fragments, a: seq<Region>, b: seq<Region>)
    requires a != []
    ensures RenderRegions(f, a + b) == RegionHtml(f, a[0]) + RenderRegions(f, a[1..] + b)
  {
    ConsAppend(a, b);
  }

  lemma {:induction false} RenderRegionsConcat(f: Fragments, a: seq<Region>, b: seq<Region>)
    ensures RenderRegions(f, a + b) == RenderRegions(f, a) + RenderRegions(f, b)
  {
    if a == [] {
      assert a + b == b;
    } else {
      RenderRegionsConcat(f, a[1..], b);
      RenderRegionsConcatStep(f, a, b);
    }
  }

  lemma RenderRegionsConcatStep(f: Fragments, a: seq<Region>, b: seq<Region>)
    requires a != []
    requires RenderRegions(f, a[1..] + b) == RenderRegions(f, a[1..]) + RenderRegions(f, b)
    ensures RenderRegions(f, a + b) == RenderRegions(f, a) + RenderRegions(f, b)
  {
    var x, y, z := RegionHtml(f, a[0]), RenderRegions(f, a[1..]), RenderRegions(f, b);
    RenderRegionsCons(f, a, b);
    assert RenderRegions(f, a) == x + y;
    AppendAssoc(x, y, z);
  }

  /** Nothing matches in `[i, j)`: those characters are kept. */
  lemma {:induction false} WrapKeeps(s: string, i: nat, j: nat)
    requires i <= j <= |s|
    requires forall k :: i <= k < j ==> WrapAt(s, k).None?
    ensures WrapScan(s, i) == Kepts(s[i..j]) + WrapScan(s, j)
    decreases j - i
  {
    if i < j {
      WrapKeeps(s, i + 1, j);
      WrapScanKept(s, i);
      KeptsCons(s, i, j);
      AppendAssoc([Kept(s[i])], Kepts(s[i + 1..j]), WrapScan(s, j));
    }
  }

  lemma KeptsCons(s: string, i: nat, j: nat)
    requires i < j <= |s|
    ensures Kepts(s[i..j]) == [Kept(s[i])] + Kepts(s[i + 1..j])
  {
    var a, b := Kepts(s[i..j]), [Kept(s[i])] + Kepts(s[i + 1..j]);
    assert |a| == |b|;
    forall k | 0 <= k < |a| ensures a[k] == b[k] {
      if k > 0 {
        assert b[k] == Kepts(s[i + 1..j])[k - 1];
      }
    }
  }

  lemma WrapScanKept(s: string, i: nat)
    requires i < |s| && WrapAt(s, i).None?
    ensures WrapScan(s, i) == [Kept(s[i])] + WrapScan(s, i + 1)
  {
  }

  /** No match starts after the end of a match: a later match would need a `</li>` after
      the last one. */
  lemma NoWrapAfter(s: string, i: nat, k: nat)
    requires WrapAt(s, i).Some? && WrapAt(s, i).value <= k
    ensures WrapAt(s, k).None?
  {
    var a := LiOpenEnd(s, i).value;
    var c := LastFrom(s, "</li>", a).value;
    match LiOpenEnd(s, k)
    case None =>
    case Some(a2) =>
      assert LastFrom(s, "</li>", a2).None?;
  }

  lemma WrapScanBlock(s: string, i: nat)
    requires i < |s| && WrapAt(s, i).Some?
    ensures WrapScan(s, i) == [Block(s[i..WrapAt(s, i).value])] + WrapScan(s, WrapAt(s, i).value)
  {
  }

  /** The whole list region is matched once: from the first `<li…>` that has a `</li>` after
      it, through the last `</li>` and the white space after it. */
  lemma WrapScanFirst(s: string, i: nat)
    requires i < |s| && WrapAt(s, i).Some? && forall k :: 0 <= k < i ==> WrapAt(s, k).None?
    ensures WrapScan(s, 0) == Kepts(s[..i]) + ([Block(s[i..WrapAt(s, i).value])] + Kepts(s[WrapAt(s, i).value..]))
  {
    var e := WrapAt(s, i).value;
    WrapScanHead(s, i);
    WrapScanBlock(s, i);
    WrapScanTail(s, i);
  }

  /** Before the first match every character is kept. */
  lemma WrapScanHead(s: string, i: nat)
    requires i <= |s| && forall k :: 0 <= k < i ==> WrapAt(s, k).None?
    ensures WrapScan(s, 0) == Kepts(s[..i]) + WrapScan(s, i)
  {
    WrapKeeps(s, 0, i);
    assert s[0..i] == s[..i];
  }

  /** After a match every character is kept. */
  lemma WrapScanTail(s: string, i: nat)
    requires i < |s| && WrapAt(s, i).Some?
    ensures WrapScan(s, WrapAt(s, i).value) == Kepts(s[WrapAt(s, i).value..])
  {
    var e := WrapAt(s, i).value;
    forall k | e <= k < |s| ensures WrapAt(s, k).None? {
      NoWrapAfter(s, i, k);
    }
    WrapKeeps(s, e, |s|);
    assert s[e..|s|] == s[e..];
    assert WrapScan(s, |s|) == [];
    assert Kepts(s[e..]) + [] == Kepts(s[e..]);
  }

  /** Text without such a region is kept as it is. */
  lemma WrapScanNone(s: string)
    requires forall k :: 0 <= k < |s| ==> WrapAt(s, k).None?
    ensures WrapScan(s, 0) == Kepts(s)
  {
    WrapKeeps(s, 0, |s|);
    assert s[0..|s|] == s;
    assert WrapScan(s, |s|) == [];
    assert Kepts(s) + [] == Kepts(s);
  }

  /** So the text is wrapped once, around the whole region, or not at all. */
  lemma WrapOnce(f: Fragments, s: string, i: nat)
    requires i < |s| && WrapAt(s, i).Some? && forall k :: 0 <= k < i ==> WrapAt(s, k).None?
    ensures var e := WrapAt(s, i).value;
            WrapLists(f, s) == s[..i] + (Wrapped(f, s[i..e]) + s[e..])
  {
    var e := WrapAt(s, i).value;
    WrapScanFirst(s, i);
    var a, b := Kepts(s[..i]), Kepts(s[e..]);
    RenderRegionsConcat(f, a, [Block(s[i..e])] + b);
    RenderRegionsConcat(f, [Block(s[i..e])], b);
    assert RenderRegions(f, [Block(s[i..e])]) == Wrapped(f, s[i..e]) + [];
    RenderKepts(f, s[..i]);
    RenderKepts(f, s[e..]);
  }

  lemma WrapNone(f: Fragments, s: string)
    requires forall k :: 0 <= k < |s| ==> WrapAt(s, k).None?
    ensures WrapLists(f, s) == s
  {
    WrapScanNone(s);
    RenderKepts(f, s);
  }
}
