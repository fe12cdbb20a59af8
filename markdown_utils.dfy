/**
 * The Markdown helpers of backend/utils.py: rewriting `[text](url)` links into plain text,
 * and locating Markdown tables. Both are Python regular expressions in the source; here each
 * is a deterministic scanner, and lemmas tie the scanner to what the expression matches.
 */
module MarkdownUtils {
  import opened JsText

  // ---------------------------------------------------------------------------
  // extract_links: re.sub(r"\[(.*?)\]\((.*?)\)", r"\1 (URL: \2)", text)

  /** The expression matches at the start of `s` with the link text ending at `j` (where `](`
      stands) and the URL ending at `m` (where `)` stands). Python's `.` stops at `\n`. */
  predicate IsLinkAt(s: string, j: nat, m: nat) {
    && 0 < j && j + 2 <= m < |s|
    && s[0] == '[' && At(s, j, "](") && s[m] == ')'
    && forall k :: 0 < k < m ==> s[k] != '\n'
  }

  /** The match the lazy expression takes at the start of `s`: the first `](` of the line,
      then the first `)` after it on the same line. */
  function LinkAt(s: string): (r: Option<(nat, nat)>)
    ensures r.Some? ==> IsLinkAt(s, r.value.0, r.value.1)
  {
    if s == [] || s[0] != '[' then None
    else
      var e := LineEnd(s, 1);
      match FindFrom(s, "](", 1)
      case None => None
      case Some(j) =>
        if j >= e then None
        else
          match FindFrom(s, ")", j + 2)
          case None => None
          case Some(m) => if m >= e then None else Some((j, m))
  }

  /** `LinkAt` finds a match exactly when the expression matches at the start of `s`, and then
      the one backtracking tries first: the smallest link text end, and for it the smallest URL end. */
  lemma LinkAtIsLazyMatch(s: string)
    ensures LinkAt(s).None? <==> forall j: nat, m: nat :: !IsLinkAt(s, j, m)
    ensures LinkAt(s).Some? ==>
              forall j: nat, m: nat :: IsLinkAt(s, j, m) ==>
                LinkAt(s).value.0 < j || (LinkAt(s).value.0 == j && LinkAt(s).value.1 <= m)
  {
    if s != [] && s[0] == '[' {
      var e := LineEnd(s, 1);
      forall j: nat, m: nat | IsLinkAt(s, j, m)
        ensures LinkAt(s).Some?
        ensures LinkAt(s).value.0 < j || (LinkAt(s).value.0 == j && LinkAt(s).value.1 <= m)
      {
        var j0 := FindFrom(s, "](", 1).value;
        assert j0 <= j;
        assert j0 < e by {
          assert e >= |s| || s[e] == '\n';
        }
        assert At(s, m, ")");
        var m0 := FindFrom(s, ")", j0 + 2).value;
        assert m0 <= m;
        assert m0 < e by {
          assert e >= |s| || s[e] == '\n';
        }
      }
    }
  }

  /** `extract_links(text)`: every match is replaced by `text (URL: url)`; the scan resumes
      after the match, or one character further where nothing matches. */
  function ExtractLinks(s: string): string
    decreases |s|
  {
    if s == [] then []
    else
      match LinkAt(s)
      case Some((j, m)) => s[1..j] + " (URL: " + s[j + 2..m] + ")" + ExtractLinks(s[m + 1..])
      case None => [s[0]] + ExtractLinks(s[1..])
  }

  /** Text without `[` comes back unchanged. */
  lemma {:induction false} ExtractLinksNoBracket(s: string)
    requires '[' !in s
    ensures ExtractLinks(s) == s
  {
    if s != [] {
      ExtractLinksNoBracket(s[1..]);
    }
  }

  /** Text without `[` in front of the rest passes through, and the rest is rewritten alone. */
  lemma {:induction false} ExtractLinksPrefix(pre: string, rest: string)
    requires '[' !in pre
    ensures ExtractLinks(pre + rest) == pre + ExtractLinks(rest)
  {
    if pre != [] {
      var s := pre + rest;
      assert s[0] == pre[0] && s[1..] == pre[1..] + rest;
      assert LinkAt(s) == None;
      assert ExtractLinks(s) == [s[0]] + ExtractLinks(s[1..]);
      ExtractLinksPrefix(pre[1..], rest);
      assert [pre[0]] + pre[1..] == pre;
    } else {
      assert pre + rest == rest;
    }
  }

  /** A match with no earlier `](` and no earlier `)` after it is the one `LinkAt` takes. */
  lemma LinkAtFirst(s: string, j: nat, m: nat)
    requires IsLinkAt(s, j, m)
    requires forall k :: 1 <= k < j ==> !At(s, k, "](")
    requires forall k :: j + 2 <= k < m ==> s[k] != ')'
    ensures LinkAt(s) == Some((j, m))
  {
    LinkAtIsLazyMatch(s);
    var (j0, m0) := LinkAt(s).value;
    assert At(s, m0, ")");
  }

  /** One well-formed link on one line is rewritten to `text (URL: url)`, and the text after
      it is rewritten on its own. The link text has no `](` and the URL no `)`: otherwise the
      lazy match would end earlier. */
  lemma ExtractLinksOne(txt: string, url: string, post: string)
    requires '\n' !in txt && '\n' !in url && ')' !in url && !Contains(txt, "](")
    ensures ExtractLinks("[" + txt + "](" + url + ")" + post)
            == txt + " (URL: " + url + ")" + ExtractLinks(post)
  {
    var s := "[" + txt + "](" + url + ")" + post;
    var j, m := |txt| + 1, |txt| + 3 + |url|;
    assert s[1..j] == txt && s[j + 2..m] == url && s[m + 1..] == post;
    assert s[j..j + 2] == "](" && s[m] == ')';
    forall k | 0 < k < m ensures s[k] != '\n' {
      if k < j {
        assert s[k] == txt[k - 1];
      } else if j + 2 <= k {
        assert s[k] == url[k - j - 2];
      }
    }
    forall k | 1 <= k < j ensures !At(s, k, "](") {
      if k + 1 < j {
        assert s[k..k + 2] == txt[k - 1..k + 1];
        assert !At(txt, k - 1, "](");
      } else {
        assert s[k + 1] == ']';
      }
    }
    forall k | j + 2 <= k < m ensures s[k] != ')' {
      assert s[k] == url[k - j - 2];
    }
    LinkAtFirst(s, j, m);
  }

  // ---------------------------------------------------------------------------
  // Table location: (?:\|.+\n)+\|[-| :]+\n(?:\|.+\n)+

  /** A line that `\|.+\n` matches in full: a `|` and at least one more character. Lines
      come from splitting on `\n`, so they hold no `\n` themselves. */
  predicate IsPipeLine(l: string) {
    |l| >= 2 && l[0] == '|'
  }

  /** A line that `\|[-| :]+\n` matches: a `|` followed only by `-`, `|`, ` ` or `:`. */
  predicate IsSeparatorLine(l: string) {
    |l| >= 2 && l[0] == '|' && forall k :: 1 <= k < |l| ==> l[k] in "-| :"
  }

  /** Where a match can start inside a line: its first `|`, provided something follows it.
      A later `|` of the same line would lead to the same match or failure. */
  function StartColumn(l: string): (r: Option<nat>)
    ensures r.Some? ==> r.value + 1 < |l| && l[r.value] == '|' && IsPipeLine(l[r.value..])
    ensures r.Some? ==> '|' !in l[..r.value]
  {
    match FindFrom(l, "|", 0)
    case None => None
    case Some(c) =>
      assert forall k :: 0 <= k < c ==> l[k] != '|' by {
        forall k | 0 <= k < c ensures l[k] != '|' {
          assert !At(l, k, "|");
        }
      }
      assert At(l, c, "|");
      if c + 1 < |l| then Some(c) else None
  }

  /** The number of consecutive pipe lines from index `i` on. */
  function PipeRun(ls: seq<string>, i: nat): (n: nat)
    requires i <= |ls|
    ensures i + n <= |ls|
    ensures forall k :: i <= k < i + n ==> IsPipeLine(ls[k])
    ensures i + n < |ls| ==> !IsPipeLine(ls[i + n])
    decreases |ls| - i
  {
    if i < |ls| && IsPipeLine(ls[i]) then 1 + PipeRun(ls, i + 1) else 0
  }

  /** Some line strictly inside the run `ls[i..i+n]` (not its first, not its last) is a
      separator: the greedy first group backs off until it finds one. */
  predicate HasSeparator(ls: seq<string>, i: nat, n: nat)
    requires i + n <= |ls|
  {
    exists k :: i + 1 <= k < i + n - 1 && IsSeparatorLine(ls[k])
  }

  /** Each line followed by the `\n` that ended it. */
  function Unlines(ls: seq<string>): string {
    if ls == [] then [] else ls[0] + "\n" + Unlines(ls[1..])
  }

  /** The number of lines a match starting on line `i` covers: that line and the run of
      pipe lines after it. */
  function FoundLength(ls: seq<string>, i: nat): (n: nat)
    requires i < |ls|
    ensures i + n <= |ls|
  {
    1 + PipeRun(ls, i + 1)
  }

  /** The lines of the match starting on line `i`: from the line's first `|` to the end of
      the run of pipe lines after it. */
  function FoundTable(ls: seq<string>, i: nat): seq<string>
    requires i < |ls| && StartColumn(ls[i]).Some?
  {
    [ls[i][StartColumn(ls[i]).value..]] + ls[i + 1..i + FoundLength(ls, i)]
  }

  /** The tables `re.findall` returns, as their lines, scanning the `\n`-terminated lines
      `ls` from index `i`. A match takes the whole run of pipe lines; after it the scan goes
      on after the run, otherwise at the next line. */
  function TablesFrom(ls: seq<string>, i: nat): (r: seq<seq<string>>)
    requires i <= |ls|
    decreases |ls| - i
  {
    if i == |ls| then []
    else if StartColumn(ls[i]).Some? && HasSeparator(ls, i, FoundLength(ls, i)) then
      [FoundTable(ls, i)] + TablesFrom(ls, i + FoundLength(ls, i))
    else TablesFrom(ls, i + 1)
  }

  /** The shape the expression demands of a match: one or more pipe lines, a separator,
      one or more pipe lines. */
  predicate IsTable(t: seq<string>) {
    && |t| >= 3
    && (forall k :: 0 <= k < |t| ==> IsPipeLine(t[k]))
    && exists k :: 1 <= k < |t| - 1 && IsSeparatorLine(t[k])
  }

  /** A match found has the shape the expression demands. */
  lemma FoundTableIsTable(ls: seq<string>, i: nat)
    requires i < |ls| && StartColumn(ls[i]).Some? && HasSeparator(ls, i, FoundLength(ls, i))
    ensures IsTable(FoundTable(ls, i))
  {
    var n := FoundLength(ls, i);
    var t := FoundTable(ls, i);
    var k :| i + 1 <= k < i + n - 1 && IsSeparatorLine(ls[k]);
    assert t[k - i] == ls[k];
    assert forall q :: 1 <= q < |t| ==> t[q] == ls[i + q];
  }

  /** Every table found has the shape the expression demands. */
  lemma {:induction false} TablesAreTables(ls: seq<string>, i: nat)
    requires i <= |ls|
    ensures forall t :: t in TablesFrom(ls, i) ==> IsTable(t)
    decreases |ls| - i
  {
    if i < |ls| {
      if StartColumn(ls[i]).Some? && HasSeparator(ls, i, FoundLength(ls, i)) {
        TablesAreTables(ls, i + FoundLength(ls, i));
        FoundTableIsTable(ls, i);
      } else {
        TablesAreTables(ls, i + 1);
      }
    }
  }

  /** A header line, a separator line and one or more pipe lines, and nothing else, are found
      as exactly one table. */
  lemma TableFound(ls: seq<string>)
    requires IsTable(ls) && IsSeparatorLine(ls[1])
    ensures TablesFrom(ls, 0) == [ls]
  {
    var c := StartColumn(ls[0]);
    assert ls[0][0] == '|' && At(ls[0], 0, "|");
    assert c == Some(0);
    var n := FoundLength(ls, 0);
    PipeRunAll(ls, 1);
    assert HasSeparator(ls, 0, n) by {
      assert 0 + 1 <= 1 < 0 + n - 1 && IsSeparatorLine(ls[1]);
    }
    assert FoundTable(ls, 0) == [ls[0][0..]] + ls[1..n] == ls;
  }

  lemma {:induction false} PipeRunAll(ls: seq<string>, i: nat)
    requires i <= |ls|
    requires forall k :: i <= k < |ls| ==> IsPipeLine(ls[k])
    ensures PipeRun(ls, i) == |ls| - i
    decreases |ls| - i
  {
    if i < |ls| {
      PipeRunAll(ls, i + 1);
    }
  }

  /** A line where no match can start: the lines before it and the lines after it are
      scanned independently, since no match can run across it. */
  predicate IsCut(ls: seq<string>, j: nat)
    requires j <= |ls|
  {
    j == 0 || StartColumn(ls[j - 1]).None?
  }

  /** A run of pipe lines stops at the first line that is not one, and reads the same in any
      prefix that holds that line. */
  lemma {:induction false} PipeRunPrefix(ls: seq<string>, p: nat, m: nat)
    requires p <= m < |ls| && !IsPipeLine(ls[m])
    ensures p + PipeRun(ls, p) <= m
    ensures PipeRun(ls[..m + 1], p) == PipeRun(ls, p)
    decreases m - p
  {
    assert ls[..m + 1][p] == ls[p];
    if p < m && IsPipeLine(ls[p]) {
      PipeRunPrefix(ls, p + 1, m);
    }
  }

  /** The tables the scan finds on line `i` itself: none, or the match starting there. */
  function FoundHere(ls: seq<string>, i: nat): seq<seq<string>>
    requires i < |ls|
  {
    if StartColumn(ls[i]).Some? && HasSeparator(ls, i, FoundLength(ls, i)) then [FoundTable(ls, i)] else []
  }

  /** Where the scan goes on after line `i`: after the match, or at the next line. */
  function NextScan(ls: seq<string>, i: nat): (r: nat)
    requires i < |ls|
    ensures i < r <= |ls|
  {
    if StartColumn(ls[i]).Some? && HasSeparator(ls, i, FoundLength(ls, i)) then i + FoundLength(ls, i) else i + 1
  }

  lemma TablesFromStep(ls: seq<string>, i: nat)
    requires i < |ls|
    ensures TablesFrom(ls, i) == FoundHere(ls, i) + TablesFrom(ls, NextScan(ls, i))
  {
  }

  /** A match starting before a cut ends before it, and its run reads the same in the
      lines before the cut. */
  lemma CutRun(ls: seq<string>, i: nat, j: nat)
    requires i < j <= |ls| && IsCut(ls, j) && StartColumn(ls[i]).Some?
    ensures i + FoundLength(ls, i) < j
    ensures FoundLength(ls[..j], i) == FoundLength(ls, i)
  {
    assert ls[..j][i] == ls[i];
    assert i + 1 < j;
    assert !IsPipeLine(ls[j - 1]) by {
      if IsPipeLine(ls[j - 1]) {
        assert At(ls[j - 1], 0, "|");
      }
    }
    PipeRunPrefix(ls, i + 1, j - 1);
    assert ls[..j - 1 + 1] == ls[..j];
  }

  /** Lines before the cut read the same in the prefix. */
  lemma PrefixLines(ls: seq<string>, i: nat, n: nat, j: nat)
    requires 1 <= n && i + n <= j <= |ls|
    ensures ls[..j][i] == ls[i]
    ensures ls[..j][i + 1..i + n] == ls[i + 1..i + n]
    ensures HasSeparator(ls[..j], i, n) <==> HasSeparator(ls, i, n)
  {
    var pre := ls[..j];
    assert forall k :: i <= k < i + n ==> pre[k] == ls[k];
  }

  /** One scan step from `i` before a cut `j` is the same on the prefix `ls[..j]`, and it
      does not pass the cut. */
  lemma TablesFromCutStep(ls: seq<string>, i: nat, j: nat)
    requires i < j <= |ls| && IsCut(ls, j)
    ensures NextScan(ls, i) <= j
    ensures NextScan(ls[..j], i) == NextScan(ls, i)
    ensures FoundHere(ls[..j], i) == FoundHere(ls, i)
  {
    assert ls[..j][i] == ls[i];
    if StartColumn(ls[i]).Some? {
      CutRun(ls, i, j);
      PrefixLines(ls, i, FoundLength(ls, i), j);
    }
  }

  /** The scan from `i` up to a cut finds what the scan of the lines before the cut finds,
      then goes on from the cut. */
  lemma {:induction false} TablesFromCut(ls: seq<string>, i: nat, j: nat)
    requires i <= j <= |ls| && IsCut(ls, j)
    ensures TablesFrom(ls, i) == TablesFrom(ls[..j], i) + TablesFrom(ls, j)
    decreases j - i
  {
    var pre := ls[..j];
    if i == j {
      assert TablesFrom(pre, i) == [];
    } else {
      TablesFromCutStep(ls, i, j);
      TablesFromStep(ls, i);
      TablesFromStep(pre, i);
      var next := NextScan(ls, i);
      TablesFromCut(ls, next, j);
      AppendAssoc(FoundHere(ls, i), TablesFrom(pre, next), TablesFrom(ls, j));
    }
  }

  /** The scan at a line where a match starts and a separator lies inside the run takes
      the run as a table. */
  lemma TablesFromFound(ls: seq<string>, i: nat)
    requires i < |ls| && StartColumn(ls[i]).Some?
    requires HasSeparator(ls, i, FoundLength(ls, i))
    ensures TablesFrom(ls, i) == [FoundTable(ls, i)] + TablesFrom(ls, i + FoundLength(ls, i))
  {
  }

  /** Completeness: a table whose first line follows a line where no match can start is
      found, in order: after the tables of the lines before it and before those of the
      lines after it. It starts at the first `|` of its first line and takes the whole run
      of pipe lines that follows, provided a separator lies strictly inside the run. */
  lemma TableFoundAt(ls: seq<string>, j: nat)
    requires j < |ls| && IsCut(ls, j) && StartColumn(ls[j]).Some?
    requires HasSeparator(ls, j, FoundLength(ls, j))
    ensures TablesFrom(ls, 0) == TablesFrom(ls[..j], 0) + [FoundTable(ls, j)] + TablesFrom(ls, j + FoundLength(ls, j))
  {
    var before, here, after := TablesFrom(ls[..j], 0), TablesFrom(ls, j), TablesFrom(ls, j + FoundLength(ls, j));
    TablesFromCut(ls, 0, j);
    TablesFromFound(ls, j);
    AppendAssoc(before, [FoundTable(ls, j)], after);
  }

  /** Text with no `|` holds no table. */
  lemma {:induction false} NoPipeNoTables(ls: seq<string>, i: nat)
    requires i <= |ls|
    requires forall k :: 0 <= k < |ls| ==> '|' !in ls[k]
    ensures TablesFrom(ls, i) == []
    decreases |ls| - i
  {
    if i < |ls| {
      assert StartColumn(ls[i]).None?;
      NoPipeNoTables(ls, i + 1);
    }
  }

  /** The `\n`-terminated lines of `s`: the text after the last `\n` can end no match. */
  function TerminatedLines(s: string): (ls: seq<string>)
    ensures forall k :: 0 <= k < |ls| ==> '\n' !in ls[k]
  {
    var parts := Split(s, '\n');
    parts[..|parts| - 1]
  }

  /** The tables `re.findall` finds in `s`, in order. */
  function Tables(s: string): (r: seq<string>)
    ensures |r| == |TablesFrom(TerminatedLines(s), 0)|
  {
    var ts := TablesFrom(TerminatedLines(s), 0);
    seq(|ts|, k requires 0 <= k < |ts| => Unlines(ts[k]))
  }

  /** `split_tables(markdown_text)`: the first two tables, `""` standing for a missing one. */
  function SplitTables(s: string): (r: (string, string))
    ensures r.0 == "" <==> |Tables(s)| == 0
    ensures r.1 == "" <==> |Tables(s)| < 2
    ensures |Tables(s)| >= 1 ==> r.0 == Tables(s)[0]
    ensures |Tables(s)| >= 2 ==> r.1 == Tables(s)[1]
  {
    var ts := Tables(s);
    TablesAreTables(TerminatedLines(s), 0);
    var raw := TablesFrom(TerminatedLines(s), 0);
    if |ts| >= 2 then
      assert raw[0] in raw && raw[1] in raw;
      UnlinesNonEmpty(raw[0]);
      UnlinesNonEmpty(raw[1]);
      (ts[0], ts[1])
    else if |ts| == 1 then
      assert raw[0] in raw;
      UnlinesNonEmpty(raw[0]);
      (ts[0], "")
    else ("", "")
  }

  lemma UnlinesNonEmpty(ls: seq<string>)
    requires ls != []
    ensures Unlines(ls) != []
  {
  }

  /** The table-location step of `parse_markdown_table(md)`: every `**` is removed, then the
      first table is taken; `None` is the empty frame returned when there is none. */
  function LocateTable(md: string): (r: Option<string>)
    ensures r.None? <==> Tables(ReplaceAll(md, "**", "")) == []
    ensures r.Some? ==> r.value == SplitTables(ReplaceAll(md, "**", "")).0 && r.value != ""
  {
    var ts := Tables(ReplaceAll(md, "**", ""));
    if ts == [] then None else Some(ts[0])
  }
}
