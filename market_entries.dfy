/**
 * `extractMarketEntries` in the dashboard (frontend/src/components/Dashboard.js, 1300-1329):
 * the market names offered for a follow-up analysis, read from the lines of an analysis
 * text. Five patterns are tried on each line in turn; each capture is trimmed and kept when
 * it has 3 to 99 characters and was not kept before; the first ten are returned.
 *
 * Each pattern is anchored at the start of the line and is read here as a scanner. Where a
 * pattern has a lazy group, the capture is the shortest the source's backtracking finds,
 * argued at the pattern.
 */
module MarketEntries {
  import opened JsText

  // ---------------------------------------------------------------------------
  // The five line patterns

  datatype Pattern =
    | NumberedBold   // ^\d+\.\s*\*\*([^*]+)\*\*
    | NumberedPlain  // ^\d+\.\s*([^-\n]+?)(?:\s*-|\s*$)
    | StarBold       // ^\*\s*\*\*([^*]+)\*\*
    | DashBold       // ^\-\s*\*\*([^*]+)\*\*
    | TableCell      // ^\|\s*([^|]+?)\s*\|

  /** The patterns in the order the source tries them. */
  const PATTERNS: seq<Pattern> := [NumberedBold, NumberedPlain, StarBold, DashBold, TableCell]

  /** The end of the run of characters other than `c` starting at `i`. */
  function RunEnd(s: string, i: nat, c: char): (e: nat)
    requires i <= |s|
    ensures i <= e <= |s| && (forall k :: i <= k < e ==> s[k] != c) && (e < |s| ==> s[e] == c)
    decreases |s| - i
  {
    if i < |s| && s[i] != c then RunEnd(s, i + 1, c) else i
  }

  /** `^\d+\.`: where the numbered marker ends. Digits are never dots, so the greedy `\d+`
      needs no backtracking. */
  function NumberedEnd(line: string): (r: Option<nat>)
    ensures r.Some? ==> 2 <= r.value <= |line|
  {
    var d := DigitsEnd(line, 0);
    if 0 < d < |line| && line[d] == '.' then Some(d + 1) else None
  }

  /** `\*\*([^*]+)\*\*` at `p`. The greedy `[^*]+` stops at the first star, and giving back
      characters cannot help, since none of them is a star. */
  function BoldAt(line: string, p: nat): Option<string>
    requires p <= |line|
  {
    if p + 2 <= |line| && line[p] == '*' && line[p + 1] == '*' then
      var e := RunEnd(line, p + 2, '*');
      if e > p + 2 && e + 2 <= |line| && line[e + 1] == '*' then Some(line[p + 2..e]) else None
    else None
  }

  /** The capture of one pattern on one line (group 1), or `None` when it does not match.
      Before the capture, `\s*` is greedy and the capture cannot start with white space
      except by giving some of it back, which the source does only when the capture would
      otherwise fail: then the capture is the single white-space character before the
      stop, which trims to nothing. */
  function Capture(p: Pattern, line: string): Option<string>
    requires '\n' !in line
  {
    match p
    case NumberedBold =>
      (match NumberedEnd(line)
       case None => None
       case Some(a) => BoldAt(line, SpacesEnd(line, a)))
    case NumberedPlain =>
      // The lazy capture grows until the rest of the line is white space then `-`, or white
      // space then the end: it runs to the first `-` (or the end) less the trailing white
      // space.
      (match NumberedEnd(line)
       case None => None
       case Some(a) =>
         var q := SpacesEnd(line, a);
         if q < |line| && line[q] != '-' then Some(TrimEnd(line[q..RunEnd(line, q, '-')]))
         else if q > a then Some([line[q - 1]])
         else None)
    case StarBold =>
      if |line| > 0 && line[0] == '*' then BoldAt(line, SpacesEnd(line, 1)) else None
    case DashBold =>
      if |line| > 0 && line[0] == '-' then BoldAt(line, SpacesEnd(line, 1)) else None
    case TableCell =>
      // The lazy capture grows until white space then `|` follows: it runs to the next `|`
      // less the trailing white space; without a second `|` nothing matches.
      if |line| > 0 && line[0] == '|' then
        var q := SpacesEnd(line, 1);
        var d := RunEnd(line, q, '|');
        if d == |line| then None
        else if d > q then Some(TrimEnd(line[q..d]))
        else if q > 1 then Some([line[q - 1]])
        else None
      else None
  }

  /** `BoldAt` finds exactly `**name**` with a non-empty name free of stars. */
  lemma BoldAtIff(line: string, p: nat, name: string)
    requires p <= |line|
    ensures BoldAt(line, p) == Some(name) <==>
              && p + |name| + 4 <= |line|
              && name != [] && '*' !in name
              && line[p] == '*' && line[p + 1] == '*'
              && line[p + 2..p + 2 + |name|] == name
              && line[p + 2 + |name|] == '*' && line[p + 3 + |name|] == '*'
  {
    var n := p + 2 + |name|;
    if p + |name| + 4 <= |line| && name != [] && '*' !in name && line[p] == '*' && line[p + 1] == '*'
       && line[p + 2..n] == name && line[n] == '*' && line[n + 1] == '*' {
      forall k | p + 2 <= k < n ensures line[k] != '*' {
        assert line[k] == name[k - p - 2];
      }
      RunEndIs(line, p + 2, '*', n);
    }
  }

  lemma {:induction false} RunEndIs(s: string, i: nat, c: char, e: nat)
    requires i <= e <= |s| && (forall k :: i <= k < e ==> s[k] != c) && (e < |s| ==> s[e] == c)
    ensures RunEnd(s, i, c) == e
    decreases e - i
  {
    if i < e {
      RunEndIs(s, i + 1, c, e);
    }
  }

  // ---------------------------------------------------------------------------
  // Keeping entries

  /** The length test on a trimmed capture. */
  predicate Fits(entry: string) {
    2 < |entry| < 100
  }

  /** Capture `o` offers `x`: it matched, and trimmed it is `x`, which fits. */
  predicate Offers(o: Option<string>, x: string) {
    o.Some? && Trim(o.value) == x && Fits(x)
  }

  /** The captures in the order they are tried, with the entries kept so far: an entry is
      kept when it fits and is new. */
  function Accepted(cs: seq<Option<string>>): seq<string>
    decreases |cs|
  {
    if cs == [] then []
    else
      var kept := Accepted(cs[..|cs| - 1]);
      match cs[|cs| - 1]
      case None => kept
      case Some(c) =>
        var entry := Trim(c);
        if Fits(entry) && entry !in kept then kept + [entry] else kept
  }

  /** Some capture offers `x`. */
  predicate IsOffered(cs: seq<Option<string>>, x: string) {
    exists i :: 0 <= i < |cs| && Offers(cs[i], x)
  }

  /** The index of the first capture offering `x`, or `|cs|` when none does. */
  function FirstOffer(cs: seq<Option<string>>, x: string): (r: nat)
    ensures r <= |cs|
    decreases |cs|
  {
    if cs == [] then 0
    else
      var r := FirstOffer(cs[..|cs| - 1], x);
      if r < |cs| - 1 then r else if Offers(cs[|cs| - 1], x) then |cs| - 1 else |cs|
  }

  lemma FirstOfferSnoc(cs: seq<Option<string>>, o: Option<string>, x: string)
    ensures FirstOffer(cs + [o], x)
            == if FirstOffer(cs, x) < |cs| then FirstOffer(cs, x) else if Offers(o, x) then |cs| else |cs| + 1
  {
    assert (cs + [o])[..|cs|] == cs;
  }

  /** `FirstOffer` is the first index that offers `x`, and there is one exactly when `x` is
      offered at all. */
  lemma FirstOfferSpec(cs: seq<Option<string>>, x: string)
    ensures FirstOffer(cs, x) < |cs| ==> Offers(cs[FirstOffer(cs, x)], x)
    ensures forall k :: 0 <= k < FirstOffer(cs, x) ==> !Offers(cs[k], x)
    ensures FirstOffer(cs, x) < |cs| <==> IsOffered(cs, x)
  {
    FirstOfferIs(cs, x);
  }

  lemma {:induction false} FirstOfferIs(cs: seq<Option<string>>, x: string)
    ensures FirstOffer(cs, x) < |cs| ==> Offers(cs[FirstOffer(cs, x)], x)
    ensures forall k :: 0 <= k < FirstOffer(cs, x) ==> !Offers(cs[k], x)
    decreases |cs|
  {
    if cs != [] {
      var init, o := cs[..|cs| - 1], cs[|cs| - 1];
      assert cs == init + [o];
      FirstOfferSnoc(init, o, x);
      FirstOfferIs(init, x);
      assert forall k :: 0 <= k < |init| ==> cs[k] == init[k];
    }
  }

  lemma AcceptedSnoc(cs: seq<Option<string>>, o: Option<string>)
    ensures Accepted(cs + [o]) == (match o
                                   case None => Accepted(cs)
                                   case Some(c) =>
                                     if Fits(Trim(c)) && Trim(c) !in Accepted(cs) then Accepted(cs) + [Trim(c)]
                                     else Accepted(cs))
  {
    assert (cs + [o])[..|cs|] == cs;
  }

  /** Each entry kept fits and is trimmed, and none is kept twice. */
  lemma {:induction false} AcceptedDistinct(cs: seq<Option<string>>)
    ensures var kept := Accepted(cs);
            && (forall i :: 0 <= i < |kept| ==> Fits(kept[i]) && Trimmed(kept[i]))
            && (forall i, j :: 0 <= i < j < |kept| ==> kept[i] != kept[j])
    decreases |cs|
  {
    if cs != [] {
      var init, o := cs[..|cs| - 1], cs[|cs| - 1];
      assert cs == init + [o];
      AcceptedSnoc(init, o);
      AcceptedDistinct(init);
    }
  }

  lemma IsOfferedSnoc(cs: seq<Option<string>>, o: Option<string>, x: string)
    ensures IsOffered(cs + [o], x) <==> IsOffered(cs, x) || Offers(o, x)
  {
    var all := cs + [o];
    if IsOffered(all, x) {
      var i :| 0 <= i < |all| && Offers(all[i], x);
      if i < |cs| {
        assert all[i] == cs[i];
      }
    }
    if IsOffered(cs, x) {
      var i :| 0 <= i < |cs| && Offers(cs[i], x);
      assert all[i] == cs[i];
    }
    if Offers(o, x) {
      assert all[|cs|] == o;
    }
  }

  /** Exactly the offered entries are kept. */
  lemma {:induction false} AcceptedMember(cs: seq<Option<string>>, x: string)
    ensures x in Accepted(cs) <==> IsOffered(cs, x)
    decreases |cs|
  {
    if cs != [] {
      var init, o := cs[..|cs| - 1], cs[|cs| - 1];
      assert cs == init + [o];
      AcceptedSnoc(init, o);
      AcceptedMember(init, x);
      IsOfferedSnoc(init, o, x);
    }
  }

  lemma AcceptedMembers(cs: seq<Option<string>>)
    ensures forall x :: x in Accepted(cs) <==> IsOffered(cs, x)
  {
    forall x ensures x in Accepted(cs) <==> IsOffered(cs, x) {
      AcceptedMember(cs, x);
    }
  }

  /** The entries kept are in the order of their first offer. */
  lemma {:induction false} AcceptedOrder(cs: seq<Option<string>>)
    ensures var kept := Accepted(cs);
            forall i, j :: 0 <= i < j < |kept| ==> FirstOffer(cs, kept[i]) < FirstOffer(cs, kept[j])
    decreases |cs|
  {
    if cs != [] {
      var init, o := cs[..|cs| - 1], cs[|cs| - 1];
      var before := Accepted(init);
      assert cs == init + [o];
      AcceptedSnoc(init, o);
      AcceptedOrder(init);
      AcceptedMembers(init);
      forall x | x in before ensures FirstOffer(cs, x) == FirstOffer(init, x) < |init| {
        FirstOfferSpec(init, x);
        FirstOfferSnoc(init, o, x);
      }
      if o.Some? && Fits(Trim(o.value)) && Trim(o.value) !in before {
        var e := Trim(o.value);
        FirstOfferSpec(init, e);
        FirstOfferSnoc(init, o, e);
        assert FirstOffer(cs, e) == |init|;
      }
    }
  }

  // ---------------------------------------------------------------------------
  // extractMarketEntries

  /** The captures of all patterns on one line, in the order they are tried. */
  function LineCaptures(line: string): (r: seq<Option<string>>)
    requires '\n' !in line
    ensures |r| == |PATTERNS| && forall k :: 0 <= k < |r| ==> r[k] == Capture(PATTERNS[k], line)
  {
    seq(|PATTERNS|, k requires 0 <= k < |PATTERNS| => Capture(PATTERNS[k], line))
  }

  /** The captures of all lines, line by line. */
  function Captures(lines: seq<string>): seq<Option<string>>
    requires forall i :: 0 <= i < |lines| ==> '\n' !in lines[i]
    decreases |lines|
  {
    if lines == [] then []
    else Captures(lines[..|lines| - 1]) + LineCaptures(lines[|lines| - 1])
  }

  /** What `extractMarketEntries` returns for the analysis text, if any. */
  function MarketEntryList(data: Option<string>): seq<string> {
    match data
    case None => []
    case Some(text) =>
      if text == [] then []
      else
        var lines := Split(text, '\n');
        Take(Accepted(Captures(lines)), 10)
  }

  lemma CapturesSnoc(lines: seq<string>, i: nat)
    requires i < |lines| && forall k :: 0 <= k < |lines| ==> '\n' !in lines[k]
    ensures Captures(lines[..i + 1]) == Captures(lines[..i]) + LineCaptures(lines[i])
  {
    assert lines[..i + 1][..i] == lines[..i];
  }

  /** The loop of `extractMarketEntries`: lines in order, patterns in order within a line. */
  method ExtractMarketEntries(data: Option<string>) returns (entries: seq<string>)
    ensures entries == MarketEntryList(data)
  {
    if data == None || data.value == [] {
      return [];
    }
    var lines := Split(data.value, '\n');
    var all: seq<string> := [];
    ghost var tried: seq<Option<string>> := [];
    var i := 0;
    while i < |lines|
      invariant i <= |lines|
      invariant tried == Captures(lines[..i])
      invariant all == Accepted(tried)
    {
      var line := lines[i];
      ghost var row := LineCaptures(line);
      var k := 0;
      assert tried + row[..k] == tried;
      while k < |PATTERNS|
        invariant k <= |PATTERNS|
        invariant all == Accepted(tried + row[..k])
      {
        var capture := Capture(PATTERNS[k], line);
        AcceptedSnoc(tried + row[..k], capture);
        SliceSnoc(row, k);
        AppendAssoc(tried, row[..k], [capture]);
        if capture.Some? {
          var entry := Trim(capture.value);
          if 2 < |entry| < 100 && entry !in all {
            all := all + [entry];
          }
        }
        k := k + 1;
      }
      assert row[..k] == row;
      CapturesSnoc(lines, i);
      tried := tried + row;
      i := i + 1;
    }
    assert lines[..i] == lines;
    assert all == Accepted(Captures(lines));
    entries := Take(all, 10);
    assert MarketEntryList(data) == Take(Accepted(Captures(Split(data.value, '\n'))), 10);
  }

  /** The first ten entries kept: at most ten, each trimmed and of 3 to 99 characters, none
      twice, each offered by some capture, in the order of their first offer; and an offered
      entry is missing only when ten were already found. */
  lemma FirstTenSpec(cs: seq<Option<string>>)
    ensures var r := Take(Accepted(cs), 10);
            && |r| <= 10
            && (forall i :: 0 <= i < |r| ==> Fits(r[i]) && Trimmed(r[i]))
            && (forall i, j :: 0 <= i < j < |r| ==> r[i] != r[j])
            && (forall x :: x in r ==> IsOffered(cs, x))
            && (forall i, j :: 0 <= i < j < |r| ==> FirstOffer(cs, r[i]) < FirstOffer(cs, r[j]))
            && (forall x :: IsOffered(cs, x) && x !in r ==> |r| == 10)
  {
    var kept := Accepted(cs);
    var r := Take(kept, 10);
    AcceptedDistinct(cs);
    AcceptedMembers(cs);
    AcceptedOrder(cs);
    assert forall i :: 0 <= i < |r| ==> r[i] == kept[i];
    if |r| < 10 {
      assert r == kept;
    }
  }

  /** What the source promises of the list: no text gives no entries; otherwise at most ten
      entries, each trimmed and of 3 to 99 characters, none twice, each offered by a capture
      on some line, in the order of their first offer, and an offered entry is missing only
      when ten were already found. */
  lemma MarketEntryListSpec(data: Option<string>)
    ensures data == None || data == Some("") ==> MarketEntryList(data) == []
    ensures data.Some? && data.value != "" ==>
              var r := MarketEntryList(data);
              var cs := Captures(Split(data.value, '\n'));
              && |r| <= 10
              && (forall i :: 0 <= i < |r| ==> Fits(r[i]) && Trimmed(r[i]))
              && (forall i, j :: 0 <= i < j < |r| ==> r[i] != r[j])
              && (forall x :: x in r ==> IsOffered(cs, x))
              && (forall i, j :: 0 <= i < j < |r| ==> FirstOffer(cs, r[i]) < FirstOffer(cs, r[j]))
              && (forall x :: IsOffered(cs, x) && x !in r ==> |r| == 10)
  {
    if data.Some? && data.value != "" {
      var cs := Captures(Split(data.value, '\n'));
      FirstTenSpec(cs);
      assert MarketEntryList(data) == Take(Accepted(cs), 10);
    }
  }
}
