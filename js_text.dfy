/**
 * String helpers shared by the formatter, the export pipeline and the backend model.
 * A `char` stands for one UTF-16 code unit of a JavaScript string (or one code point of
 * a Python string); nothing here depends on the difference.
 */
module JsText {

  datatype Option<T> = None | Some(value: T)

  /** The characters JavaScript's `\s` class and `String.prototype.trim` treat as white
      space: WhiteSpace plus LineTerminator of the ECMAScript grammar. */
  predicate IsSpace(c: char) {
    c == '\t' || c == '\n' || c == '\U{000B}' || c == '\U{000C}' || c == '\r' || c == ' ' ||
    c == '\U{00A0}' || c == '\U{1680}' || ('\U{2000}' <= c <= '\U{200A}') ||
    c == '\U{2028}' || c == '\U{2029}' || c == '\U{202F}' || c == '\U{205F}' ||
    c == '\U{3000}' || c == '\U{FEFF}'
  }

  /** The characters that end a line for JavaScript's `.`, `^` and `$` (multiline). */
  predicate IsLineTerminator(c: char) {
    c == '\n' || c == '\r' || c == '\U{2028}' || c == '\U{2029}'
  }

  lemma LineTerminatorIsSpace(c: char)
    requires IsLineTerminator(c)
    ensures IsSpace(c)
  {
  }

  predicate IsDigit(c: char) { '0' <= c <= '9' }

  predicate IsAsciiAlnum(c: char) {
    ('a' <= c <= 'z') || ('A' <= c <= 'Z') || ('0' <= c <= '9')
  }

  /** ASCII lower-casing; JavaScript's case-insensitive (non-unicode) regex matching
      never maps a non-ASCII character onto an ASCII one, so this is all it needs. */
  function AsciiLower(c: char): (r: char)
    ensures IsAsciiAlnum(c) <==> IsAsciiAlnum(r)
    ensures ('A' <= c <= 'Z') ==> r != c
    ensures !('A' <= c <= 'Z') ==> r == c
  {
    if 'A' <= c <= 'Z' then (c as int + 32) as char else c
  }

  // ---------------------------------------------------------------------------
  // Substrings

  /** `pat` occurs in `s` starting at index `i`. */
  predicate At(s: string, i: nat, pat: string) {
    i + |pat| <= |s| && s[i..i + |pat|] == pat
  }

  /** The leftmost occurrence of `pat` in `s` at or after index `from`
      (`s.indexOf(pat, from)`, with `None` for -1). */
  function FindFrom(s: string, pat: string, from: nat): (r: Option<nat>)
    ensures r.Some? ==> from <= r.value && At(s, r.value, pat)
    ensures r.Some? ==> forall k :: from <= k < r.value ==> !At(s, k, pat)
    ensures r.None? ==> forall k :: from <= k ==> !At(s, k, pat)
    decreases |s| - from
  {
    if from + |pat| > |s| then None
    else if At(s, from, pat) then Some(from)
    else FindFrom(s, pat, from + 1)
  }

  /** The leftmost `c` in `s` at or after index `from` (`s.indexOf(c, from)` for a
      one-character string). */
  function CharFrom(s: string, c: char, from: nat): (r: Option<nat>)
    ensures r.Some? ==> from <= r.value < |s| && s[r.value] == c
    ensures r.Some? ==> forall k :: from <= k < r.value ==> s[k] != c
    ensures r.None? ==> forall k :: from <= k < |s| ==> s[k] != c
    decreases |s| - from
  {
    if from >= |s| then None
    else if s[from] == c then Some(from)
    else CharFrom(s, c, from + 1)
  }

  /** The end of the line holding index `i`: the first `\n` at or after `i`, or the end of `s`. */
  function LineEnd(s: string, i: nat): (e: nat)
    requires i <= |s|
    ensures i <= e <= |s| && (e < |s| ==> s[e] == '\n')
    ensures forall k :: i <= k < e ==> s[k] != '\n'
    decreases |s| - i
  {
    if i == |s| || s[i] == '\n' then i else LineEnd(s, i + 1)
  }

  /** An occurrence of `pat` is also one of each of its prefixes. */
  lemma AtPrefix(s: string, i: nat, pat: string, n: nat)
    requires n <= |pat|
    ensures At(s, i, pat) ==> At(s, i, pat[..n])
  {
    if At(s, i, pat) {
      assert s[i..i + n] == s[i..i + |pat|][..n];
    }
  }

  /** Concatenation is associative; stated once so that loops building text can cite it
      instead of having the verifier compare the texts character by character. */
  lemma AppendAssoc<T>(a: seq<T>, b: seq<T>, c: seq<T>)
    ensures (a + b) + c == a + (b + c)
  {
  }

  lemma SliceSplit<T>(s: seq<T>, i: nat, e: nat)
    requires i <= e <= |s|
    ensures s[i..] == s[i..e] + s[e..]
  {
  }

  lemma ConsAppend<T>(a: seq<T>, b: seq<T>)
    requires a != []
    ensures (a + b)[0] == a[0] && (a + b)[1..] == a[1..] + b
  {
  }

  lemma LastSnoc<T>(s: seq<T>)
    requires s != []
    ensures s[..|s| - 1] + [s[|s| - 1]] == s
  {
  }

  lemma SliceSnoc<T>(s: seq<T>, i: nat)
    requires i < |s|
    ensures s[..i + 1] == s[..i] + [s[i]]
  {
  }

  /** `s.includes(pat)` */
  predicate Contains(s: string, pat: string) {
    exists i :: 0 <= i <= |s| - |pat| && At(s, i, pat)
  }

  lemma ContainsAt(s: string, i: nat, pat: string)
    requires At(s, i, pat)
    ensures Contains(s, pat)
  {
  }

  /** An occurrence inside either half is an occurrence in the concatenation. */
  lemma ContainsConcat(a: string, b: string, pat: string)
    ensures Contains(a, pat) ==> Contains(a + b, pat)
    ensures Contains(b, pat) ==> Contains(a + b, pat)
  {
    if Contains(a, pat) {
      var i :| 0 <= i <= |a| - |pat| && At(a, i, pat);
      assert (a + b)[i..i + |pat|] == a[i..i + |pat|];
      assert At(a + b, i, pat);
    }
    if Contains(b, pat) {
      var i :| 0 <= i <= |b| - |pat| && At(b, i, pat);
      assert (a + b)[|a| + i..|a| + i + |pat|] == b[i..i + |pat|];
      assert At(a + b, |a| + i, pat);
    }
  }

  /** A one-character pattern occurs exactly where the character does. */
  lemma ContainsChar(s: string, c: char)
    ensures Contains(s, [c]) <==> c in s
  {
    if c in s {
      var i :| 0 <= i < |s| && s[i] == c;
      assert At(s, i, [c]);
    }
    if Contains(s, [c]) {
      var i :| 0 <= i <= |s| - 1 && At(s, i, [c]);
      assert s[i] == c;
    }
  }

  /** A text free of `pat` has no slice holding it. */
  lemma NotContainsInfix(s: string, pat: string, a: nat, b: nat)
    requires a <= b <= |s| && !Contains(s, pat)
    ensures !Contains(s[a..b], pat)
  {
    forall i | 0 <= i <= (b - a) - |pat| ensures !At(s[a..b], i, pat) {
      var u, v := s[a..b][i..i + |pat|], s[a + i..a + i + |pat|];
      assert u == v by {
        forall k | 0 <= k < |pat| ensures u[k] == v[k] {
          assert u[k] == s[a + i + k];
        }
      }
      assert !At(s, a + i, pat);
    }
  }

  /** Case-insensitive (ASCII) occurrence of a lower-case pattern at `i`. */
  predicate AtCi(s: string, i: nat, pat: string) {
    i + |pat| <= |s| && forall k :: 0 <= k < |pat| ==> AsciiLower(s[i + k]) == pat[k]
  }

  // ---------------------------------------------------------------------------
  // Trimming

  /** The end of the run of digits starting at `i`. */
  function DigitsEnd(s: string, i: nat): (e: nat)
    requires i <= |s|
    ensures i <= e <= |s| && (forall k :: i <= k < e ==> IsDigit(s[k])) && (e < |s| ==> !IsDigit(s[e]))
    decreases |s| - i
  {
    if i < |s| && IsDigit(s[i]) then DigitsEnd(s, i + 1) else i
  }

  /** The end of the run of white space starting at `i`. */
  function SpacesEnd(s: string, i: nat): (e: nat)
    requires i <= |s|
    ensures i <= e <= |s| && (forall k :: i <= k < e ==> IsSpace(s[k])) && (e < |s| ==> !IsSpace(s[e]))
    decreases |s| - i
  {
    if i < |s| && IsSpace(s[i]) then SpacesEnd(s, i + 1) else i
  }

  /** `s.trimStart()` */
  function TrimStart(s: string): (r: string)
    ensures |r| <= |s|
    ensures r == [] || !IsSpace(r[0])
    ensures s != [] && IsSpace(s[0]) ==> |r| < |s|
  {
    if s == [] || !IsSpace(s[0]) then s else TrimStart(s[1..])
  }

  /** `trimStart` keeps a suffix and cuts only white space. */
  lemma {:induction false} TrimStartSpec(s: string)
    ensures TrimStart(s) == s[|s| - |TrimStart(s)|..]
    ensures forall k :: 0 <= k < |s| - |TrimStart(s)| ==> IsSpace(s[k])
  {
    if s != [] && IsSpace(s[0]) {
      TrimStartSpec(s[1..]);
      forall k | 0 < k < |s| - |TrimStart(s)| ensures IsSpace(s[k]) {
        assert s[k] == s[1..][k - 1];
      }
    }
  }

  /** `s.trimEnd()` */
  function TrimEnd(s: string): (r: string)
    ensures |r| <= |s|
    ensures r == [] || !IsSpace(r[|r| - 1])
    ensures r != [] ==> r[0] == s[0]
  {
    if s == [] || !IsSpace(s[|s| - 1]) then s else TrimEnd(s[..|s| - 1])
  }

  /** `trimEnd` keeps a prefix and cuts only white space. */
  lemma {:induction false} TrimEndSpec(s: string)
    ensures TrimEnd(s) == s[..|TrimEnd(s)|]
    ensures forall k :: |TrimEnd(s)| <= k < |s| ==> IsSpace(s[k])
  {
    if s != [] && IsSpace(s[|s| - 1]) {
      TrimEndSpec(s[..|s| - 1]);
      forall k | |TrimEnd(s)| <= k < |s| - 1 ensures IsSpace(s[k]) {
        assert s[k] == s[..|s| - 1][k];
      }
    }
  }

  /** Neither end is a space: what `trim` returns. */
  predicate Trimmed(s: string) {
    s == [] || (!IsSpace(s[0]) && !IsSpace(s[|s| - 1]))
  }

  /** `s.trim()`, with white space as JavaScript defines it. */
  function Trim(s: string): (r: string)
    ensures r == [] || (!IsSpace(r[0]) && !IsSpace(r[|r| - 1]))
  {
    TrimEnd(TrimStart(s))
  }

  /** Where the trimmed string starts inside its input. */
  function TrimOffset(s: string): (i: nat)
    ensures i <= |s|
  {
    |s| - |TrimStart(s)|
  }

  /** The trimmed string is a contiguous piece of the input ... */
  lemma TrimIsInfix(s: string)
    ensures TrimOffset(s) + |Trim(s)| <= |s|
    ensures Trim(s) == s[TrimOffset(s)..TrimOffset(s) + |Trim(s)|]
  {
    var t := TrimStart(s);
    var r := TrimEnd(t);
    TrimStartSpec(s);
    TrimEndSpec(t);
    assert t == s[|s| - |t|..];
    assert r == t[..|r|];
  }

  /** ... with only white space cut away in front ... */
  lemma TrimCutsSpaceBefore(s: string)
    ensures forall k :: 0 <= k < TrimOffset(s) ==> IsSpace(s[k])
  {
    TrimStartSpec(s);
  }

  /** ... and behind. */
  lemma TrimCutsSpaceAfter(s: string)
    ensures TrimOffset(s) + |Trim(s)| <= |s|
    ensures forall k :: TrimOffset(s) + |Trim(s)| <= k < |s| ==> IsSpace(s[k])
  {
    var t := TrimStart(s);
    var i := |s| - |t|;
    var r := TrimEnd(t);
    TrimStartSpec(s);
    TrimEndSpec(t);
    assert t == s[i..];
    forall k | i + |r| <= k < |s| ensures IsSpace(s[k]) {
      assert s[k] == t[k - i];
    }
  }

  /** Trimming twice is trimming once. */
  lemma TrimIdempotent(s: string)
    ensures Trim(Trim(s)) == Trim(s)
  {
    var r := Trim(s);
    assert r == [] || !IsSpace(r[0]);
    assert TrimStart(r) == r;
    assert r == [] || !IsSpace(r[|r| - 1]);
    assert TrimEnd(r) == r;
  }

  /** A string with no white space at either end is its own trim. */
  lemma TrimNoOp(s: string)
    requires Trimmed(s)
    ensures Trim(s) == s
  {
    assert TrimStart(s) == s;
  }

  lemma TrimNoChar(s: string, c: char)
    requires c !in s
    ensures c !in Trim(s)
  {
    TrimIsInfix(s);
    var i := TrimOffset(s);
    forall k | 0 <= k < |Trim(s)| ensures Trim(s)[k] != c {
      assert Trim(s)[k] == s[i + k];
    }
  }

  // ---------------------------------------------------------------------------
  // Splitting and joining on one character

  /** `s.split(sep)` for a one-character separator (JavaScript and Python agree). */
  function Split(s: string, sep: char): (r: seq<string>)
    ensures |r| >= 1
    ensures forall k :: 0 <= k < |r| ==> sep !in r[k]
  {
    if s == [] then [[]]
    else
      var rest := Split(s[1..], sep);
      if s[0] == sep then [[]] + rest else [[s[0]] + rest[0]] + rest[1..]
  }

  /** `parts.join(sep)` */
  function Join(parts: seq<string>, sep: string): string {
    if parts == [] then []
    else if |parts| == 1 then parts[0]
    else parts[0] + sep + Join(parts[1..], sep)
  }

  /** Splitting and joining back on the same character gives the input back. */
  lemma {:induction false} JoinSplit(s: string, sep: char)
    ensures Join(Split(s, sep), [sep]) == s
  {
    if s != [] {
      var rest := Split(s[1..], sep);
      JoinSplit(s[1..], sep);
      if s[0] == sep {
        assert Split(s, sep) == [[]] + rest;
      } else {
        assert Split(s, sep) == [[s[0]] + rest[0]] + rest[1..];
        if |rest| > 1 {
          assert ([[s[0]] + rest[0]] + rest[1..])[1..] == rest[1..];
          assert Join(rest, [sep]) == rest[0] + [sep] + Join(rest[1..], [sep]);
        }
      }
    }
  }

  /** Splitting brings in no character the text lacks. */
  lemma {:induction false} SplitNoChar(s: string, sep: char, c: char)
    requires c !in s
    ensures forall k :: 0 <= k < |Split(s, sep)| ==> c !in Split(s, sep)[k]
  {
    if s != [] {
      SplitNoChar(s[1..], sep, c);
    }
  }

  /** A text without the separator is one piece. */
  lemma {:induction false} SplitNoSep(a: string, sep: char)
    requires sep !in a
    ensures Split(a, sep) == [a]
  {
    if a != [] {
      SplitNoSep(a[1..], sep);
      assert [a[0]] + a[1..] == a;
    }
  }

  /** The first separator ends the first piece. */
  lemma {:induction false} SplitAtSep(a: string, sep: char, b: string)
    requires sep !in a
    ensures Split(a + [sep] + b, sep) == [a] + Split(b, sep)
  {
    var s := a + [sep] + b;
    if a == [] {
      assert s[1..] == b;
    } else {
      assert s[1..] == a[1..] + [sep] + b;
      SplitAtSep(a[1..], sep, b);
      assert [a[0]] + a[1..] == a;
    }
  }

  /** Joining pieces free of the separator and splitting again gives the pieces back. */
  lemma {:induction false} SplitJoin(parts: seq<string>, sep: char)
    requires parts != []
    requires forall k :: 0 <= k < |parts| ==> sep !in parts[k]
    ensures Split(Join(parts, [sep]), sep) == parts
  {
    if |parts| == 1 {
      SplitNoSep(parts[0], sep);
    } else {
      SplitJoin(parts[1..], sep);
      SplitAtSep(parts[0], sep, Join(parts[1..], [sep]));
      assert [parts[0]] + parts[1..] == parts;
    }
  }

  /** Occurrences of `c` in `s`. */
  function Count(s: string, c: char): nat {
    if s == [] then 0 else (if s[0] == c then 1 else 0) + Count(s[1..], c)
  }

  lemma CountPositive(s: string, c: char)
    ensures Count(s, c) > 0 <==> c in s
  {
  }

  /** Splitting yields one more piece than there are separators. */
  lemma {:induction false} SplitLength(s: string, sep: char)
    ensures |Split(s, sep)| == Count(s, sep) + 1
  {
    if s != [] {
      SplitLength(s[1..], sep);
    }
  }

  /** Joining pieces that have no `c` with a separator that has no `c` gives no `c`. */
  lemma {:induction false} JoinNoChar(parts: seq<string>, sep: string, c: char)
    requires forall k :: 0 <= k < |parts| ==> c !in parts[k]
    requires c !in sep
    ensures c !in Join(parts, sep)
  {
    if |parts| > 1 {
      JoinNoChar(parts[1..], sep, c);
    }
  }

  // ---------------------------------------------------------------------------
  // Literal global replacement

  /** `s.replace(/pat/g, rep)` for a literal, non-empty pattern: leftmost occurrences,
      non-overlapping, scanned from the left. */
  function ReplaceAll(s: string, pat: string, rep: string): string
    requires |pat| > 0
    decreases |s|
  {
    if |s| < |pat| then s
    else if s[..|pat|] == pat then rep + ReplaceAll(s[|pat|..], pat, rep)
    else [s[0]] + ReplaceAll(s[1..], pat, rep)
  }

  /** Replacing a one-character pattern by text without `c` leaves no `c` ... */
  lemma {:induction false} ReplaceCharRemoves(s: string, c: char, rep: string)
    requires c !in rep
    ensures c !in ReplaceAll(s, [c], rep)
  {
    if |s| >= 1 {
      ReplaceCharRemoves(s[1..], c, rep);
    }
  }

  /** ... and replacing any pattern keeps a character absent from input and replacement. */
  lemma {:induction false} ReplaceKeepsAbsent(s: string, pat: string, rep: string, c: char)
    requires |pat| > 0 && c !in s && c !in rep
    ensures c !in ReplaceAll(s, pat, rep)
    decreases |s|
  {
    if |s| >= |pat| {
      if s[..|pat|] == pat {
        ReplaceKeepsAbsent(s[|pat|..], pat, rep, c);
      } else {
        ReplaceKeepsAbsent(s[1..], pat, rep, c);
      }
    }
  }

  // Removing every double star (a global regex replace by the empty string) leaves none
  // behind: a kept star is never followed by another star.
  lemma {:induction false} RemoveDoubleStar(s: string)
    ensures !Contains(ReplaceAll(s, "**", ""), "**")
    decreases |s|
  {
    var r := ReplaceAll(s, "**", "");
    if |s| < 2 {
      assert r == s;
    } else if s[..2] == "**" {
      assert r == ReplaceAll(s[2..], "**", "");
      RemoveDoubleStar(s[2..]);
    } else {
      var t := ReplaceAll(s[1..], "**", "");
      RemoveDoubleStar(s[1..]);
      assert r == [s[0]] + t;
      forall i | 0 <= i <= |r| - 2 ensures !At(r, i, "**") {
        if i == 0 {
          if s[0] == '*' {
            assert s[1] != '*';
            if |s[1..]| < 2 {
              assert t == s[1..];
            } else {
              assert s[1..][..2] != "**";
              assert t == [s[1]] + ReplaceAll(s[2..], "**", "");
            }
            assert r[1] == t[0] == s[1];
          }
        } else {
          assert r[i..i + 2] == t[i - 1..i + 1];
          assert !At(t, i - 1, "**");
        }
      }
    }
  }

  /** Length of `ReplaceAll` when the replacement is empty. */
  lemma {:induction false} RemoveShortens(s: string, pat: string)
    requires |pat| > 0
    ensures |ReplaceAll(s, pat, "")| <= |s|
    decreases |s|
  {
    if |s| >= |pat| {
      if s[..|pat|] == pat {
        RemoveShortens(s[|pat|..], pat);
      } else {
        RemoveShortens(s[1..], pat);
      }
    }
  }

  // ---------------------------------------------------------------------------
  // Whitespace collapsing: `s.replace(/\s+/g, ' ')`

  /** Every white space character is a plain space and is not followed by more white space. */
  predicate SingleSpaced(r: string) {
    r == [] ||
    ((IsSpace(r[0]) ==> r[0] == ' ' && (|r| == 1 || !IsSpace(r[1]))) && SingleSpaced(r[1..]))
  }

  /** `SingleSpaced` stated at one position. */
  lemma {:induction false} SingleSpacedAt(r: string, k: nat)
    requires SingleSpaced(r) && k < |r| && IsSpace(r[k])
    ensures r[k] == ' ' && (k + 1 < |r| ==> !IsSpace(r[k + 1]))
  {
    if k > 0 {
      SingleSpacedAt(r[1..], k - 1);
    }
  }

  lemma {:induction false} SingleSpacedSuffix(r: string, k: nat)
    requires SingleSpaced(r) && k <= |r|
    ensures SingleSpaced(r[k..])
  {
    if k > 0 {
      SingleSpacedSuffix(r[1..], k - 1);
      assert r[1..][k - 1..] == r[k..];
    }
  }

  lemma {:induction false} SingleSpacedPrefix(r: string, k: nat)
    requires SingleSpaced(r) && k <= |r|
    ensures SingleSpaced(r[..k])
  {
    if k > 0 {
      SingleSpacedPrefix(r[1..], k - 1);
      assert r[..k][1..] == r[1..][..k - 1];
    }
  }

  function CollapseSpaces(s: string): (r: string)
    ensures |r| <= |s|
    ensures s != [] ==> r != [] && (IsSpace(r[0]) <==> IsSpace(s[0]))
    decreases |s|
  {
    if s == [] then []
    else if IsSpace(s[0]) then
      var rest := CollapseSpaces(TrimStart(s));
      assert ([' '] + rest)[1..] == rest;
      [' '] + rest
    else
      var rest := CollapseSpaces(s[1..]);
      assert ([s[0]] + rest)[1..] == rest;
      [s[0]] + rest
  }

  lemma {:induction false} CollapseSpacesSingle(s: string)
    ensures SingleSpaced(CollapseSpaces(s))
    decreases |s|
  {
    if s != [] {
      var r := CollapseSpaces(s);
      if IsSpace(s[0]) {
        CollapseSpacesSingle(TrimStart(s));
        assert r[1..] == CollapseSpaces(TrimStart(s));
      } else {
        CollapseSpacesSingle(s[1..]);
        assert r[1..] == CollapseSpaces(s[1..]);
      }
    }
  }

  /** Trimming keeps a string single-spaced. */
  lemma TrimSingleSpaced(c: string)
    requires SingleSpaced(c)
    ensures SingleSpaced(Trim(c))
  {
    var t := TrimStart(c);
    TrimStartSpec(c);
    TrimEndSpec(t);
    SingleSpacedSuffix(c, |c| - |t|);
    SingleSpacedPrefix(t, |TrimEnd(t)|);
  }

  /** Collapsing then trimming: the text of an exported cell or block. */
  function CollapseTrim(s: string): string {
    Trim(CollapseSpaces(s))
  }

  /** Collapsed and trimmed text is single-spaced and has no white space at either end. */
  lemma CollapseTrimSpec(s: string)
    ensures var r := CollapseTrim(s);
            SingleSpaced(r) && (r == [] || (!IsSpace(r[0]) && !IsSpace(r[|r| - 1])))
  {
    CollapseSpacesSingle(s);
    TrimSingleSpaced(CollapseSpaces(s));
  }

  // ---------------------------------------------------------------------------
  // Sequences

  function Take<T>(s: seq<T>, n: nat): (r: seq<T>)
    ensures |r| == if |s| < n then |s| else n
    ensures r == s[..|r|]
  {
    if |s| <= n then s else s[..n]
  }

  /** `t` can be obtained from `s` by deleting elements. */
  ghost predicate IsSubsequence<T>(t: seq<T>, s: seq<T>) {
    exists idx: seq<nat> :: Embeds(idx, t, s)
  }

  /** The index witness of `IsSubsequence`. */
  ghost predicate Embeds<T>(idx: seq<nat>, t: seq<T>, s: seq<T>) {
    && |idx| == |t|
    && (forall k :: 0 <= k < |idx| ==> idx[k] < |s| && s[idx[k]] == t[k])
    && (forall k, l :: 0 <= k < l < |idx| ==> idx[k] < idx[l])
  }

  lemma SubsequenceCons<T>(t: seq<T>, s: seq<T>, x: T)
    requires IsSubsequence(t, s)
    ensures IsSubsequence([x] + t, [x] + s)
    ensures IsSubsequence(t, [x] + s)
  {
    var idx: seq<nat> :| Embeds(idx, t, s);
    var shifted := seq(|idx|, k requires 0 <= k < |idx| => idx[k] + 1);
    assert Embeds(shifted, t, [x] + s);
    assert Embeds([0] + shifted, [x] + t, [x] + s);
  }

  lemma SubsequenceSnoc<T>(t: seq<T>, s: seq<T>, x: T)
    requires IsSubsequence(t, s)
    ensures IsSubsequence(t + [x], s + [x])
    ensures IsSubsequence(t, s + [x])
  {
    var idx: seq<nat> :| Embeds(idx, t, s);
    assert Embeds(idx, t, s + [x]);
    assert Embeds(idx + [|s|], t + [x], s + [x]);
  }

  lemma SubsequencePrefix<T>(t: seq<T>, n: nat, s: seq<T>)
    requires n <= |t| && IsSubsequence(t, s)
    ensures IsSubsequence(t[..n], s)
  {
    var idx: seq<nat> :| Embeds(idx, t, s);
    assert Embeds(idx[..n], t[..n], s);
  }

  lemma SubsequenceEmpty<T>(s: seq<T>)
    ensures IsSubsequence([], s)
  {
    assert Embeds([], [], s);
  }

  /** The values `f` gives for the elements of `s`, in order; an element it gives none for
      is skipped (a `map` followed by a `filter`). */
  function Present<S, T>(s: seq<S>, f: S -> Option<T>): (r: seq<T>)
    ensures |r| <= |s|
  {
    if s == [] then []
    else Present(s[..|s| - 1], f) + (match f(s[|s| - 1]) case Some(x) => [x] case None => [])
  }

  /** `t` lists, in order and each once, the values `f` gives for the elements of `s`:
      `idx` holds the positions they come from, increasing, and misses no element `f` gives
      a value for. */
  ghost predicate Picks<S, T>(idx: seq<nat>, t: seq<T>, s: seq<S>, f: S -> Option<T>) {
    && |idx| == |t|
    && (forall j :: 0 <= j < |idx| ==> idx[j] < |s| && f(s[idx[j]]) == Some(t[j]))
    && (forall j, l :: 0 <= j < l < |idx| ==> idx[j] < idx[l])
    && (forall k :: 0 <= k < |s| && f(s[k]).Some? ==> k in idx)
  }

  /** One more element extends the picked positions by its own when `f` gives it a value. */
  lemma PicksSnoc<S, T>(idx: seq<nat>, t: seq<T>, s: seq<S>, f: S -> Option<T>)
    requires s != [] && Picks(idx, t, s[..|s| - 1], f)
    ensures var n := |s| - 1;
            match f(s[n])
            case Some(x) => Picks(idx + [n], t + [x], s, f)
            case None => Picks(idx, t, s, f)
  {
    var n := |s| - 1;
    assert forall k :: 0 <= k < n ==> s[k] == s[..n][k];
  }

  /** `Present` picks exactly the values `f` gives, in order. */
  lemma {:induction false} PresentPicks<S, T>(s: seq<S>, f: S -> Option<T>)
    ensures exists idx :: Picks(idx, Present(s, f), s, f)
  {
    if s == [] {
      assert Picks([], Present(s, f), s, f);
    } else {
      var n := |s| - 1;
      PresentPicks(s[..n], f);
      var idx :| Picks(idx, Present(s[..n], f), s[..n], f);
      PicksSnoc(idx, Present(s[..n], f), s, f);
      match f(s[n])
      case Some(x) =>
        assert Picks(idx + [n], Present(s, f), s, f);
      case None =>
        assert Picks(idx, Present(s, f), s, f);
    }
  }

  /** Membership in `Present`: each value comes from an element, and every value an element
      gives is there. */
  lemma PresentMembers<S, T>(s: seq<S>, f: S -> Option<T>)
    ensures forall x :: x in Present(s, f) ==> exists k :: 0 <= k < |s| && f(s[k]) == Some(x)
    ensures forall k :: 0 <= k < |s| && f(s[k]).Some? ==> f(s[k]).value in Present(s, f)
  {
    PresentPicks(s, f);
    var t := Present(s, f);
    var idx :| Picks(idx, t, s, f);
    forall x | x in t ensures exists k :: 0 <= k < |s| && f(s[k]) == Some(x) {
      var j :| 0 <= j < |t| && t[j] == x;
      assert f(s[idx[j]]) == Some(x);
    }
    forall k | 0 <= k < |s| && f(s[k]).Some? ensures f(s[k]).value in t {
      var j :| 0 <= j < |idx| && idx[j] == k;
      assert f(s[idx[j]]) == Some(t[j]);
    }
  }

  /** The picked positions agree up to `j`: each of the two first positions past the common
      prefix is in the other list at or after `j`, so neither can be smaller. */
  lemma PicksSamePosition<S, T>(i1: seq<nat>, t1: seq<T>, i2: seq<nat>, t2: seq<T>, s: seq<S>, f: S -> Option<T>, j: nat)
    requires Picks(i1, t1, s, f) && Picks(i2, t2, s, f)
    requires j < |i1| && j < |i2| && i1[..j] == i2[..j]
    ensures i1[j] == i2[j]
  {
    assert f(s[i1[j]]).Some? && f(s[i2[j]]).Some?;
    var m2 :| 0 <= m2 < |i2| && i2[m2] == i1[j];
    var m1 :| 0 <= m1 < |i1| && i1[m1] == i2[j];
  }

  /** A position one list picks, the other picks too. */
  lemma PicksShared<S, T>(i1: seq<nat>, t1: seq<T>, i2: seq<nat>, t2: seq<T>, s: seq<S>, f: S -> Option<T>, n: nat)
    requires Picks(i1, t1, s, f) && Picks(i2, t2, s, f) && n < |i1|
    ensures i1[n] in i2
  {
    assert f(s[i1[n]]).Some?;
  }

  /** A picked position list that extends another one is that list. */
  lemma PicksPrefixLength<S, T>(i1: seq<nat>, t1: seq<T>, i2: seq<nat>, t2: seq<T>, s: seq<S>, f: S -> Option<T>)
    requires Picks(i1, t1, s, f) && Picks(i2, t2, s, f)
    requires |i2| <= |i1| && i1[..|i2|] == i2
    ensures |i1| == |i2|
  {
    if |i2| < |i1| {
      PicksShared(i1, t1, i2, t2, s, f, |i2|);
      assert false;
    }
  }

  /** What is picked is determined by `s` and `f`: the order and the number of copies of
      each value are fixed. */
  lemma PicksUnique<S, T>(i1: seq<nat>, t1: seq<T>, i2: seq<nat>, t2: seq<T>, s: seq<S>, f: S -> Option<T>)
    requires Picks(i1, t1, s, f) && Picks(i2, t2, s, f)
    ensures i1 == i2 && t1 == t2
  {
    var j := 0;
    while j < |i1| && j < |i2|
      invariant j <= |i1| && j <= |i2|
      invariant i1[..j] == i2[..j]
    {
      PicksSamePosition(i1, t1, i2, t2, s, f, j);
      assert i1[..j + 1] == i1[..j] + [i1[j]];
      assert i2[..j + 1] == i2[..j] + [i2[j]];
      j := j + 1;
    }
    if |i2| <= |i1| {
      PicksPrefixLength(i1, t1, i2, t2, s, f);
    } else {
      PicksPrefixLength(i2, t2, i1, t1, s, f);
    }
    assert i1 == i1[..j] && i2 == i2[..j];
    forall k | 0 <= k < |t1| ensures t1[k] == t2[k] {
      assert f(s[i1[k]]) == Some(t1[k]);
    }
  }

  /** Natural number in decimal, as JavaScript's template literals print it. */
  function NatToString(n: nat): (r: string)
    ensures |r| >= 1
    ensures forall k :: 0 <= k < |r| ==> IsDigit(r[k])
    decreases n
  {
    if n < 10 then [('0' as int + n) as char]
    else NatToString(n / 10) + [('0' as int + n % 10) as char]
  }
}
