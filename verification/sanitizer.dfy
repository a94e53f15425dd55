/** `cleanHTML`: strips six cosmetic attribute patterns from the markup, one
    pattern after another, then collapses every whitespace run to one space. */
module Sanitizer {
  import opened Results
  import opened Text

  /** One of the removed attribute patterns, matched case-insensitively.
      `Exact(n)` is ` n="[^"]*"`; `Prefixed(p)` is ` p[a-z-]+="[^"]*"`. */
  datatype AttrPattern = Exact(name: string) | Prefixed(prefix: string)

  /** The patterns in the order the sanitiser applies them. */
  const AttrPatterns: seq<AttrPattern> := [
    Exact("class"),
    Exact("style"),
    Exact("id"),
    Prefixed("data-"),
    Prefixed("aria-"),
    Exact("role")
  ]

  /** `[a-z-]` under case-insensitive matching. */
  predicate IsNameChar(c: char)
  {
    ('a' <= FoldCase(c) <= 'z') || c == '-'
  }

  predicate IsNotQuote(c: char)
  {
    c != '"'
  }

  /** What every match of `p` starts with: a space and the attribute name
      (or its prefix), in lower case. */
  function Head(p: AttrPattern): string
  {
    " " + (match p case Exact(name) => name case Prefixed(prefix) => prefix)
  }

  /** Length of the match of `p` at the very start of `s`, if there is one.
      Neither `[a-z-]+` (followed by `=`) nor `[^"]*` (followed by `"`) can
      give back characters to find another match, so the match is unique. */
  function MatchAttr(s: string, p: AttrPattern): (n: Option<nat>)
    ensures n.Some? ==> 0 < n.value <= |s| && s[0] == ' ' && s[n.value - 1] == '"'
  {
    var h := |Head(p)|;
    if !StartsWithFolded(s, Head(p)) then None
    else
      var e := if p.Prefixed? then SpanFrom(s, h, IsNameChar) else h;
      if p.Prefixed? && e == h then None
      else if !(e + 2 <= |s| && s[e] == '=' && s[e + 1] == '"') then None
      else
        var q := SpanFrom(s, e + 2, IsNotQuote);
        if q == |s| then None
        else
          assert FoldCase(s[0]) == ' ';
          Some(q + 1)
  }

  /** The regular expression of `p` matches `s[..n]`, with its `=` at index
      `e`: the head, ignoring case; for a prefix pattern one or more of
      `[a-z-]` up to `e`; then `="`, a run without `"`, and a closing `"`. */
  predicate AttrShape(s: string, p: AttrPattern, e: nat, n: nat)
  {
    && e + 3 <= n <= |s|
    && StartsWithFolded(s, Head(p))
    && (if p.Exact? then e == |Head(p)|
        else |Head(p)| < e && forall i :: |Head(p)| <= i < e ==> IsNameChar(s[i]))
    && s[e] == '=' && s[e + 1] == '"'
    && (forall i :: e + 2 <= i < n - 1 ==> IsNotQuote(s[i]))
    && s[n - 1] == '"'
  }

  /** The pattern `p` matches the first `n` characters of `s`. */
  ghost predicate AttrMatch(s: string, p: AttrPattern, n: nat)
  {
    exists e :: AttrShape(s, p, e, n)
  }

  /** The length `MatchAttr` reports is a match of the pattern. */
  lemma MatchAttrSound(s: string, p: AttrPattern)
    requires MatchAttr(s, p).Some?
    ensures AttrMatch(s, p, MatchAttr(s, p).value)
  {
    var h := |Head(p)|;
    var e := if p.Prefixed? then SpanFrom(s, h, IsNameChar) else h;
    var q := SpanFrom(s, e + 2, IsNotQuote);
    assert AttrShape(s, p, e, q + 1);
  }

  /** Every match of the pattern is the one `MatchAttr` reports. */
  lemma MatchAttrComplete(s: string, p: AttrPattern, n: nat)
    requires AttrMatch(s, p, n)
    ensures MatchAttr(s, p) == Some(n)
  {
    var e: nat :| AttrShape(s, p, e, n);
    if p.Prefixed? {
      assert !IsNameChar(s[e]);
      SpanFromIs(s, |Head(p)|, IsNameChar, e);
    }
    SpanFromIs(s, e + 2, IsNotQuote, n - 1);
  }

  /** `MatchAttr` finds exactly the matches of the regular expression, so a
      match at an index is unique. */
  lemma MatchAttrIff(s: string, p: AttrPattern, n: nat)
    ensures MatchAttr(s, p) == Some(n) <==> AttrMatch(s, p, n)
  {
    if MatchAttr(s, p) == Some(n) {
      MatchAttrSound(s, p);
    }
    if AttrMatch(s, p, n) {
      MatchAttrComplete(s, p, n);
    }
  }

  /** No index of `s` starts a match of `p`. */
  predicate NoMatch(s: string, p: AttrPattern)
  {
    forall i :: 0 <= i < |s| ==> MatchAttr(s[i..], p).None?
  }

  /** `stringByReplacingMatches(..., withTemplate: "")` for one pattern: scan
      left to right, delete each match and resume after it. */
  function RemoveMatches(s: string, p: AttrPattern): (r: string)
    ensures |r| <= |s|
    decreases |s|
  {
    if s == [] then []
    else match MatchAttr(s, p)
      case Some(n) => RemoveMatches(s[n..], p)
      case None => [s[0]] + RemoveMatches(s[1..], p)
  }

  /** Removal changes the text exactly when the pattern matches somewhere, and
      then it makes the text strictly shorter. */
  lemma {:induction false} RemoveMatchesChangesIffMatch(s: string, p: AttrPattern)
    ensures RemoveMatches(s, p) == s <==> NoMatch(s, p)
    ensures !NoMatch(s, p) ==> |RemoveMatches(s, p)| < |s|
    decreases |s|
  {
    if s != [] {
      match MatchAttr(s, p)
      case Some(n) =>
        assert s[0..] == s;
      case None =>
        RemoveMatchesChangesIffMatch(s[1..], p);
        assert forall i :: 1 <= i <= |s| ==> s[1..][i - 1..] == s[i..];
        if !NoMatch(s, p) {
          var i :| 0 <= i < |s| && MatchAttr(s[i..], p).Some?;
          assert i != 0 by { assert s[0..] == s; }
          assert !NoMatch(s[1..], p) by { assert MatchAttr(s[1..][i - 1..], p).Some?; }
        }
    }
  }

  /** Every match of a pattern starts with a space, so text without a space is
      left alone. */
  lemma NoSpaceNoMatch(s: string, p: AttrPattern)
    requires forall i :: 0 <= i < |s| ==> s[i] != ' '
    ensures RemoveMatches(s, p) == s
  {
    forall i | 0 <= i < |s| ensures MatchAttr(s[i..], p).None? {
      assert s[i..][0] == s[i];
    }
    RemoveMatchesChangesIffMatch(s, p);
  }

  /** No match of `p` starts at any of the first `k` indices of `s`. */
  ghost predicate NoMatchBefore(s: string, p: AttrPattern, k: nat)
  {
    k <= |s| && forall i, n :: 0 <= i < k ==> !AttrMatch(s[i..], p, n)
  }

  /** `s` cut the way a left-to-right scan for `p` cuts it: kept gaps and
      removed matches alternate, `gaps[0] + cuts[0] + gaps[1] + … + gaps[k]`;
      each cut is a match of `p` where it stands, and no match of `p` starts
      inside a gap. */
  ghost predicate ScanOf(s: string, p: AttrPattern, gaps: seq<string>, cuts: seq<string>)
    decreases |cuts|
  {
    && |gaps| == |cuts| + 1
    && NoMatchBefore(s, p, |gaps[0]|)
    && s[..|gaps[0]|] == gaps[0]
    && if cuts == [] then s == gaps[0]
       else
         var rest := s[|gaps[0]|..];
         && |cuts[0]| <= |rest| && rest[..|cuts[0]|] == cuts[0]
         && AttrMatch(rest, p, |cuts[0]|)
         && ScanOf(rest[|cuts[0]|..], p, gaps[1..], cuts[1..])
  }

  /** The kept gaps and the removed matches of one pattern's scan. */
  datatype Scanned = Scanned(gaps: seq<string>, cuts: seq<string>)

  /** Every text has a scan decomposition for every pattern. */
  function Scan(s: string, p: AttrPattern): (d: Scanned)
    ensures ScanOf(s, p, d.gaps, d.cuts)
    decreases |s|
  {
    if s == [] then
      Scanned([[]], [])
    else match MatchAttr(s, p)
      case Some(n) =>
        var d := Scan(s[n..], p);
        ScanCut(s, p, n, d.gaps, d.cuts);
        Scanned([[]] + d.gaps, [s[..n]] + d.cuts)
      case None =>
        var d := Scan(s[1..], p);
        ScanKeep(s, p, d.gaps, d.cuts);
        Scanned([[s[0]] + d.gaps[0]] + d.gaps[1..], d.cuts)
  }

  /** A match at the start is the first cut, after an empty gap. */
  lemma ScanCut(s: string, p: AttrPattern, n: nat, gaps: seq<string>, cuts: seq<string>)
    requires MatchAttr(s, p) == Some(n)
    requires ScanOf(s[n..], p, gaps, cuts)
    ensures ScanOf(s, p, [[]] + gaps, [s[..n]] + cuts)
  {
    MatchAttrSound(s, p);
    assert s[..0] == [] && s[0..] == s;
    assert ([[]] + gaps)[1..] == gaps && ([s[..n]] + cuts)[1..] == cuts;
  }

  /** A character where no match starts joins the first gap. */
  lemma ScanKeep(s: string, p: AttrPattern, gaps: seq<string>, cuts: seq<string>)
    requires s != [] && MatchAttr(s, p).None?
    requires ScanOf(s[1..], p, gaps, cuts)
    ensures ScanOf(s, p, [[s[0]] + gaps[0]] + gaps[1..], cuts)
  {
    var g := [s[0]] + gaps[0];
    var gaps' := [g] + gaps[1..];
    GapGrows(s, p, gaps[0]);
    assert gaps'[0] == g && gaps'[1..] == gaps[1..];
    if cuts == [] {
      assert s == [s[0]] + s[1..];
    }
  }

  /** The first gap of the rest of a text, with the first character in
      front, is a gap of the whole text when no match starts there. */
  lemma GapGrows(s: string, p: AttrPattern, g: string)
    requires s != [] && MatchAttr(s, p).None?
    requires NoMatchBefore(s[1..], p, |g|) && s[1..][..|g|] == g
    ensures NoMatchBefore(s, p, |g| + 1)
    ensures s[..|g| + 1] == [s[0]] + g && s[|g| + 1..] == s[1..][|g|..]
  {
    forall i, n | 0 <= i < |g| + 1 ensures !AttrMatch(s[i..], p, n) {
      if i == 0 {
        assert s[0..] == s;
        MatchAttrIff(s, p, n);
      } else {
        assert s[i..] == s[1..][i - 1..];
      }
    }
  }

  /** Removing the matches of `p` keeps exactly the gaps of a scan
      decomposition, in order: every character outside a removed match
      survives, and nothing else does. */
  lemma {:induction false} RemoveMatchesKeepsGaps(s: string, p: AttrPattern, gaps: seq<string>, cuts: seq<string>)
    requires ScanOf(s, p, gaps, cuts)
    ensures RemoveMatches(s, p) == Concat(gaps)
    decreases |cuts|
  {
    var g := gaps[0];
    GapKept(s, p, |g|);
    ConcatCons(g, gaps[1..]);
    assert gaps == [g] + gaps[1..];
    var rest := s[|g|..];
    if cuts == [] {
      assert rest == [];
    } else {
      var c := cuts[0];
      MatchAttrComplete(rest, p, |c|);
      RemoveAtMatch(rest, p, |c|);
      RemoveMatchesKeepsGaps(rest[|c|..], p, gaps[1..], cuts[1..]);
    }
  }

  /** The scan's own decomposition: removal keeps its gaps. */
  lemma RemoveMatchesKeepsScanGaps(s: string, p: AttrPattern)
    ensures RemoveMatches(s, p) == Concat(Scan(s, p).gaps)
  {
    var d := Scan(s, p);
    RemoveMatchesKeepsGaps(s, p, d.gaps, d.cuts);
  }

  lemma RemoveAtMatch(s: string, p: AttrPattern, n: nat)
    requires MatchAttr(s, p) == Some(n)
    ensures RemoveMatches(s, p) == RemoveMatches(s[n..], p)
  {
  }

  /** The characters before any match start are kept as they are. */
  lemma {:induction false} GapKept(s: string, p: AttrPattern, k: nat)
    requires NoMatchBefore(s, p, k)
    ensures RemoveMatches(s, p) == s[..k] + RemoveMatches(s[k..], p)
    decreases k
  {
    if k == 0 {
      assert s[..0] == [] && s[0..] == s;
    } else {
      NoMatchAfterFirst(s, p, k);
      GapKept(s[1..], p, k - 1);
      GapStep(s, p, k);
    }
  }

  lemma NoMatchAfterFirst(s: string, p: AttrPattern, k: nat)
    requires 0 < k && NoMatchBefore(s, p, k)
    ensures MatchAttr(s, p).None? && NoMatchBefore(s[1..], p, k - 1)
  {
    assert s[0..] == s;
    NoMatchMeansNone(s, p);
    forall i, n | 0 <= i < k - 1 ensures !AttrMatch(s[1..][i..], p, n) {
      assert s[1..][i..] == s[i + 1..];
    }
  }

  lemma GapStep(s: string, p: AttrPattern, k: nat)
    requires 0 < k <= |s| && MatchAttr(s, p).None?
    requires RemoveMatches(s[1..], p) == s[1..][..k - 1] + RemoveMatches(s[1..][k - 1..], p)
    ensures RemoveMatches(s, p) == s[..k] + RemoveMatches(s[k..], p)
  {
    RemoveMissHead(s, p);
    assert s[1..][k - 1..] == s[k..];
    ConsSlices(s, k, RemoveMatches(s[k..], p), RemoveMatches(s[1..], p));
  }

  lemma RemoveMissHead(s: string, p: AttrPattern)
    requires s != [] && MatchAttr(s, p).None?
    ensures RemoveMatches(s, p) == [s[0]] + RemoveMatches(s[1..], p)
  {
  }

  lemma ConsSlices<T>(s: seq<T>, k: nat, x: seq<T>, y: seq<T>)
    requires 0 < k <= |s| && y == s[1..][..k - 1] + x
    ensures [s[0]] + y == s[..k] + x
  {
    assert s[..k] == [s[0]] + s[1..][..k - 1];
  }

  lemma NoMatchMeansNone(s: string, p: AttrPattern)
    ensures (forall n :: !AttrMatch(s, p, n)) ==> MatchAttr(s, p).None?
  {
    if MatchAttr(s, p).Some? {
      MatchAttrSound(s, p);
    }
  }

  /** The patterns of `ps` applied one after another. */
  function RemoveAll(s: string, ps: seq<AttrPattern>): (r: string)
    ensures |r| <= |s|
    decreases |ps|
  {
    if ps == [] then s else RemoveAll(RemoveMatches(s, ps[0]), ps[1..])
  }

  /** Text without a space is left alone by every pattern. */
  lemma {:induction false} RemoveAllSpaceFree(s: string, ps: seq<AttrPattern>)
    requires forall i :: 0 <= i < |s| ==> s[i] != ' '
    ensures RemoveAll(s, ps) == s
    decreases |ps|
  {
    if ps != [] {
      NoSpaceNoMatch(s, ps[0]);
      RemoveAllSpaceFree(s, ps[1..]);
    }
  }

  /** Running the patterns is running the first one's scan, keeping its
      gaps, then running the rest on what is left. */
  lemma RemoveAllOfScan(s: string, ps: seq<AttrPattern>, gaps: seq<string>, cuts: seq<string>)
    requires ps != [] && ScanOf(s, ps[0], gaps, cuts)
    ensures RemoveAll(s, ps) == RemoveAll(Concat(gaps), ps[1..])
  {
    RemoveMatchesKeepsGaps(s, ps[0], gaps, cuts);
  }

  /** No whitespace other than single spaces: every `\s` character is a space
      and no two of them are adjacent. */
  predicate Collapsed(s: string)
  {
    && (forall i :: 0 <= i < |s| && IsRegexSpace(s[i]) ==> s[i] == ' ')
    && (forall i :: 0 <= i < |s| - 1 ==> !(IsRegexSpace(s[i]) && IsRegexSpace(s[i + 1])))
  }

  /** `s` with every `\s` character removed: the text the collapse must keep. */
  function Visible(s: string): string
  {
    if s == [] then []
    else (if IsRegexSpace(s[0]) then [] else [s[0]]) + Visible(s[1..])
  }

  /** `replacingOccurrences(of: "\\s+", with: " ", options: .regularExpression)`. */
  function CollapseSpaces(s: string): (r: string)
    ensures |r| <= |s|
    ensures Collapsed(r)
    ensures s != [] ==> r != [] && (IsRegexSpace(r[0]) <==> IsRegexSpace(s[0]))
    decreases |s|
  {
    if s == [] then []
    else if IsRegexSpace(s[0]) then
      var run := Span(s, IsRegexSpace);
      var rest := CollapseSpaces(s[run..]);
      assert rest != [] ==> !IsRegexSpace(rest[0]);
      [' '] + rest
    else
      var rest := CollapseSpaces(s[1..]);
      [s[0]] + rest
  }

  /** The sanitiser: attribute removal in pattern order, then whitespace
      collapse. */
  function CleanHTML(html: string): (r: string)
    ensures Collapsed(r)
    ensures |r| <= |html|
    ensures Visible(r) == Visible(RemoveAll(html, AttrPatterns))
  {
    var kept := RemoveAll(html, AttrPatterns);
    CollapseKeepsVisible(kept);
    CollapseSpaces(kept)
  }

  /** Each maximal whitespace run left by the attribute removal becomes
      exactly one space in the cleaned text, and the text on either side is
      cleaned on its own. */
  lemma CleanCollapsesRuns(html: string, a: string, w: string, b: string)
    requires RemoveAll(html, AttrPatterns) == a + w + b
    requires a == [] || !IsRegexSpace(a[|a| - 1])
    requires w != [] && forall i :: 0 <= i < |w| ==> IsRegexSpace(w[i])
    requires b == [] || !IsRegexSpace(b[0])
    ensures CleanHTML(html) == CollapseSpaces(a) + " " + CollapseSpaces(b)
  {
    CollapseGap(a, w, b);
    CleanOfSteps(html, a + w + b, CollapseSpaces(a) + " " + CollapseSpaces(b));
  }

  /** Every removed pattern starts with a space, so markup without any
      whitespace passes through the sanitiser unchanged. */
  lemma CleanKeepsSpaceFreeText(html: string)
    requires forall i :: 0 <= i < |html| ==> !IsRegexSpace(html[i])
    ensures CleanHTML(html) == html
  {
    assert forall i :: 0 <= i < |html| ==> html[i] != ' ';
    RemoveAllSpaceFree(html, AttrPatterns);
    CollapseFixedPoint(html);
  }

  /** The collapse changes exactly the strings that are not yet collapsed. */
  lemma {:induction false} CollapseFixedPoint(s: string)
    ensures CollapseSpaces(s) == s <==> Collapsed(s)
    decreases |s|
  {
    if s != [] && Collapsed(s) {
      assert Collapsed(s[1..]) by {
        assert forall i :: 0 <= i < |s| - 1 ==> s[1..][i] == s[i + 1];
      }
      CollapseFixedPoint(s[1..]);
      if IsRegexSpace(s[0]) {
        assert |s| > 1 ==> !IsRegexSpace(s[1]);
        assert Span(s, IsRegexSpace) == 1;
      }
    }
  }

  lemma CollapseIdempotent(s: string)
    ensures CollapseSpaces(CollapseSpaces(s)) == CollapseSpaces(s)
  {
    CollapseFixedPoint(CollapseSpaces(s));
  }

  lemma {:induction false} VisibleSkipsSpaces(s: string, n: nat)
    requires n <= |s|
    requires forall i :: 0 <= i < n ==> IsRegexSpace(s[i])
    ensures Visible(s) == Visible(s[n..])
    decreases n
  {
    if n > 0 {
      assert s[1..][n - 1..] == s[n..];
      VisibleSkipsSpaces(s[1..], n - 1);
    }
  }

  /** Collapsing whitespace keeps every other character, in order. */
  lemma {:induction false} CollapseKeepsVisible(s: string)
    ensures Visible(CollapseSpaces(s)) == Visible(s)
    decreases |s|
  {
    if s != [] {
      if IsRegexSpace(s[0]) {
        var run := Span(s, IsRegexSpace);
        CollapseKeepsVisible(s[run..]);
        VisibleSkipsSpaces(s, run);
        var r := CollapseSpaces(s);
        assert r[1..] == CollapseSpaces(s[run..]);
      } else {
        CollapseKeepsVisible(s[1..]);
        var r := CollapseSpaces(s);
        assert r[1..] == CollapseSpaces(s[1..]);
      }
    }
  }

  /** The collapse works run by run: text that ends in a character other
      than whitespace is collapsed on its own. */
  lemma {:induction false} CollapseAppend(a: string, b: string)
    requires a == [] || !IsRegexSpace(a[|a| - 1])
    ensures CollapseSpaces(a + b) == CollapseSpaces(a) + CollapseSpaces(b)
    decreases |a|
  {
    if a == [] {
      assert a + b == b;
    } else if !IsRegexSpace(a[0]) {
      CollapseAppend(a[1..], b);
      CollapseKeepHead(a, b);
    } else {
      var run := Span(a, IsRegexSpace);
      CollapseAppend(a[run..], b);
      CollapseRunHead(a, b, run);
    }
  }

  /** A first character other than whitespace passes through. */
  lemma CollapseKeepHead(a: string, b: string)
    requires a != [] && !IsRegexSpace(a[0])
    requires CollapseSpaces(a[1..] + b) == CollapseSpaces(a[1..]) + CollapseSpaces(b)
    ensures CollapseSpaces(a + b) == CollapseSpaces(a) + CollapseSpaces(b)
  {
    CollapseHead(a);
    HeadThenRest(a, b, b);
    CollapseHead(a + b);
    Regroup([a[0]], CollapseSpaces(a[1..]), CollapseSpaces(b), CollapseSpaces(a + b));
  }

  /** A whitespace run at the front of `a`, which ends in something else,
      is the same run at the front of `a + b`. */
  lemma CollapseRunHead(a: string, b: string, run: nat)
    requires a != [] && IsRegexSpace(a[0]) && !IsRegexSpace(a[|a| - 1])
    requires run == Span(a, IsRegexSpace)
    requires CollapseSpaces(a[run..] + b) == CollapseSpaces(a[run..]) + CollapseSpaces(b)
    ensures CollapseSpaces(a + b) == CollapseSpaces(a) + CollapseSpaces(b)
  {
    assert run < |a|;
    SpanOfAppend(a, b, IsRegexSpace);
    CollapseSpaceHead(a, run);
    CollapseSpaceHead(a + b, run);
    Regroup(" ", CollapseSpaces(a[run..]), CollapseSpaces(b), CollapseSpaces(a + b));
  }

  lemma CollapseSpaceHead(s: string, run: nat)
    requires s != [] && IsRegexSpace(s[0]) && run == Span(s, IsRegexSpace)
    ensures CollapseSpaces(s) == " " + CollapseSpaces(s[run..])
  {
  }

  /** A whole whitespace run becomes exactly one space. */
  lemma CollapseRun(w: string, b: string)
    requires w != [] && forall i :: 0 <= i < |w| ==> IsRegexSpace(w[i])
    requires b == [] || !IsRegexSpace(b[0])
    ensures CollapseSpaces(w + b) == " " + CollapseSpaces(b)
  {
    SpanIs(w + b, IsRegexSpace, |w|);
    assert (w + b)[|w|..] == b;
  }

  /** Each maximal whitespace run, wherever it stands, becomes exactly one
      space, and the text on either side is collapsed on its own. */
  lemma CollapseGap(a: string, w: string, b: string)
    requires a == [] || !IsRegexSpace(a[|a| - 1])
    requires w != [] && forall i :: 0 <= i < |w| ==> IsRegexSpace(w[i])
    requires b == [] || !IsRegexSpace(b[0])
    ensures CollapseSpaces(a + w + b) == CollapseSpaces(a) + " " + CollapseSpaces(b)
  {
    Assoc(a, w, b);
    CollapseAppend(a, w + b);
    CollapseRun(w, b);
    Regroup(CollapseSpaces(a), " ", CollapseSpaces(b), CollapseSpaces(a + w + b));
  }

  /** The sanitiser is not idempotent: a line break before an attribute
      becomes a space only after the attribute patterns have run, so a second
      pass removes an attribute the first pass kept. */
  lemma CleanIsNotIdempotent(html: string, once: string)
    requires html == "<p\nclass=\"x\">" && once == "<p class=\"x\">"
    ensures CleanHTML(html) == once
    ensures CleanHTML(CleanHTML(html)) == "<p>"
  {
    CleanBrokenLine(html, once);
    var out :| out == "<p>";
    CleanClassExample(once, out);
  }

  // The witness strings below are bound with `:|` and passed as parameters so
  // that the verifier does not unfold the sanitiser on literal arguments.

  lemma CleanBrokenLine(html: string, once: string)
    requires html == "<p\nclass=\"x\">" && once == "<p class=\"x\">"
    ensures CleanHTML(html) == once
  {
    var head :| head == "<p";
    var attr :| attr == "class=\"x\">";
    assert once == head + " " + attr;
    CleanSplitLine(html, once, head, attr);
  }

  /** The two `class` removals the examples use: `<p class="x">` cleans to
      `<p>`, and `<di class="x"v>` to `<div>`. */
  lemma CleanClassExample(html: string, out: string)
    requires (html == "<p class=\"x\">" && out == "<p>") || (html == "<di class=\"x\"v>" && out == "<div>")
    ensures CleanHTML(html) == out
  {
    var value :| value == "x";
    if out == "<p>" {
      var head :| head == "<p";
      var tail :| tail == ">";
      ClassPieces(html, head, value, tail, out);
      CleanDropsClass(html, head, value, tail);
    } else {
      var head :| head == "<di";
      var tail :| tail == "v>";
      ClassPieces(html, head, value, tail, out);
      CleanDropsClass(html, head, value, tail);
    }
  }

  lemma ClassPieces(html: string, head: string, value: string, tail: string, out: string)
    requires value == "x"
    requires || (html == "<p class=\"x\">" && head == "<p" && tail == ">" && out == "<p>")
             || (html == "<di class=\"x\"v>" && head == "<di" && tail == "v>" && out == "<div>")
    ensures head + tail == out
    ensures Printable(head) && Printable(value) && Printable(tail)
    ensures forall i :: 0 <= i < |value| ==> value[i] != '"'
    ensures html == head + " class=\"" + value + "\"" + tail
  {
  }

  lemma PrintableIsNotSpace(c: char)
    requires '!' <= c <= '~'
    ensures !IsRegexSpace(c)
  {
  }

  /** One printable character in front passes through the collapse. */
  lemma CollapseStep(a: string, b: string, rest: string)
    requires a != [] && '!' <= a[0] <= '~'
    requires CollapseSpaces(a[1..] + b) == a[1..] + rest
    ensures CollapseSpaces(a + b) == a + rest
  {
    PrintableIsNotSpace(a[0]);
    HeadThenRest(a, b, rest);
    CollapseHead(a + b);
  }

  lemma CollapseHead(s: string)
    requires s != [] && !IsRegexSpace(s[0])
    ensures CollapseSpaces(s) == [s[0]] + CollapseSpaces(s[1..])
  {
  }

  lemma {:induction false} CollapsePlain(a: string, b: string)
    requires forall i :: 0 <= i < |a| ==> '!' <= a[i] <= '~'
    ensures CollapseSpaces(a + b) == a + CollapseSpaces(b)
    decreases |a|
  {
    if a == [] {
      assert a + b == b;
    } else {
      CollapsePlain(a[1..], b);
      CollapseStep(a, b, CollapseSpaces(b));
    }
  }

  /** A character other than a space in front survives the removal. */
  lemma RemoveStep(a: string, b: string, p: AttrPattern, rest: string)
    requires a != [] && a[0] != ' '
    requires RemoveMatches(a[1..] + b, p) == a[1..] + rest
    ensures RemoveMatches(a + b, p) == a + rest
  {
    HeadThenRest(a, b, rest);
    RemoveHead(a + b, p);
  }

  lemma RemoveHead(s: string, p: AttrPattern)
    requires s != [] && s[0] != ' '
    ensures RemoveMatches(s, p) == [s[0]] + RemoveMatches(s[1..], p)
  {
    assert MatchAttr(s, p).None?;
  }

  lemma {:induction false} RemovePlain(a: string, b: string, p: AttrPattern)
    requires forall i :: 0 <= i < |a| ==> a[i] != ' '
    ensures RemoveMatches(a + b, p) == a + RemoveMatches(b, p)
    decreases |a|
  {
    if a == [] {
      assert a + b == b;
    } else {
      RemovePlain(a[1..], b, p);
      RemoveStep(a, b, p, RemoveMatches(b, p));
    }
  }

  lemma CleanSplitLine(raw: string, once: string, head: string, attr: string)
    requires head == "<p" && attr == "class=\"x\">"
    requires raw == head + "\n" + attr && once == head + " " + attr
    ensures CleanHTML(raw) == once
  {
    var nl := "\n" + attr;
    var tail := " " + attr;
    assert raw == head + nl && once == head + tail;
    assert RemoveAll(raw, AttrPatterns) == raw by { SpaceFreeExample(raw); }
    assert CollapseSpaces(raw) == once by {
      assert CollapseSpaces(nl) == tail by { CollapseNewline(nl, attr); }
      CollapsePlain(head, nl);
    }
    CleanOfSteps(raw, raw, once);
  }

  lemma CleanOfSteps(raw: string, kept: string, out: string)
    requires RemoveAll(raw, AttrPatterns) == kept && CollapseSpaces(kept) == out
    ensures CleanHTML(raw) == out
  {
  }

  /** The example inputs hold no space, so no attribute pattern touches
      them. */
  lemma SpaceFreeExample(raw: string)
    requires raw == "<p\nclass=\"x\">" || raw == "<p\ttitle=\"a\n\nb\">"
    ensures RemoveAll(raw, AttrPatterns) == raw
  {
    assert forall i :: 0 <= i < |raw| ==> raw[i] != ' ';
    RemoveAllSpaceFree(raw, AttrPatterns);
  }

  lemma CollapseNewline(nl: string, attr: string)
    requires attr == "class=\"x\">" && nl == "\n" + attr
    ensures CollapseSpaces(nl) == " " + attr
  {
    CollapsePlain(attr, []);
    assert attr + [] == attr;
    assert CollapseSpaces([]) == [];
    assert Span(nl[1..], IsRegexSpace) == 0;
    assert Span(nl, IsRegexSpace) == 1;
    assert nl[1..] == attr;
  }

  lemma RemoveAllStep(s: string, ps: seq<AttrPattern>)
    requires ps != []
    ensures RemoveAll(s, ps) == RemoveAll(RemoveMatches(s, ps[0]), ps[1..])
  {
  }

  /** Printable ASCII without the space: text no pattern and no collapse
      touches. */
  predicate Printable(s: string)
  {
    forall i :: 0 <= i < |s| ==> '!' <= s[i] <= '~'
  }

  /** A ` class="…"` attribute between two printable texts without spaces is
      removed, and nothing else changes. */
  lemma CleanDropsClass(html: string, head: string, value: string, tail: string)
    requires Printable(head) && Printable(value) && Printable(tail)
    requires forall i :: 0 <= i < |value| ==> value[i] != '"'
    requires html == head + " class=\"" + value + "\"" + tail
    ensures CleanHTML(html) == head + tail
  {
    var out := head + tail;
    RemoveClassAttr(html, head, value, tail);
    assert Printable(out) by {
      assert forall i :: 0 <= i < |out| ==> out[i] == if i < |head| then head[i] else tail[i - |head|];
    }
    assert AttrPatterns[0] == Exact("class");
    RemoveAllStep(html, AttrPatterns);
    RemoveAllSpaceFree(out, AttrPatterns[1..]);
    CollapsePrintable(out);
    CleanOfSteps(html, out, out);
  }

  lemma RemoveClassAttr(html: string, head: string, value: string, tail: string)
    requires Printable(head) && Printable(tail)
    requires forall i :: 0 <= i < |value| ==> value[i] != '"'
    requires html == head + " class=\"" + value + "\"" + tail
    ensures RemoveMatches(html, Exact("class")) == head + tail
  {
    var attr := " class=\"" + value + "\"";
    var rest := attr + tail;
    assert html == head + rest;
    ClassMatches(rest, value, tail);
    RemoveAtMatch(rest, Exact("class"), |attr|);
    assert rest[|attr|..] == tail;
    NoSpaceNoMatch(tail, Exact("class"));
    RemovePlain(head, rest, Exact("class"));
  }

  /** ` class="value"` at the start of a text is a match of its full
      length. */
  lemma ClassMatches(s: string, value: string, tail: string)
    requires forall i :: 0 <= i < |value| ==> value[i] != '"'
    requires s == " class=\"" + value + "\"" + tail
    ensures MatchAttr(s, Exact("class")) == Some(9 + |value|)
  {
    var n := 9 + |value|;
    assert Head(Exact("class")) == " class";
    assert StartsWithFolded(s, " class") by {
      assert forall i :: 0 <= i < 6 ==> s[i] == " class"[i];
    }
    assert s[6] == '=' && s[7] == '"' && s[n - 1] == '"';
    assert forall i :: 8 <= i < n - 1 ==> s[i] == value[i - 8];
    assert AttrShape(s, Exact("class"), 6, n);
    MatchAttrComplete(s, Exact("class"), n);
  }

  lemma CollapsePrintable(s: string)
    requires Printable(s)
    ensures CollapseSpaces(s) == s
  {
    CollapsePlain(s, []);
    assert s + [] == s;
    assert CollapseSpaces([]) == [];
  }

  /** The attribute patterns are not tied to attribute boundaries: an
      attribute written inside a tag name is removed and joins the two halves
      of the name, so the sanitiser can change a tag name. */
  lemma CleanCanChangeTagName(html: string)
    requires html == "<di class=\"x\"v>"
    ensures CleanHTML(html) == "<div>"
  {
    var out :| out == "<div>";
    CleanClassExample(html, out);
  }

  /** The collapse runs over the whole markup, attribute values included, so
      the sanitiser changes the value of an attribute it does not target. */
  lemma CleanChangesAttributeValue(html: string)
    requires html == "<p\ttitle=\"a\n\nb\">"
    ensures CleanHTML(html) == "<p title=\"a b\">"
  {
    var x :| x == "<p";
    var w1 :| w1 == "\t";
    var y :| y == "title=\"a";
    var w2 :| w2 == "\n\n";
    var z :| z == "b\">";
    var out :| out == "<p title=\"a b\">";
    SpaceFreeExample(html);
    TitlePieces(html, x, w1, y, w2, z, out);
    CollapseTwoRuns(x, w1, y, w2, z);
    CleanOfSteps(html, html, out);
  }

  lemma TitlePieces(html: string, x: string, w1: string, y: string, w2: string, z: string, out: string)
    requires x == "<p" && w1 == "\t" && y == "title=\"a" && w2 == "\n\n" && z == "b\">"
    requires html == "<p\ttitle=\"a\n\nb\">" && out == "<p title=\"a b\">"
    ensures html == x + w1 + y + w2 + z
    ensures Printable(x) && Printable(y) && Printable(z) && y != [] && z != []
    ensures w1 != [] && forall i :: 0 <= i < |w1| ==> IsRegexSpace(w1[i])
    ensures w2 != [] && forall i :: 0 <= i < |w2| ==> IsRegexSpace(w2[i])
    ensures x + " " + y + " " + z == out
  {
  }

  /** Two whitespace runs between printable texts become one space each. */
  lemma CollapseTwoRuns(x: string, w1: string, y: string, w2: string, z: string)
    requires Printable(x) && Printable(y) && Printable(z) && y != [] && z != []
    requires w1 != [] && forall i :: 0 <= i < |w1| ==> IsRegexSpace(w1[i])
    requires w2 != [] && forall i :: 0 <= i < |w2| ==> IsRegexSpace(w2[i])
    ensures CollapseSpaces(x + w1 + y + w2 + z) == x + " " + y + " " + z
  {
    var t := y + w2 + z;
    PrintableIsNotSpace(y[0]);
    PrintableIsNotSpace(z[0]);
    assert t[0] == y[0];
    CollapseRunBetween(y, w2, z);
    CollapsePrintable(z);
    CollapseRunBetween(x, w1, t);
    FiveParts(x, w1, y, w2, z);
    FiveParts(x, " ", y, " ", z);
  }

  /** A whitespace run after printable text becomes one space. */
  lemma CollapseRunBetween(x: string, w: string, t: string)
    requires Printable(x) && t != [] && !IsRegexSpace(t[0])
    requires w != [] && forall i :: 0 <= i < |w| ==> IsRegexSpace(w[i])
    ensures CollapseSpaces(x + w + t) == x + " " + CollapseSpaces(t)
  {
    if x != [] {
      PrintableIsNotSpace(x[|x| - 1]);
    }
    CollapseGap(x, w, t);
    CollapsePrintable(x);
  }

  lemma FiveParts<T>(a: seq<T>, b: seq<T>, c: seq<T>, d: seq<T>, e: seq<T>)
    ensures a + b + c + d + e == a + b + (c + d + e)
  {
  }
}
