/** Character classes and string helpers shared by the sanitiser, the chunker
    and the response handling. A Swift `Character` is modelled as one `char`. */
module Text {

  /** Unicode general category Z (space, line and paragraph separators). */
  predicate IsSeparator(c: char)
  {
    || c == ' '
    || c == '\U{00A0}'
    || c == '\U{1680}'
    || ('\U{2000}' <= c <= '\U{200A}')
    || c == '\U{2028}'
    || c == '\U{2029}'
    || c == '\U{202F}'
    || c == '\U{205F}'
    || c == '\U{3000}'
  }

  /** Foundation's `CharacterSet.whitespacesAndNewlines`: category Z, the
      controls U+0009 to U+000D and NEXT LINE (U+0085). */
  function IsTrimSpace(c: char): (b: bool)
    ensures c == ' ' || c == '\t' || c == '\n' || c == '\r' || c == '\U{00A0}' ==> b
    ensures '!' <= c <= '~' ==> !b
  {
    IsSeparator(c) || ('\t' <= c <= '\r') || c == '\U{0085}'
  }

  /** The regular-expression class `\s` of the ICU engine behind
      NSRegularExpression. ICU's user guide describes `\s` as
      `[\t\n\f\r\p{Z}]`, but the engine builds the class from the Unicode
      White_Space property, which also holds LINE TABULATION (U+000B) and
      NEXT LINE (U+0085); the model follows the engine. Written out from
      Unicode's PropList.txt, the property is the same set of characters as
      Foundation's trimming set. */
  function IsRegexSpace(c: char): (b: bool)
    ensures b <==> IsTrimSpace(c)
  {
    || ('\t' <= c <= '\r')
    || c == ' '
    || c == '\U{0085}'
    || c == '\U{00A0}'
    || c == '\U{1680}'
    || ('\U{2000}' <= c <= '\U{200A}')
    || c == '\U{2028}'
    || c == '\U{2029}'
    || c == '\U{202F}'
    || c == '\U{205F}'
    || c == '\U{3000}'
  }

  predicate AllTrimSpace(s: string)
  {
    forall i :: 0 <= i < |s| ==> IsTrimSpace(s[i])
  }

  /** ASCII case folding to lower case, the comparison a case-insensitive
      pattern applies to the letters it names. */
  function FoldCase(c: char): (r: char)
    ensures 'A' <= c <= 'Z' ==> 'a' <= r <= 'z' && r as int == c as int + 32
    ensures !('A' <= c <= 'Z') ==> r == c
  {
    if 'A' <= c <= 'Z' then (c as int + 32) as char else c
  }

  /** Does `s` start with the lower-case literal `lit`, ignoring ASCII case? */
  predicate StartsWithFolded(s: string, lit: string)
  {
    |lit| <= |s| && forall i :: 0 <= i < |lit| ==> FoldCase(s[i]) == lit[i]
  }

  /** Length of the longest prefix of `s` whose characters all satisfy `keep`:
      what a greedy `[class]*` consumes at the start of `s`. */
  function Span(s: string, keep: char -> bool): (n: nat)
    ensures n <= |s|
    ensures forall i :: 0 <= i < n ==> keep(s[i])
    ensures n < |s| ==> !keep(s[n])
  {
    if s == [] || !keep(s[0]) then 0 else 1 + Span(s[1..], keep)
  }

  /** The end of the longest run of `keep` characters of `s` that starts at
      index `k`: what a greedy `[class]*` consumes from there. */
  function SpanFrom(s: string, k: nat, keep: char -> bool): (e: nat)
    requires k <= |s|
    ensures k <= e <= |s|
    ensures forall i :: k <= i < e ==> keep(s[i])
    ensures e < |s| ==> !keep(s[e])
    decreases |s| - k
  {
    if k == |s| || !keep(s[k]) then k else SpanFrom(s, k + 1, keep)
  }

  /** A run of `keep` characters from `k` to `e`, followed by one that is
      not, or by the end, is the run `SpanFrom` finds. */
  lemma SpanFromIs(s: string, k: nat, keep: char -> bool, e: nat)
    requires k <= e <= |s| && (forall i :: k <= i < e ==> keep(s[i]))
    requires e < |s| ==> !keep(s[e])
    ensures SpanFrom(s, k, keep) == e
  {
  }

  /** A prefix of `keep` characters followed by one that is not, or by the
      end, is the span. */
  lemma SpanIs(s: string, keep: char -> bool, k: nat)
    requires k <= |s| && (forall i :: 0 <= i < k ==> keep(s[i]))
    requires k < |s| ==> !keep(s[k])
    ensures Span(s, keep) == k
  {
  }

  /** A span that stops inside `a` is not changed by text after `a`. */
  lemma SpanOfAppend(a: string, b: string, keep: char -> bool)
    requires Span(a, keep) < |a|
    ensures Span(a + b, keep) == Span(a, keep)
    ensures (a + b)[Span(a, keep)..] == a[Span(a, keep)..] + b
  {
    var n := Span(a, keep);
    assert forall i :: 0 <= i <= n ==> (a + b)[i] == a[i];
    SpanIs(a + b, keep, n);
  }

  /** `s` without its trailing whitespace. */
  function TrimEnd(s: string): (r: string)
    ensures |r| <= |s| && r == s[..|r|]
    ensures AllTrimSpace(s[|r|..])
    ensures r == [] || !IsTrimSpace(r[|r| - 1])
  {
    if s != [] && IsTrimSpace(s[|s| - 1]) then
      var r := TrimEnd(s[..|s| - 1]);
      TrimEndStep(s, r);
      r
    else s
  }

  /** Trimming all but a whitespace last character trims the whole. */
  lemma TrimEndStep(s: string, r: string)
    requires s != [] && IsTrimSpace(s[|s| - 1])
    requires |r| <= |s| - 1 && r == s[..|s| - 1][..|r|]
    requires AllTrimSpace(s[..|s| - 1][|r|..])
    ensures r == s[..|r|] && AllTrimSpace(s[|r|..])
  {
    assert s[|r|..] == s[..|s| - 1][|r|..] + [s[|s| - 1]];
  }

  /** `s` is whitespace, then `r` starting at `lead`, then whitespace. */
  predicate TrimmedSlice(s: string, lead: nat, r: string)
  {
    && lead + |r| <= |s| && r == s[lead..lead + |r|]
    && AllTrimSpace(s[..lead]) && AllTrimSpace(s[lead + |r|..])
  }

  /** Neither end of `r` is whitespace. */
  predicate NoSpaceEnds(r: string)
  {
    r == [] || (!IsTrimSpace(r[0]) && !IsTrimSpace(r[|r| - 1]))
  }

  /** Swift's `trimmingCharacters(in: .whitespacesAndNewlines)`: the text
      between the leading and the trailing whitespace. */
  function Trim(s: string): (r: string)
    ensures exists lead :: TrimmedSlice(s, lead, r)
    ensures NoSpaceEnds(r)
    ensures r == [] <==> AllTrimSpace(s)
  {
    var lead := Span(s, IsTrimSpace);
    var r := TrimEnd(s[lead..]);
    TrimSlices(s, lead, r);
    assert TrimmedSlice(s, lead, r);
    r
  }

  lemma TrimSlices(s: string, lead: nat, r: string)
    requires lead <= |s| && (forall i :: 0 <= i < lead ==> IsTrimSpace(s[i]))
    requires lead < |s| ==> !IsTrimSpace(s[lead])
    requires |r| <= |s| - lead && r == s[lead..][..|r|]
    requires AllTrimSpace(s[lead..][|r|..])
    requires r == [] || !IsTrimSpace(r[|r| - 1])
    ensures lead <= |s| - |r| && r == s[lead..lead + |r|]
    ensures AllTrimSpace(s[..lead]) && AllTrimSpace(s[lead + |r|..])
    ensures r == [] || !IsTrimSpace(r[0])
    ensures r == [] <==> AllTrimSpace(s)
  {
    SliceOfSlice(s, lead, |r|);
    TrimParts(s, lead, r);
  }

  /** The slice facts behind `Trim`, from the properties of the leading span
      and of `TrimEnd` alone. */
  lemma TrimParts(s: string, lead: nat, r: string)
    requires lead + |r| <= |s| && r == s[lead..lead + |r|]
    requires forall i :: 0 <= i < lead ==> IsTrimSpace(s[i])
    requires lead < |s| ==> !IsTrimSpace(s[lead])
    requires AllTrimSpace(s[lead + |r|..])
    requires r == [] || !IsTrimSpace(r[|r| - 1])
    ensures AllTrimSpace(s[..lead])
    ensures r == [] || !IsTrimSpace(r[0])
    ensures r == [] <==> AllTrimSpace(s)
  {
    if r == [] {
      assert lead == |s|;
      assert s[..lead] == s;
    } else {
      assert r[0] == s[lead];
    }
  }

  lemma SliceJoin<T>(s: seq<T>, a: nat, b: nat, c: nat)
    requires a <= b <= c <= |s|
    ensures s[a..b] + s[b..c] == s[a..c]
  {
  }

  lemma SliceOfSlice<T>(s: seq<T>, i: nat, n: nat)
    requires i + n <= |s|
    ensures s[i..][..n] == s[i..i + n] && s[i..][n..] == s[i + n..]
  {
  }

  /** `TrimEnd` keeps exactly the text before a whitespace-only tail that
      ends in a non-space (or is empty). */
  lemma {:induction false} TrimEndUnique(s: string, r: string)
    requires |r| <= |s| && r == s[..|r|] && AllTrimSpace(s[|r|..])
    requires r == [] || !IsTrimSpace(r[|r| - 1])
    ensures TrimEnd(s) == r
    decreases |s|
  {
    if |s| > |r| {
      assert IsTrimSpace(s[|s| - 1]);
      assert s[..|s| - 1][..|r|] == r;
      assert s[..|s| - 1][|r|..] == s[|r|..|s| - 1];
      TrimEndUnique(s[..|s| - 1], r);
    } else {
      assert r == s;
    }
  }

  /** Any way of cutting `s` into whitespace, a text with no whitespace at
      either end, and whitespace is the one `Trim` finds. */
  lemma TrimUnique(s: string, lead: nat, r: string)
    requires TrimmedSlice(s, lead, r) && r != [] && NoSpaceEnds(r)
    ensures Trim(s) == r
  {
    var n := Span(s, IsTrimSpace);
    assert s[lead] == r[0];
    assert n == lead;
    var t := s[lead..];
    assert t[..|r|] == r;
    assert t[|r|..] == s[lead + |r|..];
    TrimEndUnique(t, r);
  }

  lemma AllTrimSpaceConcat(a: string, b: string)
    requires AllTrimSpace(a) && AllTrimSpace(b)
    ensures AllTrimSpace(a + b)
  {
    assert forall i :: |a| <= i < |a + b| ==> (a + b)[i] == b[i - |a|];
  }

  /** Whitespace around a text does not change what trimming gives. */
  lemma TrimIgnoresPadding(a: string, t: string, b: string)
    requires AllTrimSpace(a) && AllTrimSpace(b)
    ensures Trim(a + t + b) == Trim(t)
  {
    var l := Span(t, IsTrimSpace);
    var r := TrimEnd(t[l..]);
    assert Trim(t) == r;
    TrimSlices(t, l, r);
    if r == [] {
      AllTrimSpaceConcat(a, t);
      AllTrimSpaceConcat(a + t, b);
    } else {
      PaddedSlices(a, t, b, l, r);
    }
  }

  lemma PaddedSlices(a: string, t: string, b: string, l: nat, r: string)
    requires AllTrimSpace(a) && AllTrimSpace(b)
    requires TrimmedSlice(t, l, r) && r != [] && NoSpaceEnds(r)
    ensures Trim(a + t + b) == r
  {
    var s := a + t + b;
    assert s[..|a| + l] == a + t[..l];
    assert s[|a| + l + |r|..] == t[l + |r|..] + b;
    assert s[|a| + l..|a| + l + |r|] == t[l..l + |r|];
    AllTrimSpaceConcat(a, t[..l]);
    AllTrimSpaceConcat(t[l + |r|..], b);
    assert TrimmedSlice(s, |a| + l, r);
    TrimUnique(s, |a| + l, r);
  }

  lemma TrimIdempotent(s: string)
    ensures Trim(Trim(s)) == Trim(s)
  {
    var r := Trim(s);
    if r != [] {
      assert r[0..0 + |r|] == r && r[..0] == [] && r[|r|..] == [];
      assert TrimmedSlice(r, 0, r);
      TrimUnique(r, 0, r);
    }
  }

  /** Taking the first element off a concatenation whose left part is not
      empty. */
  lemma HeadThenRest<T>(a: seq<T>, b: seq<T>, rest: seq<T>)
    requires a != []
    ensures (a + b)[0] == a[0] && (a + b)[1..] == a[1..] + b
    ensures [a[0]] + (a[1..] + rest) == a + rest
  {
    assert a == [a[0]] + a[1..];
  }

  lemma Assoc<T>(x: seq<T>, y: seq<T>, z: seq<T>)
    ensures x + y + z == x + (y + z)
  {
  }

  /** Regrouping a concatenation of three parts. */
  lemma Regroup<T>(x: seq<T>, y: seq<T>, z: seq<T>, whole: seq<T>)
    requires whole == x + (y + z)
    ensures whole == (x + y) + z
  {
  }

  /** The strings of `xs` concatenated in order. */
  function Concat<T>(xs: seq<seq<T>>): (r: seq<T>)
  {
    if xs == [] then [] else xs[0] + Concat(xs[1..])
  }

  lemma ConcatCons<T>(x: seq<T>, ys: seq<seq<T>>)
    ensures Concat([x] + ys) == x + Concat(ys)
  {
    assert ([x] + ys)[1..] == ys;
  }

  lemma {:induction false} ConcatAppend<T>(a: seq<seq<T>>, b: seq<seq<T>>)
    ensures Concat(a + b) == Concat(a) + Concat(b)
    decreases |a|
  {
    if a == [] {
      assert a + b == b;
    } else {
      assert (a + b)[1..] == a[1..] + b;
      ConcatAppend(a[1..], b);
    }
  }

  lemma {:induction false} ConcatLength<T>(xs: seq<seq<T>>)
    ensures forall j :: 0 <= j < |xs| ==> |xs[j]| <= |Concat(xs)|
    ensures (forall j :: 0 <= j < |xs| ==> xs[j] != []) ==> |xs| <= |Concat(xs)|
    decreases |xs|
  {
    if xs != [] {
      ConcatLength(xs[1..]);
      assert forall j :: 1 <= j < |xs| ==> xs[j] == xs[1..][j - 1];
    }
  }

  /** Swift's `joined(separator:)`. */
  function Join(parts: seq<string>, sep: string): (r: string)
    ensures |parts| == 1 ==> r == parts[0]
    ensures |parts| > 0 ==> |r| == |Concat(parts)| + (|parts| - 1) * |sep|
    ensures parts == [] ==> r == []
  {
    if parts == [] then []
    else if |parts| == 1 then parts[0]
    else parts[0] + sep + Join(parts[1..], sep)
  }

  /** Joining two non-empty lists of parts is joining each and putting one
      separator between the results. With the one-part case this fixes every
      joined text: the parts appear whole, in order, one separator apart. */
  lemma {:induction false} JoinAppend(a: seq<string>, b: seq<string>, sep: string)
    requires a != [] && b != []
    ensures Join(a + b, sep) == Join(a, sep) + sep + Join(b, sep)
    decreases |a|
  {
    if |a| == 1 {
      ConsSplit(a, b);
      assert a[1..] == [];
      JoinCons(a[0], b, sep);
    } else {
      JoinAppend(a[1..], b, sep);
      JoinAppendStep(a, b, sep);
    }
  }

  lemma JoinAppendStep(a: seq<string>, b: seq<string>, sep: string)
    requires |a| >= 2 && b != []
    requires Join(a[1..] + b, sep) == Join(a[1..], sep) + sep + Join(b, sep)
    ensures Join(a + b, sep) == Join(a, sep) + sep + Join(b, sep)
  {
    ConsSplit(a, b);
    JoinCons(a[0], a[1..] + b, sep);
    JoinCons(a[0], a[1..], sep);
    Glue(a[0], sep, Join(a[1..], sep), Join(b, sep), Join(a + b, sep), Join(a, sep));
  }

  lemma ConsSplit<T>(a: seq<T>, b: seq<T>)
    requires a != []
    ensures a + b == [a[0]] + (a[1..] + b) && a == [a[0]] + a[1..]
  {
  }

  lemma Glue<T>(x: seq<T>, sep: seq<T>, y: seq<T>, z: seq<T>, whole: seq<T>, left: seq<T>)
    requires whole == x + sep + (y + sep + z) && left == x + sep + y
    ensures whole == left + sep + z
  {
  }

  lemma JoinCons(x: string, rest: seq<string>, sep: string)
    requires rest != []
    ensures Join([x] + rest, sep) == x + sep + Join(rest, sep)
  {
    assert ([x] + rest)[0] == x && ([x] + rest)[1..] == rest;
  }
}
