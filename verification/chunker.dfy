/** `splitIntoChunks`: cuts sanitised markup in front of block-level start
    tags and packs the pieces greedily against a length limit. */
module Chunker {
  import opened Results
  import opened Text

  /** `maxChunkLength`, the translation length budget in characters. */
  const MaxChunkLength: nat := 3000

  /** The alternatives of the block pattern, in pattern order; `h[1-6]` is
      spelt out as six names. */
  const BlockNames: seq<string> := [
    "p", "div", "blockquote", "h1", "h2", "h3", "h4", "h5", "h6", "li", "tr",
    "section", "article", "figure", "figcaption", "pre", "ul", "ol", "table"
  ]

  /** Lower-case letters and digits only. */
  predicate IsTagName(name: string)
  {
    forall j :: 0 <= j < |name| ==> ('a' <= name[j] <= 'z') || ('0' <= name[j] <= '9')
  }

  lemma BlockNamesAreTagNames()
    ensures forall k :: 0 <= k < |BlockNames| ==> IsTagName(BlockNames[k])
  {
  }

  /** The pattern `<name[\s>]` matches at index `i` of `s`, ignoring case. */
  predicate TagAt(s: string, i: nat, name: string)
  {
    && i + |name| + 2 <= |s|
    && s[i] == '<'
    && StartsWithFolded(s[i + 1..], name)
    && (IsRegexSpace(s[i + 1 + |name|]) || s[i + 1 + |name|] == '>')
  }

  /** Index `i` of `s` starts a match of the block pattern. */
  predicate IsBlockStart(s: string, i: nat)
  {
    exists k :: 0 <= k < |BlockNames| && TagAt(s, i, BlockNames[k])
  }

  /** Length of the match at `i` through the first alternative of `names`
      that matches there. A match holds no `<` after its first character. */
  function FirstTag(s: string, i: nat, names: seq<string>): (n: Option<nat>)
    requires forall k :: 0 <= k < |names| ==> IsTagName(names[k])
    ensures n.Some? <==> exists k :: 0 <= k < |names| && TagAt(s, i, names[k])
    ensures n.Some? ==> 2 <= n.value && i + n.value <= |s| && s[i] == '<'
    ensures n.Some? ==> forall j :: i < j < i + n.value ==> s[j] != '<'
  {
    if names == [] then None
    else if TagAt(s, i, names[0]) then
      var name := names[0];
      assert forall j :: i < j < i + 1 + |name| ==> FoldCase(s[j]) == name[j - i - 1] by {
        forall j | i < j < i + 1 + |name| ensures FoldCase(s[j]) == name[j - i - 1] {
          assert s[j] == s[i + 1..][j - i - 1];
        }
      }
      forall j | i < j < i + |name| + 2 ensures s[j] != '<' {
        if j < i + 1 + |name| {
          assert IsTagName(names[0]);
          var c := name[j - i - 1];
          assert ('a' <= c <= 'z') || ('0' <= c <= '9');
          assert FoldCase(s[j]) == c;
        } else {
          assert !IsRegexSpace('<');
        }
      }
      Some(|name| + 2)
    else
      var n := FirstTag(s, i, names[1..]);
      assert forall k :: 1 <= k < |names| ==> names[k] == names[1..][k - 1];
      n
  }

  /** The block pattern at index `i`: the length of its match, if any. */
  function BlockMatch(s: string, i: nat): (n: Option<nat>)
    ensures n.Some? <==> IsBlockStart(s, i)
    ensures n.Some? ==> 2 <= n.value && i + n.value <= |s|
    ensures n.Some? ==> forall j :: i < j < i + n.value ==> !IsBlockStart(s, j)
  {
    BlockNamesAreTagNames();
    FirstTag(s, i, BlockNames)
  }

  predicate Increasing(pts: seq<nat>)
  {
    forall k, l :: 0 <= k < l < |pts| ==> pts[k] < pts[l]
  }

  /** The indices of `s` where the block pattern matches. */
  ghost function BlockStarts(s: string): set<nat>
  {
    set j | 0 <= j < |s| && IsBlockStart(s, j)
  }

  /** `pts` lists, in increasing order, exactly the members of `starts` in
      `[lo, hi)`. */
  ghost predicate ListsFrom(starts: set<nat>, lo: nat, hi: nat, pts: seq<nat>)
  {
    && Increasing(pts)
    && (forall k :: 0 <= k < |pts| ==> lo <= pts[k] < hi && pts[k] in starts)
    && (forall j :: lo <= j < hi && j in starts ==> j in pts)
  }

  /** `pts` lists, in increasing order, exactly the block starts of `s` from
      index `i` on. */
  ghost predicate BlockStartsFrom(s: string, i: nat, pts: seq<nat>)
  {
    ListsFrom(BlockStarts(s), i, |s|, pts)
  }

  /** `regex.matches(in:)` from index `i` on: the engine tries each index in
      turn and, after a match, resumes at its end. Since a match holds no `<`
      after its first character, no block start is skipped. */
  function ScanFrom(s: string, i: nat): (pts: seq<nat>)
    requires i <= |s|
    ensures BlockStartsFrom(s, i, pts)
    decreases |s| - i
  {
    if i == |s| then []
    else match BlockMatch(s, i)
      case Some(n) =>
        var rest := ScanFrom(s, i + n);
        ListStep(BlockStarts(s), i, |s|, n, rest);
        [i] + rest
      case None =>
        var rest := ScanFrom(s, i + 1);
        ListSkip(BlockStarts(s), i, |s|, rest);
        rest
  }

  /** Listing from a non-member `lo` is listing from `lo + 1`. */
  lemma ListSkip(starts: set<nat>, lo: nat, hi: nat, rest: seq<nat>)
    requires lo < hi && lo !in starts
    requires ListsFrom(starts, lo + 1, hi, rest)
    ensures ListsFrom(starts, lo, hi, rest)
  {
  }

  /** Listing a member `lo` and then, after a gap with no members, a list of
      the rest. */
  lemma ListStep(starts: set<nat>, lo: nat, hi: nat, n: nat, rest: seq<nat>)
    requires lo < lo + n <= hi && lo in starts
    requires forall j :: lo < j < lo + n ==> j !in starts
    requires ListsFrom(starts, lo + n, hi, rest)
    ensures ListsFrom(starts, lo, hi, [lo] + rest)
  {
    var pts := [lo] + rest;
    assert forall k :: 1 <= k < |pts| ==> pts[k] == rest[k - 1];
    forall j | lo <= j < hi && j in starts ensures j in pts {
      if j >= lo + n {
        assert j in rest;
      }
    }
  }

  /** The split points: the start index of every match of the block pattern,
      in increasing order. */
  function SplitPoints(s: string): (pts: seq<nat>)
    ensures BlockStartsFrom(s, 0, pts)
  {
    ScanFrom(s, 0)
  }

  /** The segments between consecutive split points; the last one runs to
      the end of the text. Every segment starts with its split point's `<`. */
  function Segments(s: string, pts: seq<nat>): (segs: seq<string>)
    requires Increasing(pts)
    requires forall k :: 0 <= k < |pts| ==> pts[k] < |s|
    ensures |segs| == |pts|
    ensures forall k :: 0 <= k < |segs| ==> segs[k] != []
    ensures pts != [] ==> Concat(segs) == s[pts[0]..]
  {
    if pts == [] then []
    else if |pts| == 1 then [s[pts[0]..]]
    else
      var rest := Segments(s, pts[1..]);
      assert s[pts[0]..pts[1]] + s[pts[1]..] == s[pts[0]..];
      [s[pts[0]..pts[1]]] + rest
  }

  /** The state of the packing loop: the chunks emitted so far and the chunk
      being filled, each kept as the segments it is made of. The text of a
      chunk is the concatenation of its segments. */
  datatype Packing = Packing(done: seq<seq<string>>, cur: seq<string>)

  /** One iteration of the packing loop: close the current chunk when the
      segment would push it over `maxLen` and it is not empty; otherwise
      append the segment to it. */
  function PackStep(st: Packing, seg: string, maxLen: nat): (r: Packing)
    ensures st.done <= r.done && |r.done| <= |st.done| + 1
    ensures r.cur != [] && r.cur[|r.cur| - 1] == seg
    ensures |r.done| == |st.done| + 1 <==> |Concat(st.cur)| + |seg| > maxLen && Concat(st.cur) != []
  {
    if |Concat(st.cur)| + |seg| > maxLen && Concat(st.cur) != [] then
      Packing(st.done + [st.cur], [seg])
    else
      Packing(st.done, st.cur + [seg])
  }

  /** The packing loop over the remaining segments. */
  function PackFrom(st: Packing, segs: seq<string>, maxLen: nat): (r: Packing)
    ensures st.done <= r.done && |r.done| <= |st.done| + |segs|
    ensures segs != [] ==> r.cur != [] && r.cur[|r.cur| - 1] == segs[|segs| - 1]
    ensures segs == [] ==> r == st
    decreases |segs|
  {
    if segs == [] then st else PackFrom(PackStep(st, segs[0], maxLen), segs[1..], maxLen)
  }

  /** Every chunk of a packing state, the one being filled included when it
      holds anything. */
  function Groups(st: Packing): seq<seq<string>>
  {
    if st.cur == [] then st.done else st.done + [st.cur]
  }

  /** The text of each chunk. */
  function ChunkTexts(groups: seq<seq<string>>): (texts: seq<string>)
    ensures |texts| == |groups|
    ensures forall k :: 0 <= k < |groups| ==> texts[k] == Concat(groups[k])
  {
    if groups == [] then [] else [Concat(groups[0])] + ChunkTexts(groups[1..])
  }

  /** `splitIntoChunks`. With fewer than two block starts the text is one
      chunk. Otherwise the segments are packed greedily, the text before the
      first block start is put in front of the first chunk unless it is blank
      (and is dropped when it is), and an empty result falls back to the
      whole text. */
  function SplitIntoChunks(html: string, maxLen: nat): (chunks: seq<string>)
    ensures |chunks| >= 1
  {
    var points := SplitPoints(html);
    if |points| <= 1 then [html]
    else Assemble(html, html[..points[0]], PackFrom(Packing([], []), Segments(html, points), maxLen))
  }

  /** What `splitIntoChunks` does once the packing loop is over: the prefix
      goes in front of the first chunk unless it is blank, the chunk being
      filled is closed if it holds anything, and an empty result falls back
      to the whole text. */
  function Assemble(html: string, prefix: string, packed: Packing): (chunks: seq<string>)
    ensures |chunks| >= 1
    ensures |chunks| <= |packed.done| + 1
    ensures packed.done == [] && Concat(packed.cur) == [] && Trim(prefix) == [] ==> chunks == [html]
    ensures Concat(packed.cur) != [] ==> |chunks| == |packed.done| + 1
  {
    var done := ChunkTexts(packed.done);
    var cur := Concat(packed.cur);
    var keep := Trim(prefix) != [];
    var done' := if keep && |done| > 0 then [prefix + done[0]] + done[1..] else done;
    var cur' := if keep && |done| == 0 then prefix + cur else cur;
    var out := if cur' != [] then done' + [cur'] else done';
    if out == [] then [html] else out
  }

  // ----- Greedy packing -----

  /** The shape greedy packing gives a list of chunks (each a list of
      segments): no chunk is empty, a chunk of two or more segments fits in
      `maxLen`, and each chunk but the last was closed because the first
      segment of the next one would have pushed it over `maxLen`. */
  ghost predicate Greedy(groups: seq<seq<string>>, maxLen: nat)
  {
    && (forall k :: 0 <= k < |groups| ==> groups[k] != [])
    && (forall k :: 0 <= k < |groups| && |groups[k]| >= 2 ==> |Concat(groups[k])| <= maxLen)
    && (forall k :: 0 <= k < |groups| - 1 ==> |Concat(groups[k])| + |groups[k + 1][0]| > maxLen)
  }

  /** No chunk text is empty. */
  ghost predicate Filled(groups: seq<seq<string>>)
  {
    forall k :: 0 <= k < |groups| ==> Concat(groups[k]) != []
  }

  ghost predicate PackInv(st: Packing, maxLen: nat)
  {
    && (st.cur == [] ==> st.done == [])
    && (forall j :: 0 <= j < |st.cur| ==> st.cur[j] != [])
    && Greedy(Groups(st), maxLen)
    && Filled(Groups(st))
  }

  lemma ConcatSnoc(g: seq<string>, seg: string)
    ensures Concat(g + [seg]) == Concat(g) + seg
  {
    ConcatAppend(g, [seg]);
    assert Concat([seg]) == seg + Concat<char>([]);
  }

  /** Closing the current chunk and starting a new one with `seg`. */
  lemma GreedyStartNew(groups: seq<seq<string>>, seg: string, maxLen: nat)
    requires Greedy(groups, maxLen) && Filled(groups) && seg != []
    requires groups != [] ==> |Concat(groups[|groups| - 1])| + |seg| > maxLen
    ensures Greedy(groups + [[seg]], maxLen) && Filled(groups + [[seg]])
  {
    var gs := groups + [[seg]];
    assert Concat([seg]) == seg + Concat<char>([]);
    forall k | 0 <= k < |gs|
      ensures gs[k] != [] && Concat(gs[k]) != []
      ensures |gs[k]| >= 2 ==> |Concat(gs[k])| <= maxLen
    {
      if k < |groups| {
        assert gs[k] == groups[k];
      }
    }
    GreedyStartNewFull(groups, seg, maxLen);
  }

  /** The "closed because full" part of `GreedyStartNew`. */
  lemma GreedyStartNewFull(groups: seq<seq<string>>, seg: string, maxLen: nat)
    requires forall k :: 0 <= k < |groups| ==> groups[k] != []
    requires forall k :: 0 <= k < |groups| - 1 ==> |Concat(groups[k])| + |groups[k + 1][0]| > maxLen
    requires groups != [] ==> |Concat(groups[|groups| - 1])| + |seg| > maxLen
    ensures var gs := groups + [[seg]];
      forall k :: 0 <= k < |gs| - 1 ==> |Concat(gs[k])| + |gs[k + 1][0]| > maxLen
  {
    var gs := groups + [[seg]];
    forall k | 0 <= k < |gs| - 1
      ensures |Concat(gs[k])| + |gs[k + 1][0]| > maxLen
    {
      assert gs[k] == groups[k];
      if k < |groups| - 1 {
        assert gs[k + 1] == groups[k + 1];
      }
    }
  }

  /** Appending `seg` to the last chunk when the result fits. */
  lemma GreedyExtendLast(groups: seq<seq<string>>, g: seq<string>, seg: string, maxLen: nat)
    requires Greedy(groups + [g], maxLen) && Filled(groups + [g]) && seg != []
    requires |Concat(g)| + |seg| <= maxLen
    ensures Greedy(groups + [g + [seg]], maxLen) && Filled(groups + [g + [seg]])
  {
    var before := groups + [g];
    var gs := groups + [g + [seg]];
    ConcatSnoc(g, seg);
    assert before[|groups|] == g;
    forall k | 0 <= k < |gs|
      ensures gs[k] != [] && Concat(gs[k]) != []
      ensures |gs[k]| >= 2 ==> |Concat(gs[k])| <= maxLen
    {
      if k < |groups| {
        assert gs[k] == before[k];
      }
    }
    forall k | 0 <= k < |gs| - 1
      ensures |Concat(gs[k])| + |gs[k + 1][0]| > maxLen
    {
      assert gs[k] == before[k];
      assert gs[k + 1][0] == before[k + 1][0];
    }
  }

  lemma PackStepInv(st: Packing, seg: string, maxLen: nat)
    requires PackInv(st, maxLen) && seg != []
    ensures PackInv(PackStep(st, seg, maxLen), maxLen)
    ensures Concat(Groups(PackStep(st, seg, maxLen))) == Concat(Groups(st)) + [seg]
    ensures PackStep(st, seg, maxLen).cur != []
  {
    var next := PackStep(st, seg, maxLen);
    ConcatAppend(Groups(st), [[seg]]);
    assert Concat([[seg]]) == [seg] + Concat<string>([]);
    if st.cur == [] {
      assert Concat(st.cur) == [];
      assert next == Packing([], [seg]);
      assert Groups(next) == Groups(st) + [[seg]];
      GreedyStartNew(Groups(st), seg, maxLen);
    } else {
      assert Concat(st.cur) != [] by {
        assert Concat(st.cur) == st.cur[0] + Concat(st.cur[1..]);
      }
      assert Groups(st) == st.done + [st.cur];
      if |Concat(st.cur)| + |seg| > maxLen {
        assert Groups(next) == Groups(st) + [[seg]];
        GreedyStartNew(Groups(st), seg, maxLen);
      } else {
        assert Groups(next) == st.done + [st.cur + [seg]];
        GreedyExtendLast(st.done, st.cur, seg, maxLen);
        ConcatAppend(st.done, [st.cur]);
        ConcatAppend(st.done, [st.cur + [seg]]);
        assert Concat([st.cur]) == st.cur + Concat<string>([]);
        assert Concat([st.cur + [seg]]) == st.cur + [seg] + Concat<string>([]);
      }
    }
  }

  /** The packing loop keeps the greedy shape, never drops, splits or
      reorders a segment, and leaves a non-empty current chunk once it has
      seen a segment. */
  lemma {:induction false} PackFromInv(st: Packing, segs: seq<string>, maxLen: nat)
    requires PackInv(st, maxLen)
    requires forall k :: 0 <= k < |segs| ==> segs[k] != []
    ensures PackInv(PackFrom(st, segs, maxLen), maxLen)
    ensures Concat(Groups(PackFrom(st, segs, maxLen))) == Concat(Groups(st)) + segs
    ensures st.cur != [] || segs != [] ==> PackFrom(st, segs, maxLen).cur != []
    decreases |segs|
  {
    if segs != [] {
      var next := PackStep(st, segs[0], maxLen);
      var last := PackFrom(next, segs[1..], maxLen);
      assert PackFrom(st, segs, maxLen) == last;
      PackStepInv(st, segs[0], maxLen);
      assert forall k :: 0 <= k < |segs[1..]| ==> segs[1..][k] != [] by {
        assert forall k :: 0 <= k < |segs[1..]| ==> segs[1..][k] == segs[k + 1];
      }
      PackFromInv(next, segs[1..], maxLen);
      SnocThenRest(Concat(Groups(st)), segs);
    }
  }

  lemma SnocThenRest<T>(a: seq<T>, xs: seq<T>)
    requires xs != []
    ensures a + [xs[0]] + xs[1..] == a + xs
  {
    assert xs == [xs[0]] + xs[1..];
  }

  // ----- Chunks of a document -----

  /** The chunks packing makes of the segments of `html`, each as the list of
      segments it is made of, before any prefix is put in front. */
  function PackedGroups(html: string, maxLen: nat): seq<seq<string>>
  {
    Groups(PackFrom(Packing([], []), Segments(html, SplitPoints(html)), maxLen))
  }

  /** Packing the segments of a document keeps each segment whole and in
      order, and gives chunks of the greedy shape. */
  lemma PackedGroupsAreGreedy(html: string, maxLen: nat)
    ensures Concat(PackedGroups(html, maxLen)) == Segments(html, SplitPoints(html))
    ensures Greedy(PackedGroups(html, maxLen), maxLen)
    ensures Filled(PackedGroups(html, maxLen))
  {
    var segs := Segments(html, SplitPoints(html));
    assert Concat(Groups(Packing([], []))) == [];
    PackFromInv(Packing([], []), segs, maxLen);
  }

  /** The text before the first block start goes in front of the first chunk
      unless it is blank. */
  function Attach(prefix: string, chunks: seq<string>): (r: seq<string>)
    requires chunks != []
    ensures |r| == |chunks| && r[1..] == chunks[1..]
    ensures |r[0]| >= |chunks[0]| && r[0][|r[0]| - |chunks[0]|..] == chunks[0]
    ensures r[0] == chunks[0] <==> AllTrimSpace(prefix)
  {
    if AllTrimSpace(prefix) then chunks else [prefix + chunks[0]] + chunks[1..]
  }

  /** With two or more block starts, the result is the packed chunks with the
      prefix attached; the empty-result fallback is never taken. */
  lemma SplitNormalForm(html: string, maxLen: nat)
    requires |SplitPoints(html)| >= 2
    ensures PackedGroups(html, maxLen) != []
    ensures SplitIntoChunks(html, maxLen)
         == Attach(html[..SplitPoints(html)[0]], ChunkTexts(PackedGroups(html, maxLen)))
  {
    var points := SplitPoints(html);
    var segs := Segments(html, points);
    var packed := PackFrom(Packing([], []), segs, maxLen);
    PackFromInv(Packing([], []), segs, maxLen);
    AssembleChunks(html, html[..points[0]], packed);
  }

  /** The assembly after the packing loop, when the loop ended with a chunk
      being filled: the packed chunks with the prefix attached. */
  lemma AssembleChunks(html: string, prefix: string, packed: Packing)
    requires Concat(packed.cur) != []
    ensures Groups(packed) != []
    ensures Assemble(html, prefix, packed) == Attach(prefix, ChunkTexts(Groups(packed)))
  {
    var texts, c := ChunkTexts(packed.done), Concat(packed.cur);
    assert packed.cur != [];
    assert Groups(packed) == packed.done + [packed.cur];
    var all := ChunkTexts(Groups(packed));
    assert all == texts + [c];
    if Trim(prefix) != [] && texts != [] {
      assert all[1..] == texts[1..] + [c];
    }
  }

  lemma {:induction false} ConcatChunkTexts(groups: seq<seq<string>>)
    ensures Concat(ChunkTexts(groups)) == Concat(Concat(groups))
    decreases |groups|
  {
    if groups != [] {
      ConcatChunkTexts(groups[1..]);
      ConcatAppend([groups[0]], groups[1..]);
      assert [groups[0]] + groups[1..] == groups;
      assert Concat([groups[0]]) == groups[0] + Concat<string>([]);
      ConcatAppend(groups[0], Concat(groups[1..]));
    }
  }

  /** The first two split points are two distinct block starts. */
  lemma FirstTwoPoints(html: string)
    ensures |SplitPoints(html)| >= 2 ==>
      var points := SplitPoints(html);
      points[0] < points[1] && IsBlockStart(html, points[0]) && IsBlockStart(html, points[1])
  {
  }

  /** If the block pattern matches at most once, the whole text is the one
      chunk. */
  lemma SingleChunkUnlessTwoBlockStarts(html: string, maxLen: nat)
    requires forall i, j :: IsBlockStart(html, i) && IsBlockStart(html, j) ==> i == j
    ensures SplitIntoChunks(html, maxLen) == [html]
  {
    FirstTwoPoints(html);
  }

  /** Two distinct block starts give two split points. */
  lemma TwoPointsFromTwoBlockStarts(html: string, i: nat, j: nat)
    requires i < j && IsBlockStart(html, i) && IsBlockStart(html, j)
    ensures |SplitPoints(html)| >= 2
  {
    assert i < |html| && j < |html|;
    assert i in BlockStarts(html) && j in BlockStarts(html);
    ListsTwo(BlockStarts(html), 0, |html|, SplitPoints(html), i, j);
  }

  /** A complete listing of a range holding two starts has two entries. */
  lemma ListsTwo(starts: set<nat>, lo: nat, hi: nat, pts: seq<nat>, i: nat, j: nat)
    requires ListsFrom(starts, lo, hi, pts)
    requires lo <= i < j < hi && i in starts && j in starts
    ensures |pts| >= 2
  {
    assert i in pts && j in pts;
    var a, b :| 0 <= a < |pts| && 0 <= b < |pts| && pts[a] == i && pts[b] == j;
    assert a != b;
  }

  /** The pattern matching twice is the same as there being two split points. */
  lemma TwoBlockStartsIffTwoPoints(html: string)
    ensures |SplitPoints(html)| >= 2
        <==> exists i: nat, j: nat :: i < j && IsBlockStart(html, i) && IsBlockStart(html, j)
  {
    FirstTwoPoints(html);
    if exists i: nat, j: nat :: i < j && IsBlockStart(html, i) && IsBlockStart(html, j) {
      var i: nat, j: nat :| i < j && IsBlockStart(html, i) && IsBlockStart(html, j);
      TwoPointsFromTwoBlockStarts(html, i, j);
    }
  }

  /** Concatenating the chunks gives back the text, except that a blank text
      before the first of two or more block starts is dropped. */
  lemma ChunksReassemble(html: string, maxLen: nat)
    ensures var points := SplitPoints(html);
      var chunks := SplitIntoChunks(html, maxLen);
      if |points| >= 2 && AllTrimSpace(html[..points[0]])
      then Concat(chunks) == html[points[0]..]
      else Concat(chunks) == html
  {
    var points := SplitPoints(html);
    if |points| <= 1 {
      FewPointsOneChunk(html, maxLen);
      ConcatCons(html, []);
      assert [html] + [] == [html] && html + [] == html;
    } else {
      ManyPointsReassemble(html, maxLen);
    }
  }

  lemma FewPointsOneChunk(html: string, maxLen: nat)
    requires |SplitPoints(html)| <= 1
    ensures SplitIntoChunks(html, maxLen) == [html]
  {
  }

  lemma ManyPointsReassemble(html: string, maxLen: nat)
    requires |SplitPoints(html)| >= 2
    ensures var prefix := html[..SplitPoints(html)[0]];
      Concat(SplitIntoChunks(html, maxLen))
        == if AllTrimSpace(prefix) then html[SplitPoints(html)[0]..] else html
  {
    var points := SplitPoints(html);
    SplitNormalForm(html, maxLen);
    PackedTextsFromFirstPoint(html, maxLen);
    AttachedTexts(html, points[0], ChunkTexts(PackedGroups(html, maxLen)));
  }

  lemma AttachedTexts(html: string, first: nat, texts: seq<string>)
    requires first <= |html| && texts != [] && Concat(texts) == html[first..]
    ensures Concat(Attach(html[..first], texts))
         == if AllTrimSpace(html[..first]) then html[first..] else html
  {
    ConcatAttach(html[..first], texts);
    assert html == html[..first] + html[first..];
  }

  /** The packed chunks hold the text from the first block start on. */
  lemma PackedTextsFromFirstPoint(html: string, maxLen: nat)
    requires |SplitPoints(html)| >= 1
    ensures Concat(ChunkTexts(PackedGroups(html, maxLen))) == html[SplitPoints(html)[0]..]
  {
    PackedGroupsAreGreedy(html, maxLen);
    ConcatChunkTexts(PackedGroups(html, maxLen));
  }

  lemma ConcatAttach(prefix: string, texts: seq<string>)
    requires texts != []
    ensures Concat(Attach(prefix, texts))
         == if AllTrimSpace(prefix) then Concat(texts) else prefix + Concat(texts)
  {
    if !AllTrimSpace(prefix) {
      var r := Attach(prefix, texts);
      assert r == [prefix + texts[0]] + texts[1..];
      ConcatCons(prefix + texts[0], texts[1..]);
      ConcatCons(texts[0], texts[1..]);
      assert texts == [texts[0]] + texts[1..];
      Regroup(prefix, texts[0], Concat(texts[1..]), prefix + Concat(texts));
    }
  }

  /** Between one and as many chunks as split points, none of them empty. */
  lemma ChunkCountAndContent(html: string, maxLen: nat)
    requires |SplitPoints(html)| >= 2
    ensures var chunks := SplitIntoChunks(html, maxLen);
      && 1 <= |chunks| <= |SplitPoints(html)|
      && forall k :: 0 <= k < |chunks| ==> chunks[k] != []
  {
    var groups := PackedGroups(html, maxLen);
    SplitNormalForm(html, maxLen);
    PackedGroupsAreGreedy(html, maxLen);
    ConcatLength(groups);
    AttachFilled(html[..SplitPoints(html)[0]], groups);
  }

  /** Attaching a prefix keeps the number of chunks, and filled groups give
      non-empty chunks. */
  lemma AttachFilled(prefix: string, groups: seq<seq<string>>)
    requires groups != [] && Filled(groups)
    ensures var chunks := Attach(prefix, ChunkTexts(groups));
      |chunks| == |groups| && forall k :: 0 <= k < |chunks| ==> chunks[k] != []
  {
    var texts := ChunkTexts(groups);
    assert forall k :: 0 <= k < |texts| ==> texts[k] != [];
    if !AllTrimSpace(prefix) {
      var chunks := [prefix + texts[0]] + texts[1..];
      assert forall k :: 1 <= k < |chunks| ==> chunks[k] == texts[k];
    }
  }

  /** A segment longer than `maxLen` is never cut and never shares a chunk. */
  lemma LongSegmentsStandAlone(html: string, maxLen: nat)
    ensures var groups := PackedGroups(html, maxLen);
      forall k, j :: 0 <= k < |groups| && 0 <= j < |groups[k]| && |groups[k][j]| > maxLen
        ==> groups[k] == [groups[k][j]]
  {
    var groups := PackedGroups(html, maxLen);
    PackedGroupsAreGreedy(html, maxLen);
    forall k, j | 0 <= k < |groups| && 0 <= j < |groups[k]| && |groups[k][j]| > maxLen
      ensures groups[k] == [groups[k][j]]
    {
      ConcatLength(groups[k]);
    }
  }

  /** Each chunk but the last is as full as greedy packing makes it: adding
      the first segment of the next chunk would have exceeded `maxLen`. */
  lemma ChunksAreFull(html: string, maxLen: nat)
    requires |SplitPoints(html)| >= 2
    ensures var chunks := SplitIntoChunks(html, maxLen);
      var groups := PackedGroups(html, maxLen);
      && |chunks| == |groups|
      && (forall k :: 0 <= k < |groups| ==> groups[k] != [])
      && forall k :: 0 <= k < |chunks| - 1 ==> |chunks[k]| + |groups[k + 1][0]| > maxLen
  {
    SplitNormalForm(html, maxLen);
    PackedGroupsAreGreedy(html, maxLen);
    AttachGreedy(html[..SplitPoints(html)[0]], PackedGroups(html, maxLen), maxLen);
  }

  lemma GreedyTexts(groups: seq<seq<string>>, maxLen: nat)
    requires Greedy(groups, maxLen)
    ensures var texts := ChunkTexts(groups);
      forall k :: 0 <= k < |texts| - 1 ==> |texts[k]| + |groups[k + 1][0]| > maxLen
  {
    var texts := ChunkTexts(groups);
    forall k | 0 <= k < |texts| - 1
      ensures |texts[k]| + |groups[k + 1][0]| > maxLen
    {
      assert texts[k] == Concat(groups[k]);
    }
  }

  /** Attaching a prefix only lengthens the first chunk, so each chunk but
      the last still could not take the next segment. */
  lemma AttachGreedy(prefix: string, groups: seq<seq<string>>, maxLen: nat)
    requires groups != [] && Greedy(groups, maxLen)
    ensures var chunks := Attach(prefix, ChunkTexts(groups));
      && |chunks| == |groups|
      && forall k :: 0 <= k < |chunks| - 1 ==> |chunks[k]| + |groups[k + 1][0]| > maxLen
  {
    var texts := ChunkTexts(groups);
    GreedyTexts(groups, maxLen);
    if !AllTrimSpace(prefix) {
      var chunks := [prefix + texts[0]] + texts[1..];
      assert |chunks[0]| >= |texts[0]|;
      assert forall k :: 1 <= k < |chunks| ==> chunks[k] == texts[k];
    }
  }

  /** The segments before segment `m` make up the text between the first
      split point and split point `m`. */
  lemma {:induction false} SegmentOffsets(s: string, pts: seq<nat>, m: nat)
    requires Increasing(pts) && (forall k :: 0 <= k < |pts| ==> pts[k] < |s|)
    requires m < |pts|
    ensures Concat(Segments(s, pts)[..m]) == s[pts[0]..pts[m]]
    decreases m
  {
    var segs := Segments(s, pts);
    if m == 0 {
      assert segs[..0] == [];
    } else {
      var first, rest := s[pts[0]..pts[1]], Segments(s, pts[1..]);
      SegmentsCons(s, pts);
      SegmentOffsets(s, pts[1..], m - 1);
      assert segs[..m] == [first] + rest[..m - 1];
      ConcatCons(first, rest[..m - 1]);
      SliceJoin(s, pts[0], pts[1], pts[m]);
    }
  }

  lemma SegmentsCons(s: string, pts: seq<nat>)
    requires Increasing(pts) && (forall k :: 0 <= k < |pts| ==> pts[k] < |s|)
    requires |pts| >= 2
    ensures Increasing(pts[1..]) && (forall k :: 0 <= k < |pts[1..]| ==> pts[1..][k] < |s|)
    ensures Segments(s, pts) == [s[pts[0]..pts[1]]] + Segments(s, pts[1..])
  {
  }

  /** The first `k` chunks of a packing hold the first `m` segments, and
      there is a segment after them. */
  lemma GroupsPrefix(groups: seq<seq<string>>, segs: seq<string>, k: nat) returns (m: nat)
    requires Concat(groups) == segs && k < |groups|
    requires forall i :: 0 <= i < |groups| ==> groups[i] != []
    ensures m < |segs| && Concat(groups[..k]) == segs[..m]
    ensures Concat(ChunkTexts(groups)[..k]) == Concat(segs[..m])
  {
    assert groups == groups[..k] + groups[k..];
    ConcatAppend(groups[..k], groups[k..]);
    m := |Concat(groups[..k])|;
    assert Concat(groups[k..]) == groups[k] + Concat(groups[k + 1..]) by {
      assert groups[k..][1..] == groups[k + 1..];
    }
    assert ChunkTexts(groups)[..k] == ChunkTexts(groups[..k]);
    ConcatChunkTexts(groups[..k]);
  }

  lemma AttachPrefixLength(prefix: string, texts: seq<string>, k: nat)
    requires 0 < k <= |texts|
    ensures |Concat(Attach(prefix, texts)[..k])|
         == (if AllTrimSpace(prefix) then 0 else |prefix|) + |Concat(texts[..k])|
  {
    if !AllTrimSpace(prefix) {
      var chunks := Attach(prefix, texts);
      assert chunks[..k] == [prefix + texts[0]] + texts[1..k];
      ConcatCons(prefix + texts[0], texts[1..k]);
      assert texts[..k] == [texts[0]] + texts[1..k];
      ConcatCons(texts[0], texts[1..k]);
    }
  }

  /** Where chunk `k` starts in the text is a split point. */
  lemma ChunkStart(html: string, maxLen: nat, k: nat) returns (m: nat)
    requires |SplitPoints(html)| >= 2
    requires 0 < k < |SplitIntoChunks(html, maxLen)|
    ensures var points := SplitPoints(html);
      var start := if AllTrimSpace(html[..points[0]]) then points[0] else 0;
      && m < |points| && start + |Concat(SplitIntoChunks(html, maxLen)[..k])| == points[m]
  {
    var points := SplitPoints(html);
    var groups := PackedGroups(html, maxLen);
    SplitNormalForm(html, maxLen);
    PackedGroupsAreGreedy(html, maxLen);
    m := GroupStart(html, points, groups, k);
  }

  /** `ChunkStart` for any packing of the segments of `html` between
      `points`. */
  lemma GroupStart(html: string, points: seq<nat>, groups: seq<seq<string>>, k: nat) returns (m: nat)
    requires Increasing(points) && (forall j :: 0 <= j < |points| ==> points[j] < |html|)
    requires points != [] && Concat(groups) == Segments(html, points) && Filled(groups)
    requires 0 < k < |groups|
    ensures var prefix := html[..points[0]];
      var start := if AllTrimSpace(prefix) then points[0] else 0;
      && m < |points|
      && start + |Concat(Attach(prefix, ChunkTexts(groups))[..k])| == points[m]
  {
    var segs := Segments(html, points);
    var prefix := html[..points[0]];
    assert forall i :: 0 <= i < |groups| ==> groups[i] != [] by {
      forall i | 0 <= i < |groups| ensures groups[i] != [] {
        assert Concat(groups[i]) != [];
      }
    }
    m := GroupsPrefix(groups, segs, k);
    SegmentOffsets(html, points, m);
    AttachPrefixLength(prefix, ChunkTexts(groups), k);
  }

  /** Every boundary between two chunks falls on a split point, that is on
      a block start (`SplitPoints` lists exactly those). */
  lemma ChunkBoundariesAreSplitPoints(html: string, maxLen: nat)
    requires |SplitPoints(html)| >= 2
    ensures var points := SplitPoints(html);
      var chunks := SplitIntoChunks(html, maxLen);
      var start := if AllTrimSpace(html[..points[0]]) then points[0] else 0;
      forall k :: 0 < k < |chunks| ==>
        exists m :: 0 <= m < |points| && points[m] == start + |Concat(chunks[..k])|
  {
    forall k | 0 < k < |SplitIntoChunks(html, maxLen)| {
      ChunkBoundaryAt(html, maxLen, k);
    }
  }

  /** One boundary of `ChunkBoundariesAreSplitPoints`. */
  lemma ChunkBoundaryAt(html: string, maxLen: nat, k: nat)
    requires |SplitPoints(html)| >= 2
    requires 0 < k < |SplitIntoChunks(html, maxLen)|
    ensures var points := SplitPoints(html);
      var start := if AllTrimSpace(html[..points[0]]) then points[0] else 0;
      exists m :: 0 <= m < |points| && points[m] == start + |Concat(SplitIntoChunks(html, maxLen)[..k])|
  {
    var m := ChunkStart(html, maxLen, k);
  }
}
