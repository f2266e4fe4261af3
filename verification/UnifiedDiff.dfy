// Unified diffs: which edits share a hunk, what each hunk shows, and that
// applying the hunks to the left file gives the right one.
module UnifiedDiff {
  import opened EditScript
  import opened ScriptGeometry
  import opened DiffHunk

  // ---------------------------------------------------------------- clusters

  // The first and last edit of one hunk, as positions in the script.
  datatype Span = Span(first: nat, last: nat)

  // The part of the script a hunk shows: its edits and up to `context` matches around them.
  function ShownFrom(span: Span, context: nat): nat {
    if span.first < context then 0 else span.first - context
  }

  function ShownTo(span: Span, context: nat, script: seq<EditType>): nat {
    Min(span.last + 1 + context, |script|)
  }

  // A run of edits in which consecutive edits are separated by fewer than 2 * context matches.
  ghost predicate Cluster(script: seq<EditType>, context: nat, span: Span) {
    && span.first <= span.last < |script|
    && script[span.first] != Match && script[span.last] != Match
    && forall p, q :: (span.first <= p < q <= span.last && script[p] != Match && script[q] != Match
                       && Quiet(script, p + 1, q)) ==> q - (p + 1) < 2 * context
  }

  // One past the last edit of the spans before number k.
  function PreviousEnd(spans: seq<Span>, k: nat): nat
    requires k <= |spans|
  {
    if k == 0 then 0 else spans[k - 1].last + 1
  }

  // Span k is a cluster, has nothing but matches before it back to the previous
  // span, and at least 2 * context of them.
  ghost predicate SpanPlaced(script: seq<EditType>, context: nat, spans: seq<Span>, k: nat)
    requires k < |spans|
  {
    && Cluster(script, context, spans[k])
    && Quiet(script, PreviousEnd(spans, k), spans[k].first)
    && (k > 0 ==> spans[k].first - PreviousEnd(spans, k) >= 2 * context)
  }

  // The spans are the clusters of script[..end].
  ghost predicate Clusters(script: seq<EditType>, context: nat, spans: seq<Span>, end: nat)
    requires end <= |script|
  {
    && (forall k :: 0 <= k < |spans| ==> SpanPlaced(script, context, spans, k))
    && Quiet(script, PreviousEnd(spans, |spans|), end)
  }

  // The lines of the left (right) file covered by the edits script[a..b].
  ghost function ShownLeft(script: seq<EditType>, left: seq<string>, right: seq<string>, a: nat, b: nat): seq<string>
    requires Aligns(script, left, right)
    requires a <= b <= |script|
  {
    AtMonotone(script, a, b);
    AtMonotone(script, b, |script|);
    left[LeftAt(script, a)..LeftAt(script, b)]
  }

  ghost function ShownRight(script: seq<EditType>, left: seq<string>, right: seq<string>, a: nat, b: nat): seq<string>
    requires Aligns(script, left, right)
    requires a <= b <= |script|
  {
    AtMonotone(script, a, b);
    AtMonotone(script, b, |script|);
    right[RightAt(script, a)..RightAt(script, b)]
  }

  // Hunk h shows exactly the edits script[a..b]: its header and its lines are
  // those of the two slices, and removals come before additions.
  ghost predicate Shows(h: PrintedHunk, script: seq<EditType>, left: seq<string>, right: seq<string>, a: nat, b: nat)
    requires Aligns(script, left, right)
    requires a <= b <= |script|
  {
    && h.leftStart == LeftAt(script, a) + 1 && h.rightStart == RightAt(script, a) + 1
    && LeftText(h.lines) == ShownLeft(script, left, right, a, b)
    && RightText(h.lines) == ShownRight(script, left, right, a, b)
    && h.common == Matches(script, a, b)
    && h.removes + h.common == |LeftText(h.lines)| && h.adds + h.common == |RightText(h.lines)|
    && h.removes == Tagged(h.lines, '-') && h.adds == Tagged(h.lines, '+') && h.common == Tagged(h.lines, ' ')
    && h.adds + h.removes > 0
    && Grouped(h.lines)
  }

  ghost predicate ShowsSpan(h: PrintedHunk, script: seq<EditType>, left: seq<string>, right: seq<string>,
                            context: nat, span: Span)
    requires Aligns(script, left, right)
  {
    && span.first <= span.last < |script|
    && Shows(h, script, left, right, ShownFrom(span, context), ShownTo(span, context, script))
  }

  // The hunks are those of the clusters of the whole script.
  ghost predicate IsDiff(script: seq<EditType>, left: seq<string>, right: seq<string>, context: nat,
                         spans: seq<Span>, hunks: seq<PrintedHunk>, end: nat)
    requires Aligns(script, left, right)
    requires end <= |script|
  {
    && Clusters(script, context, spans, end)
    && |hunks| == |spans|
    && forall k :: 0 <= k < |hunks| ==> ShowsSpan(hunks[k], script, left, right, context, spans[k])
  }

  function RenderAll(hunks: seq<PrintedHunk>): string {
    if hunks == [] then "" else RenderAll(hunks[..|hunks| - 1]) + Render(hunks[|hunks| - 1])
  }

  // ---------------------------------------------------------------- the algorithm

  // The position of the first edit at or after `start`, or the end of the script.
  method SkipMatches(script: seq<EditType>, start: nat) returns (it: nat)
    requires start <= |script|
    ensures start <= it <= |script| && Quiet(script, start, it)
    ensures it < |script| ==> script[it] != Match
  {
    it := start;
    while it < |script| && script[it] == Match
      invariant start <= it <= |script| && Quiet(script, start, it)
    {
      it := it + 1;
    }
  }

  // A hunk that has been given the edits script[a..b].
  ghost predicate Holds(hunk: Hunk, script: seq<EditType>, left: seq<string>, right: seq<string>, a: nat, b: nat)
    requires Aligns(script, left, right)
    requires a <= b <= |script|
    reads hunk
  {
    && hunk.Open()
    && hunk.leftStart == LeftAt(script, a) + 1 && hunk.rightStart == RightAt(script, a) + 1
    && hunk.Left() == ShownLeft(script, left, right, a, b) && hunk.Right() == ShownRight(script, left, right, a, b)
    && hunk.common == Matches(script, a, b)
    && hunk.removes + hunk.common == |hunk.Left()| && hunk.adds + hunk.common == |hunk.Right()|
  }

  lemma EditWithin(script: seq<EditType>, left: seq<string>, right: seq<string>, b: nat)
    requires Aligns(script, left, right) && b < |script|
    ensures LeftAt(script, b) + LeftStep(script[b]) == LeftAt(script, b + 1) <= |left|
    ensures RightAt(script, b) + RightStep(script[b]) == RightAt(script, b + 1) <= |right|
    ensures script[b].Match? ==> left[LeftAt(script, b)] == right[RightAt(script, b)]
  {
    assert EditFits(script, left, right, |left|, |right|, b);
    AtStep(script, b);
    hide LeftAt, RightAt;
  }

  lemma ShowLeftMore(script: seq<EditType>, left: seq<string>, right: seq<string>, a: nat, b: nat)
    requires Aligns(script, left, right) && a <= b < |script|
    ensures LeftAt(script, b) + LeftStep(script[b]) <= |left|
    ensures ShownLeft(script, left, right, a, b + 1) ==
            if script[b].Add? then ShownLeft(script, left, right, a, b)
            else ShownLeft(script, left, right, a, b) + [left[LeftAt(script, b)]]
  {
    hide Aligns, LeftAt, RightAt;
    EditWithin(script, left, right, b);
    AtMonotone(script, a, b);
  }

  lemma ShowRightMore(script: seq<EditType>, left: seq<string>, right: seq<string>, a: nat, b: nat)
    requires Aligns(script, left, right) && a <= b < |script|
    ensures RightAt(script, b) + RightStep(script[b]) <= |right|
    ensures ShownRight(script, left, right, a, b + 1) ==
            if script[b].Remove? then ShownRight(script, left, right, a, b)
            else ShownRight(script, left, right, a, b) + [right[RightAt(script, b)]]
  {
    hide Aligns, LeftAt, RightAt;
    EditWithin(script, left, right, b);
    AtMonotone(script, a, b);
  }

  lemma MatchesMore(script: seq<EditType>, a: nat, b: nat)
    requires a <= b < |script|
    ensures Matches(script, a, b + 1) == Matches(script, a, b) + (if script[b].Match? then 1 else 0)
  {
  }

  // What showing one edit more adds to each side.
  lemma ShowOneMore(script: seq<EditType>, left: seq<string>, right: seq<string>, a: nat, b: nat)
    requires Aligns(script, left, right)
    requires a <= b < |script|
    ensures LeftAt(script, b) + LeftStep(script[b]) == LeftAt(script, b + 1) <= |left|
    ensures RightAt(script, b) + RightStep(script[b]) == RightAt(script, b + 1) <= |right|
    ensures ShownLeft(script, left, right, a, b + 1) ==
            if script[b].Add? then ShownLeft(script, left, right, a, b)
            else ShownLeft(script, left, right, a, b) + [left[LeftAt(script, b)]]
    ensures ShownRight(script, left, right, a, b + 1) ==
            if script[b].Remove? then ShownRight(script, left, right, a, b)
            else ShownRight(script, left, right, a, b) + [right[RightAt(script, b)]]
    ensures script[b].Match? ==> left[LeftAt(script, b)] == right[RightAt(script, b)]
    ensures Matches(script, a, b + 1) == Matches(script, a, b) + (if script[b].Match? then 1 else 0)
  {
    EditWithin(script, left, right, b);
    ShowLeftMore(script, left, right, a, b);
    ShowRightMore(script, left, right, a, b);
    MatchesMore(script, a, b);
    hide Aligns, LeftAt, RightAt, Matches, ShownLeft, ShownRight;
  }

  // Pushes the lines of one edit.
  method PushEdit(hunk: Hunk, script: seq<EditType>, left: seq<string>, right: seq<string>, ghost a: nat, b: nat,
                  l: nat, r: nat)
    requires Aligns(script, left, right)
    requires a <= b < |script|
    requires Holds(hunk, script, left, right, a, b)
    requires l == LeftAt(script, b) && r == RightAt(script, b)
    modifies hunk
    ensures Holds(hunk, script, left, right, a, b + 1)
    ensures hunk.HasEdits() <==> old(hunk.HasEdits()) || script[b] != Match
  {
    hide LeftAt, RightAt, Matches, Aligns, ShownLeft, ShownRight, LeftText, RightText, Tagged;
    ShowOneMore(script, left, right, a, b);
    var edit := script[b];
    if edit.Match? || edit.Remove? || edit.Replace? {
      hunk.PushLine(if edit.Match? then ' ' else '-', left[l]);
    }
    if edit.Add? || edit.Replace? {
      hunk.PushLine('+', right[r]);
    }
  }

  // The i-th edit before the end of a quiet stretch.
  lemma EndOfQuietStretch(script: seq<EditType>, left: seq<string>, right: seq<string>, first: nat, p: nat, i: nat)
    requires Aligns(script, left, right)
    requires i <= p <= first <= |script| && Quiet(script, first - p, first)
    ensures LeftAt(script, first - i) == LeftAt(script, first) - i
    ensures RightAt(script, first - i) == RightAt(script, first) - i
    ensures LeftAt(script, first) <= |left|
    ensures i > 0 ==> script[first - i] == Match
  {
    QuietStretch(script, left, right, first - i, first);
  }

  lemma NothingShown(script: seq<EditType>, left: seq<string>, right: seq<string>, a: nat)
    requires Aligns(script, left, right)
    requires a <= |script|
    ensures Matches(script, a, a) == 0
    ensures ShownLeft(script, left, right, a, a) == [] && ShownRight(script, left, right, a, a) == []
  {
    AtMonotone(script, a, |script|);
    var l, r := LeftAt(script, a), RightAt(script, a);
    assert left[l..l] == [] && right[r..r] == [];
  }

  method OpenHunk(script: seq<EditType>, left: seq<string>, right: seq<string>, ghost a: nat, l: nat, r: nat)
    returns (hunk: Hunk)
    requires Aligns(script, left, right)
    requires a <= |script| && l == LeftAt(script, a) && r == RightAt(script, a)
    ensures fresh(hunk) && Holds(hunk, script, left, right, a, a) && !hunk.HasEdits()
  {
    hide LeftAt, RightAt, Matches, Aligns, ShownLeft, ShownRight, LeftText, RightText, Tagged;
    hunk := new Hunk(l + 1, r + 1);
    NothingShown(script, left, right, a);
  }

  // Pushes the line of a match.
  method PushContext(hunk: Hunk, script: seq<EditType>, left: seq<string>, right: seq<string>, ghost a: nat,
                     ghost b: nat, l: nat)
    requires Aligns(script, left, right)
    requires a <= b < |script| && script[b] == Match
    requires Holds(hunk, script, left, right, a, b) && l == LeftAt(script, b)
    requires l < |left|
    modifies hunk
    ensures Holds(hunk, script, left, right, a, b + 1)
    ensures hunk.HasEdits() == old(hunk.HasEdits())
  {
    hide LeftAt, RightAt, Matches, Aligns, ShownLeft, ShownRight, LeftText, RightText, Tagged;
    ShowOneMore(script, left, right, a, b);
    hunk.PushLine(' ', left[l]);
  }

  // Starts a hunk at position `first` with the last p matches before it.
  method StartHunk(script: seq<EditType>, left: seq<string>, right: seq<string>, first: nat, l: nat, r: nat, p: nat)
    returns (hunk: Hunk)
    requires Aligns(script, left, right)
    requires p <= first <= |script| && Quiet(script, first - p, first)
    requires l == LeftAt(script, first) && r == RightAt(script, first)
    ensures fresh(hunk) && Holds(hunk, script, left, right, first - p, first)
    ensures !hunk.HasEdits()
  {
    hide LeftAt, RightAt, Matches, Aligns, ShownLeft, ShownRight, LeftText, RightText, Tagged, Quiet;
    hide Holds, Hunk.HasEdits;
    EndOfQuietStretch(script, left, right, first, p, p);
    hunk := OpenHunk(script, left, right, first - p, l - p, r - p);
    var i := p;
    while i > 0
      invariant 0 <= i <= p
      invariant fresh(hunk) && Holds(hunk, script, left, right, first - p, first - i)
      invariant !hunk.HasEdits()
    {
      EndOfQuietStretch(script, left, right, first, p, i);
      PushContext(hunk, script, left, right, first - p, first - i, l - i);
      i := i - 1;
    }
  }

  // A hunk opened at `first` has taken the edits up to e; `last` is its last edit so far.
  ghost predicate Filling(edits: seq<EditType>, context: nat, span: Span, e: nat) {
    && span.last < e <= |edits|
    && Cluster(edits, context, span) && Quiet(edits, span.last + 1, e)
    // Past the context, the next edit is close by.
    && (e - (span.last + 1) > context ==>
          exists q :: e <= q < |edits| && q < span.last + 1 + 2 * context && edits[q] != Match)
  }

  // Edit e may be taken: it is within the context, or the next edit (at `it`) is very close.
  lemma KeepFilling(edits: seq<EditType>, context: nat, span: Span, e: nat, it: nat)
    requires context >= 1 && e < |edits| && Filling(edits, context, span, e)
    requires e - (span.last + 1) >= context ==>
      e <= it < |edits| && edits[it] != Match && it - e < context
    ensures Filling(edits, context, if edits[e].Match? then span else Span(span.first, e), e + 1)
  {
    if edits[e] != Match {
      assert e - (span.last + 1) < 2 * context;
    }
  }

  // The hunk is complete: input over, or no edit within another context of matches.
  lemma StopFilling(edits: seq<EditType>, context: nat, span: Span, e: nat, it: nat)
    requires context >= 1 && Filling(edits, context, span, e)
    requires e <= it <= |edits| && Quiet(edits, e, it)
    requires e < |edits| ==> e - (span.last + 1) >= context && (it == |edits| || it - e >= context)
    ensures e == ShownTo(span, context, edits)
    ensures Quiet(edits, span.last + 1, Min(span.last + 1 + 2 * context, |edits|))
  {
  }

  lemma StartFilling(edits: seq<EditType>, context: nat, first: nat)
    requires first < |edits| && edits[first] != Match
    ensures Filling(edits, context, Span(first, first), first + 1)
  {
  }

  lemma NothingQuiet(edits: seq<EditType>, e: nat)
    requires e <= |edits|
    ensures Quiet(edits, e, e)
  {
  }

  // Extends the hunk, edit by edit, to the end of one cluster and its context.
  method FillHunk(hunk: Hunk, edits: seq<EditType>, left: seq<string>, right: seq<string>, context: nat,
                  ghost a: nat, first: nat, l0: nat, r0: nat)
    returns (e: nat, l: nat, r: nat, ghost span: Span)
    requires Aligns(edits, left, right)
    requires a <= first <= |edits| && (first < |edits| ==> edits[first] != Match)
    requires Holds(hunk, edits, left, right, a, first) && !hunk.HasEdits()
    requires l0 == LeftAt(edits, first) && r0 == RightAt(edits, first)
    modifies hunk
    ensures first <= e <= |edits| && l == LeftAt(edits, e) && r == RightAt(edits, e)
    ensures Holds(hunk, edits, left, right, a, e)
    ensures hunk.HasEdits() <==> first < |edits| && context >= 1
    ensures hunk.HasEdits() ==>
      && span.first == first && Cluster(edits, context, span)
      && e == ShownTo(span, context, edits)
      && Quiet(edits, span.last + 1, Min(span.last + 1 + 2 * context, |edits|))
  {
    hide LeftAt, RightAt, Matches, Aligns, ShownLeft, ShownRight, LeftText, RightText, Tagged;
    hide Cluster, Quiet, Holds, Hunk.HasEdits;
    e, l, r, span := first, l0, r0, Span(first, first);
    var nSuffix := 0;
    while e < |edits|
      invariant first <= e <= |edits| && l == LeftAt(edits, e) && r == RightAt(edits, e)
      invariant Holds(hunk, edits, left, right, a, e)
      invariant hunk.HasEdits() <==> first < e
      invariant span.first == first
      invariant nSuffix == if first == e then 0 else e - (span.last + 1)
      invariant first < e ==> context >= 1 && Filling(edits, context, span, e)
      decreases |edits| - e
    {
      var it := e;
      if nSuffix >= context {
        // Past the context: the cluster goes on only if another edit follows in reach.
        it := SkipMatches(edits, e);
        if it == |edits| || it - e >= context {
          if first < e {
            StopFilling(edits, context, span, e, it);
          }
          break;
        }
      }
      PushEdit(hunk, edits, left, right, a, e, l, r);
      ShowOneMore(edits, left, right, a, e);
      nSuffix := if edits[e].Match? then nSuffix + 1 else 0;
      if first == e {
        StartFilling(edits, context, e);
      } else {
        KeepFilling(edits, context, span, e, it);
      }
      span := if edits[e].Match? then span else Span(first, e);
      l, r, e := l + LeftStep(edits[e]), r + RightStep(edits[e]), e + 1;
    }
    if first < e == |edits| {
      NothingQuiet(edits, e);
      StopFilling(edits, context, span, e, e);
    }
  }

  // Nothing but matches up to context of them on, after the last edit.
  ghost predicate FarAhead(script: seq<EditType>, context: nat, spans: seq<Span>, e: nat)
    requires e <= |script|
  {
    if spans == [] then e == 0
    else
      var after := spans[|spans| - 1].last + 1;
      && e == Min(after + context, |script|)
      && Quiet(script, after, Min(after + 2 * context, |script|))
  }

  lemma AtZero(script: seq<EditType>)
    ensures LeftAt(script, 0) == 0 && RightAt(script, 0) == 0
  {
  }

  // Skipping matches reaches the next edit, with enough context before it for a hunk.
  lemma ReachNextEdit(edits: seq<EditType>, left: seq<string>, right: seq<string>, context: nat,
                      spans: seq<Span>, hunks: seq<PrintedHunk>, e0: nat, e: nat)
    requires Aligns(edits, left, right)
    requires context >= 1 && e0 <= e <= |edits| && e0 < |edits|
    requires IsDiff(edits, left, right, context, spans, hunks, e0) && FarAhead(edits, context, spans, e0)
    requires Quiet(edits, e0, e) && (e < |edits| ==> edits[e] != Match)
    ensures IsDiff(edits, left, right, context, spans, hunks, e)
    ensures Min(LeftAt(edits, e), context) == Min(RightAt(edits, e), context) == Min(e, context)
    ensures Quiet(edits, e - Min(e, context), e)
    ensures e < |edits| && spans != [] ==> e - PreviousEnd(spans, |spans|) >= 2 * context
  {
    hide LeftAt, RightAt;
    AtZero(edits);
    QuietStretch(edits, left, right, PreviousEnd(spans, |spans|), e);
    AtMonotone(edits, 0, e);
  }

  lemma QuietPrefix(script: seq<EditType>, a: nat, mid: nat, b: nat)
    requires mid <= b <= |script| && Quiet(script, a, b)
    ensures Quiet(script, a, mid)
  {
  }

  // One more hunk.
  lemma AppendHunk(edits: seq<EditType>, left: seq<string>, right: seq<string>, context: nat,
                   spans: seq<Span>, hunks: seq<PrintedHunk>, span: Span, h: PrintedHunk)
    requires Aligns(edits, left, right)
    requires Cluster(edits, context, span) && ShowsSpan(h, edits, left, right, context, span)
    requires IsDiff(edits, left, right, context, spans, hunks, span.first)
    requires spans != [] ==> span.first - PreviousEnd(spans, |spans|) >= 2 * context
    requires Quiet(edits, span.last + 1, Min(span.last + 1 + 2 * context, |edits|))
    ensures IsDiff(edits, left, right, context, spans + [span], hunks + [h], ShownTo(span, context, edits))
    ensures FarAhead(edits, context, spans + [span], ShownTo(span, context, edits))
  {
    hide ShowsSpan, Cluster, Quiet;
    var spans', hunks' := spans + [span], hunks + [h];
    forall k | 0 <= k < |spans'|
      ensures SpanPlaced(edits, context, spans', k)
      ensures ShowsSpan(hunks'[k], edits, left, right, context, spans'[k])
    {
      if k < |spans| {
        assert SpanPlaced(edits, context, spans, k);
        assert ShowsSpan(hunks[k], edits, left, right, context, spans[k]);
      }
    }
    QuietPrefix(edits, span.last + 1, ShownTo(span, context, edits), Min(span.last + 1 + 2 * context, |edits|));
  }

  lemma RenderNothing()
    ensures RenderAll([]) == ""
  {
  }

  lemma RenderOneMore(hunks: seq<PrintedHunk>, h: PrintedHunk)
    ensures RenderAll(hunks + [h]) == RenderAll(hunks) + Render(h)
  {
    assert (hunks + [h])[..|hunks|] == hunks;
  }

  // Prints a filled hunk; h records what was printed.
  method PrintHunk(hunk: Hunk, edits: seq<EditType>, left: seq<string>, right: seq<string>, ghost a: nat, ghost b: nat)
    returns (out: string, h: PrintedHunk)
    requires Aligns(edits, left, right)
    requires a <= b <= |edits|
    requires Holds(hunk, edits, left, right, a, b) && hunk.HasEdits()
    modifies hunk
    ensures out == Render(h) && Shows(h, edits, left, right, a, b)
  {
    hide LeftAt, RightAt, Matches, Aligns, ShownLeft, ShownRight, LeftText, RightText, Tagged, Render;
    h := hunk.Printed();
    out := hunk.PrintTo();
  }

  lemma NoHunksYet(edits: seq<EditType>, left: seq<string>, right: seq<string>, context: nat)
    requires Aligns(edits, left, right)
    ensures IsDiff(edits, left, right, context, [], [], 0) && FarAhead(edits, context, [], 0)
  {
  }

  method CreateUnifiedDiff(left: seq<string>, right: seq<string>, context: nat)
    returns (text: string, hunks: seq<PrintedHunk>, ghost spans: seq<Span>)
    ensures Aligns(Script(left, right), left, right)
    ensures context >= 1 ==>
      IsDiff(Script(left, right), left, right, context, spans, hunks, |Script(left, right)|)
    ensures context == 0 ==> hunks == []
    ensures text == RenderAll(hunks)
  {
    hide Best, Path, LeftAt, RightAt, Matches, Aligns, ShownLeft, ShownRight, LeftText, RightText, Tagged;
    hide IsDiff, FarAhead, Shows, Holds, RenderAll, Render;
    var edits := CalculateOptimalEditsOfLines(left, right);
    ScriptAligns(left, right);
    AtZero(edits);
    NoHunksYet(edits, left, right, context);
    text, hunks, spans := "", [], [];
    assert text == RenderAll(hunks) by { RenderNothing(); }
    var l, r, e := 0, 0, 0;
    while e < |edits|
      invariant e <= |edits| && l == LeftAt(edits, e) && r == RightAt(edits, e)
      invariant text == RenderAll(hunks)
      invariant context == 0 ==> hunks == [] && e == 0
      invariant context >= 1 ==> IsDiff(edits, left, right, context, spans, hunks, e) && FarAhead(edits, context, spans, e)
      decreases |edits| - e
    {
      ghost var e0 := e;
      while e < |edits| && edits[e] == Match
        invariant e0 <= e <= |edits| && l == LeftAt(edits, e) && r == RightAt(edits, e)
        invariant Quiet(edits, e0, e)
      {
        AtStep(edits, e);
        l, r, e := l + 1, r + 1, e + 1;
      }

      var prefixContext := Min(l, context);
      if context >= 1 {
        ReachNextEdit(edits, left, right, context, spans, hunks, e0, e);
      }
      var hunk := StartHunk(edits, left, right, e, l, r, prefixContext);

      var first := e;
      ghost var span;
      e, l, r, span := FillHunk(hunk, edits, left, right, context, first - prefixContext, first, l, r);
      if !hunk.HasEdits() {
        break;
      }
      var out, h := PrintHunk(hunk, edits, left, right, first - prefixContext, e);
      text := text + out;
      RenderOneMore(hunks, h);
      AppendHunk(edits, left, right, context, spans, hunks, span, h);
      hunks, spans := hunks + [h], spans + [span];
    }
  }
}
