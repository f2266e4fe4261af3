// What the hunks of a unified diff are good for: patching one file into the
// other, in either direction.
module Patch {
  import opened EditScript
  import opened ScriptGeometry
  import opened DiffHunk
  import opened UnifiedDiff
  import opened Prelude

  // ---------------------------------------------------------------- applying hunks

  // The lines a hunk expects, puts in their place, and where (counting from 0).
  function OldLines(h: PrintedHunk, backwards: bool): seq<string> {
    if backwards then RightText(h.lines) else LeftText(h.lines)
  }

  function NewLines(h: PrintedHunk, backwards: bool): seq<string> {
    if backwards then LeftText(h.lines) else RightText(h.lines)
  }

  function OldStart(h: PrintedHunk, backwards: bool): int {
    (if backwards then h.rightStart else h.leftStart) - 1
  }

  // Applies the hunks to file[pos..] in order; every line a hunk expects must be there.
  function Apply(hunks: seq<PrintedHunk>, file: seq<string>, pos: nat, backwards: bool): Option<seq<string>> {
    if hunks == [] then
      if pos <= |file| then Some(file[pos..]) else None
    else
      var h := hunks[0];
      var start, expected := OldStart(h, backwards), OldLines(h, backwards);
      if pos <= start && start + |expected| <= |file| && file[start..start + |expected|] == expected then
        match Apply(hunks[1..], file, start + |expected|, backwards)
        case None => None
        case Some(rest) => Some(file[pos..start] + NewLines(h, backwards) + rest)
      else
        None
  }

  // Applying one hunk, by its fields: the old lines must stand where it says, and the
  // new ones take their place.
  lemma OneHunk(h: PrintedHunk, file: seq<string>, backwards: bool)
    ensures
      var start := (if backwards then h.rightStart else h.leftStart) - 1;
      var gone := if backwards then RightText(h.lines) else LeftText(h.lines);
      var come := if backwards then LeftText(h.lines) else RightText(h.lines);
      Apply([h], file, 0, backwards) ==
      if 0 <= start && start + |gone| <= |file| && file[start..start + |gone|] == gone then
        Some(file[..start] + come + file[start + |gone|..])
      else None
  {
    hide LeftText, RightText;
    assert [h][1..] == [];
  }

  // Where hunk k starts and where the hunk before it ended, in the script.
  ghost function ShownBefore(script: seq<EditType>, context: nat, spans: seq<Span>, k: nat): nat
    requires k <= |spans|
  {
    if k == 0 then 0 else ShownTo(spans[k - 1], context, script)
  }

  // The edits between two hunks, and after the last one, are all matches.
  lemma QuietBetween(script: seq<EditType>, context: nat, spans: seq<Span>, k: nat)
    requires k <= |spans| && Clusters(script, context, spans, |script|)
    ensures ShownBefore(script, context, spans, k) <= |script|
    ensures k < |spans| ==>
      && ShownBefore(script, context, spans, k) <= ShownFrom(spans[k], context) <= |script|
      && Quiet(script, ShownBefore(script, context, spans, k), ShownFrom(spans[k], context))
    ensures k == |spans| ==> Quiet(script, ShownBefore(script, context, spans, k), |script|)
  {
    if k < |spans| {
      assert SpanPlaced(script, context, spans, k);
    }
    if k > 0 {
      assert SpanPlaced(script, context, spans, k - 1);
    }
  }

  lemma ApplyNothing(file: seq<string>, pos: nat)
    requires pos <= |file|
    ensures forall backwards :: Apply([], file, pos, backwards) == Some(file[pos..])
  {
  }

  // The first hunk rewrites file[start..end] to target[start'..end'] and the rest do the rest.
  lemma ApplyOne(hunks: seq<PrintedHunk>, file: seq<string>, target: seq<string>,
                 pos: nat, start: nat, end: nat, pos': nat, start': nat, end': nat, backwards: bool)
    requires hunks != [] && OldStart(hunks[0], backwards) == start
    requires pos <= start <= end <= |file| && pos' <= start' <= end' <= |target|
    requires OldLines(hunks[0], backwards) == file[start..end]
    requires NewLines(hunks[0], backwards) == target[start'..end']
    requires file[pos..start] == target[pos'..start']
    requires Apply(hunks[1..], file, end, backwards) == Some(target[end'..])
    ensures Apply(hunks, file, pos, backwards) == Some(target[pos'..])
  {
    hide LeftText, RightText;
    assert target[pos'..start'] + target[start'..end'] + target[end'..] == target[pos'..];
  }

  // After the last edit both files go on alike.
  lemma QuietToTheEnd(script: seq<EditType>, left: seq<string>, right: seq<string>, e: nat)
    requires Aligns(script, left, right) && e <= |script| && Quiet(script, e, |script|)
    ensures LeftAt(script, e) <= |left| && RightAt(script, e) <= |right|
    ensures left[LeftAt(script, e)..] == right[RightAt(script, e)..]
  {
    hide LeftAt, RightAt, Quiet;
    QuietStretch(script, left, right, e, |script|);
    var l, r := LeftAt(script, e), RightAt(script, e);
    assert LeftAt(script, |script|) == |left| && RightAt(script, |script|) == |right|;
    assert left[l..|left|] == left[l..] && right[r..|right|] == right[r..];
  }

  lemma {:induction false} ApplyFrom(script: seq<EditType>, left: seq<string>, right: seq<string>, context: nat,
                                     spans: seq<Span>, hunks: seq<PrintedHunk>, k: nat, backwards: bool)
    requires Aligns(script, left, right)
    requires IsDiff(script, left, right, context, spans, hunks, |script|)
    requires k <= |hunks|
    ensures
      var e := ShownBefore(script, context, spans, k);
      && e <= |script| && LeftAt(script, e) <= |left| && RightAt(script, e) <= |right|
      && (if backwards then Apply(hunks[k..], right, RightAt(script, e), true) == Some(left[LeftAt(script, e)..])
          else Apply(hunks[k..], left, LeftAt(script, e), false) == Some(right[RightAt(script, e)..]))
    decreases |hunks| - k
  {
    hide LeftAt, RightAt, Matches, Clusters, Apply, LeftText, RightText, Tagged, Quiet;
    var e := ShownBefore(script, context, spans, k);
    QuietBetween(script, context, spans, k);
    AtMonotone(script, e, |script|);
    if k == |hunks| {
      QuietToTheEnd(script, left, right, e);
      assert hunks[k..] == [];
      ApplyNothing(left, LeftAt(script, e));
      ApplyNothing(right, RightAt(script, e));
    } else {
      var h, a, b := hunks[k], ShownFrom(spans[k], context), ShownTo(spans[k], context, script);
      ApplyFrom(script, left, right, context, spans, hunks, k + 1, backwards);
      assert ShowsSpan(h, script, left, right, context, spans[k]);
      QuietStretch(script, left, right, e, a);
      AtMonotone(script, a, b);
      AtMonotone(script, b, |script|);
      assert hunks[k..][1..] == hunks[k + 1..];
      if backwards {
        ApplyOne(hunks[k..], right, left, RightAt(script, e), RightAt(script, a), RightAt(script, b),
                 LeftAt(script, e), LeftAt(script, a), LeftAt(script, b), true);
      } else {
        ApplyOne(hunks[k..], left, right, LeftAt(script, e), LeftAt(script, a), LeftAt(script, b),
                 RightAt(script, e), RightAt(script, a), RightAt(script, b), false);
      }
    }
  }

  // Applied to the left file the hunks give exactly the right one, and back.
  lemma ApplyGivesRight(left: seq<string>, right: seq<string>, context: nat, spans: seq<Span>, hunks: seq<PrintedHunk>)
    requires Aligns(Script(left, right), left, right)
    requires IsDiff(Script(left, right), left, right, context, spans, hunks, |Script(left, right)|)
    ensures Apply(hunks, left, 0, false) == Some(right)
    ensures Apply(hunks, right, 0, true) == Some(left)
  {
    hide Best, Path, IsDiff, Apply;
    AtZero(Script(left, right));
    ApplyFrom(Script(left, right), left, right, context, spans, hunks, 0, false);
    ApplyFrom(Script(left, right), left, right, context, spans, hunks, 0, true);
    assert hunks[0..] == hunks && left[0..] == left && right[0..] == right;
  }

  // ---------------------------------------------------------------- where hunks lie

  // The ends (counting from 0) of hunk number k - 1 on each side.
  function LeftEnd(hunks: seq<PrintedHunk>, k: nat): int
    requires k <= |hunks|
  {
    if k == 0 then 0 else hunks[k - 1].leftStart - 1 + hunks[k - 1].removes + hunks[k - 1].common
  }

  function RightEnd(hunks: seq<PrintedHunk>, k: nat): int
    requires k <= |hunks|
  {
    if k == 0 then 0 else hunks[k - 1].rightStart - 1 + hunks[k - 1].adds + hunks[k - 1].common
  }

  // The hunks before number k end where the script says.
  lemma HunkEnds(script: seq<EditType>, left: seq<string>, right: seq<string>, context: nat,
                 spans: seq<Span>, hunks: seq<PrintedHunk>, k: nat)
    requires Aligns(script, left, right)
    requires IsDiff(script, left, right, context, spans, hunks, |script|)
    requires k <= |hunks|
    ensures ShownBefore(script, context, spans, k) <= |script|
    ensures LeftEnd(hunks, k) == LeftAt(script, ShownBefore(script, context, spans, k)) <= |left|
    ensures RightEnd(hunks, k) == RightAt(script, ShownBefore(script, context, spans, k)) <= |right|
  {
    hide LeftAt, RightAt, Matches, Clusters, LeftText, RightText, Tagged;
    AtZero(script);
    QuietBetween(script, context, spans, k);
    var e := ShownBefore(script, context, spans, k);
    AtMonotone(script, e, |script|);
    if k > 0 {
      assert ShowsSpan(hunks[k - 1], script, left, right, context, spans[k - 1]);
      AtMonotone(script, ShownFrom(spans[k - 1], context), e);
    }
  }

  // Hunk k starts after hunk k - 1 ended, on both sides, and the lines skipped are the same.
  lemma HunksAreDisjoint(script: seq<EditType>, left: seq<string>, right: seq<string>, context: nat,
                         spans: seq<Span>, hunks: seq<PrintedHunk>, k: nat)
    requires Aligns(script, left, right)
    requires IsDiff(script, left, right, context, spans, hunks, |script|)
    requires k < |hunks|
    ensures 0 <= LeftEnd(hunks, k) <= hunks[k].leftStart - 1 <= LeftEnd(hunks, k + 1) <= |left|
    ensures 0 <= RightEnd(hunks, k) <= hunks[k].rightStart - 1 <= RightEnd(hunks, k + 1) <= |right|
    ensures left[LeftEnd(hunks, k)..hunks[k].leftStart - 1] == right[RightEnd(hunks, k)..hunks[k].rightStart - 1]
    ensures LeftText(hunks[k].lines) == left[hunks[k].leftStart - 1..LeftEnd(hunks, k + 1)]
    ensures RightText(hunks[k].lines) == right[hunks[k].rightStart - 1..RightEnd(hunks, k + 1)]
  {
    hide LeftAt, RightAt, Matches, Clusters, LeftText, RightText, Tagged, Quiet;
    var e, a := ShownBefore(script, context, spans, k), ShownFrom(spans[k], context);
    HunkEnds(script, left, right, context, spans, hunks, k);
    HunkEnds(script, left, right, context, spans, hunks, k + 1);
    QuietBetween(script, context, spans, k);
    QuietStretch(script, left, right, e, a);
    assert ShowsSpan(hunks[k], script, left, right, context, spans[k]);
    AtMonotone(script, a, ShownTo(spans[k], context, script));
  }

  // There is nothing to print exactly for equal files.
  lemma NoHunksIffEqual(left: seq<string>, right: seq<string>, context: nat, spans: seq<Span>, hunks: seq<PrintedHunk>)
    requires Aligns(Script(left, right), left, right)
    requires IsDiff(Script(left, right), left, right, context, spans, hunks, |Script(left, right)|)
    ensures hunks == [] <==> left == right
  {
    hide Best, Path, LeftAt, RightAt, ShowsSpan;
    QuietIffEqual(left, right);
    var script := Script(left, right);
    if hunks != [] {
      assert SpanPlaced(script, context, spans, 0);
      assert script[spans[0].first] != Match;
    }
  }

  // ---------------------------------------------------------------- which edits share a hunk

  // Every edit belongs to some span.
  lemma {:induction false} FindSpan(script: seq<EditType>, context: nat, spans: seq<Span>, p: nat, n: nat)
    returns (k: nat)
    requires n <= |spans|
    requires forall i :: 0 <= i < |spans| ==> SpanPlaced(script, context, spans, i)
    requires p < PreviousEnd(spans, n) <= |script| && script[p] != Match
    ensures k < n && spans[k].first <= p <= spans[k].last
  {
    assert SpanPlaced(script, context, spans, n - 1);
    if p >= spans[n - 1].first {
      k := n - 1;
    } else {
      if n > 1 {
        assert SpanPlaced(script, context, spans, n - 2);
      }
      k := FindSpan(script, context, spans, p, n - 1);
    }
  }

  lemma {:induction false} SpansIncrease(script: seq<EditType>, context: nat, spans: seq<Span>, i: nat, j: nat)
    requires i < j < |spans|
    requires forall k :: 0 <= k < |spans| ==> SpanPlaced(script, context, spans, k)
    ensures spans[i].last + 1 + 2 * context <= spans[j].first
    decreases j
  {
    assert SpanPlaced(script, context, spans, j);
    if i == j - 1 {
    } else {
      SpansIncrease(script, context, spans, i, j - 1);
      assert SpanPlaced(script, context, spans, j - 1);
    }
  }

  // Two consecutive edits are shown by the same hunk if and only if fewer than
  // 2 * context matches separate them.
  lemma ShareHunkIffClose(script: seq<EditType>, context: nat, spans: seq<Span>, p: nat, q: nat)
    requires Clusters(script, context, spans, |script|)
    requires p < q < |script| && script[p] != Match && script[q] != Match && Quiet(script, p + 1, q)
    ensures (exists k :: 0 <= k < |spans| && spans[k].first <= p && q <= spans[k].last)
            <==> q - (p + 1) < 2 * context
  {
    if spans != [] {
      assert SpanPlaced(script, context, spans, |spans| - 1);
    }
    var k := FindSpan(script, context, spans, p, |spans|);
    var k' := FindSpan(script, context, spans, q, |spans|);
    assert SpanPlaced(script, context, spans, k) && SpanPlaced(script, context, spans, k');
    if k < k' {
      SpansIncrease(script, context, spans, k, k');
      forall i | 0 <= i < |spans|
        ensures spans[i].first > p || q > spans[i].last
      {
        if i < k' {
          SpansIncrease(script, context, spans, i, k');
        } else {
          SpansIncrease(script, context, spans, k, i);
        }
      }
    } else if k' < k {
      SpansIncrease(script, context, spans, k', k);
    }
  }

  // Around the edits of a hunk only matches are shown.
  lemma QuietContext(script: seq<EditType>, context: nat, spans: seq<Span>, k: nat)
    requires Clusters(script, context, spans, |script|) && k < |spans|
    ensures
      var first, after := spans[k].first, spans[k].last + 1;
      && first < after <= |script| && script[first] != Match && script[after - 1] != Match
      && Quiet(script, if first < context then 0 else first - context, first)
      && Quiet(script, after, if |script| - after < context then |script| else after + context)
  {
    assert SpanPlaced(script, context, spans, k);
    if k + 1 < |spans| {
      assert SpanPlaced(script, context, spans, k + 1);
    }
  }

  // A hunk begins and ends with the context asked for, or with all there is: on both
  // sides it starts that many lines before its first edit and ends that many lines
  // after its last one.
  lemma ContextIsExact(script: seq<EditType>, left: seq<string>, right: seq<string>, context: nat,
                       spans: seq<Span>, hunks: seq<PrintedHunk>, k: nat)
    requires Aligns(script, left, right)
    requires IsDiff(script, left, right, context, spans, hunks, |script|) && k < |hunks|
    ensures
      var first, after := spans[k].first, spans[k].last + 1;
      var above := if first < context then first else context;
      var below := if |script| - after < context then |script| - after else context;
      && first < after <= |script| && script[first] != Match && script[after - 1] != Match
      && hunks[k].leftStart - 1 == LeftAt(script, first) - above
      && hunks[k].rightStart - 1 == RightAt(script, first) - above
      && hunks[k].leftStart - 1 + hunks[k].removes + hunks[k].common == LeftAt(script, after) + below
      && hunks[k].rightStart - 1 + hunks[k].adds + hunks[k].common == RightAt(script, after) + below
  {
    hide LeftAt, RightAt, Matches, Clusters, LeftText, RightText, Tagged, Quiet, ShownLeft, ShownRight;
    QuietContext(script, context, spans, k);
    assert ShowsSpan(hunks[k], script, left, right, context, spans[k]);
    var from, to := ShownFrom(spans[k], context), ShownTo(spans[k], context, script);
    QuietStretch(script, left, right, from, spans[k].first);
    QuietStretch(script, left, right, spans[k].last + 1, to);
    HunkEnds(script, left, right, context, spans, hunks, k + 1);
  }
}
