// Where an edit script stands in its two inputs after each edit.
module ScriptGeometry {
  import opened EditScript

  // The numbers of left and right elements consumed by the first k edits.
  function LeftAt(script: seq<EditType>, k: nat): nat
    requires k <= |script|
  {
    if k == 0 then 0 else LeftAt(script, k - 1) + LeftStep(script[k - 1])
  }

  function RightAt(script: seq<EditType>, k: nat): nat
    requires k <= |script|
  {
    if k == 0 then 0 else RightAt(script, k - 1) + RightStep(script[k - 1])
  }

  // The number of Match edits in script[lo..hi].
  function Matches(script: seq<EditType>, lo: nat, hi: nat): nat
    requires lo <= hi <= |script|
    decreases hi
  {
    if lo == hi then 0
    else Matches(script, lo, hi - 1) + (if script[hi - 1].Match? then 1 else 0)
  }

  // Only Match edits in script[lo..hi].
  ghost predicate Quiet(script: seq<EditType>, lo: nat, hi: nat)
    requires hi <= |script|
  {
    forall k :: lo <= k < hi ==> script[k] == Match
  }

  // Edit k stays within left[..i] and right[..j] and matches equal elements only.
  ghost predicate EditFits<T>(script: seq<EditType>, left: seq<T>, right: seq<T>, i: nat, j: nat, k: nat)
    requires i <= |left| && j <= |right| && k < |script|
  {
    && LeftAt(script, k) + LeftStep(script[k]) <= i
    && RightAt(script, k) + RightStep(script[k]) <= j
    && (script[k].Match? ==> left[LeftAt(script, k)] == right[RightAt(script, k)])
  }

  // The script walks left[..i] and right[..j] from end to end.
  ghost predicate AlignsUpTo<T>(script: seq<EditType>, left: seq<T>, right: seq<T>, i: nat, j: nat)
    requires i <= |left| && j <= |right|
  {
    && LeftAt(script, |script|) == i && RightAt(script, |script|) == j
    && forall k :: 0 <= k < |script| ==> EditFits(script, left, right, i, j, k)
  }

  ghost predicate Aligns<T>(script: seq<EditType>, left: seq<T>, right: seq<T>) {
    AlignsUpTo(script, left, right, |left|, |right|)
  }

  // Position 0 and one step.
  lemma AtStep(script: seq<EditType>, k: nat)
    requires k < |script|
    ensures LeftAt(script, 0) == 0 && RightAt(script, 0) == 0
    ensures LeftAt(script, k + 1) == LeftAt(script, k) + LeftStep(script[k])
    ensures RightAt(script, k + 1) == RightAt(script, k) + RightStep(script[k])
  {
  }

  lemma {:induction false} AtPrefix(script: seq<EditType>, n: nat, k: nat)
    requires k <= n <= |script|
    ensures LeftAt(script[..n], k) == LeftAt(script, k) && RightAt(script[..n], k) == RightAt(script, k)
  {
    if k == 0 {
    } else {
      AtPrefix(script, n, k - 1);
    }
  }

  lemma {:induction false} AtMonotone(script: seq<EditType>, lo: nat, hi: nat)
    requires lo <= hi <= |script|
    ensures LeftAt(script, lo) <= LeftAt(script, hi) <= LeftAt(script, lo) + (hi - lo)
    ensures RightAt(script, lo) <= RightAt(script, hi) <= RightAt(script, lo) + (hi - lo)
    decreases hi
  {
    if lo == hi {
    } else {
      AtMonotone(script, lo, hi - 1);
    }
  }

  lemma {:induction false} TransformsAligns<T>(script: seq<EditType>, left: seq<T>, right: seq<T>, i: nat, j: nat)
    requires i <= |left| && j <= |right|
    requires Transforms(script, left, right, i, j)
    ensures AlignsUpTo(script, left, right, i, j)
    decreases |script|
  {
    if script == [] {
    } else {
      var n := |script| - 1;
      var e, rest := script[n], script[..n];
      TransformsAligns(rest, left, right, i - LeftStep(e), j - RightStep(e));
      hide LeftAt, RightAt;
      AtStep(script, n);
      AtPrefix(script, n, n);
      forall k | 0 <= k < |script|
        ensures EditFits(script, left, right, i, j, k)
      {
        if k < n {
          AtPrefix(script, n, k);
          assert EditFits(rest, left, right, i - LeftStep(e), j - RightStep(e), k);
        }
      }
    }
  }

  lemma ScriptAligns<T>(left: seq<T>, right: seq<T>)
    ensures Aligns(Script(left, right), left, right)
  {
    hide Best, Path;
    PathTransforms(left, right, |left|, |right|);
    TransformsAligns(Script(left, right), left, right, |left|, |right|);
  }

  // Over a quiet stretch both inputs advance together over equal elements.
  lemma {:induction false} QuietStretch<T>(script: seq<EditType>, left: seq<T>, right: seq<T>, lo: nat, hi: nat)
    requires Aligns(script, left, right)
    requires lo <= hi <= |script| && Quiet(script, lo, hi)
    ensures LeftAt(script, hi) == LeftAt(script, lo) + (hi - lo) <= |left|
    ensures RightAt(script, hi) == RightAt(script, lo) + (hi - lo) <= |right|
    ensures left[LeftAt(script, lo)..LeftAt(script, hi)] == right[RightAt(script, lo)..RightAt(script, hi)]
    decreases hi
  {
    hide LeftAt, RightAt;
    AtMonotone(script, hi, |script|);
    AtMonotone(script, lo, hi);
    if lo == hi {
    } else {
      AtStep(script, hi - 1);
      QuietStretch(script, left, right, lo, hi - 1);
      var l, r := LeftAt(script, lo), RightAt(script, lo);
      var l', r' := LeftAt(script, hi - 1), RightAt(script, hi - 1);
      assert script[hi - 1] == Match;
      assert EditFits(script, left, right, |left|, |right|, hi - 1);
      assert left[l..l' + 1] == left[l..l'] + [left[l']];
      assert right[r..r' + 1] == right[r..r'] + [right[r']];
    }
  }

  // Equal inputs need no edits, and a script without edits joins equal inputs.
  lemma QuietIffEqual<T>(left: seq<T>, right: seq<T>)
    ensures Quiet(Script(left, right), 0, |Script(left, right)|) <==> left == right
  {
    hide Best, Path;
    var script := Script(left, right);
    ScriptAligns(left, right);
    if left == right {
      EqualInputsOnlyMatch(left, |left|);
    }
    if Quiet(script, 0, |script|) {
      QuietStretch(script, left, right, 0, |script|);
      assert left[0..|left|] == left && right[0..|right|] == right;
    }
  }
}
