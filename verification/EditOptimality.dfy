// When are the scripts of EditScript cheapest?  The table breaks ties in favour
// of Replace, so it can pay more than necessary.  This module gives an
// independent optimum, a concrete input that misses it, and exact conditions under
// which all prefixes, or one pair of inputs, get a cheapest script.
module EditOptimality {
  import opened EditScript

  // The cheapest cost of turning left[..i] into right[..j], by trying every last move.
  ghost function Optimum<T>(left: seq<T>, right: seq<T>, i: nat, j: nat): nat
    requires i <= |left| && j <= |right|
    decreases i + j
  {
    if i == 0 && j == 0 then 0
    else if j == 0 then Optimum(left, right, i - 1, j) + ADD_COST
    else if i == 0 then Optimum(left, right, i, j - 1) + ADD_COST
    else
      var apart := Min(Min(Optimum(left, right, i, j - 1), Optimum(left, right, i - 1, j)) + ADD_COST,
                       Optimum(left, right, i - 1, j - 1) + REPLACE_COST);
      if left[i - 1] == right[j - 1] then Min(Optimum(left, right, i - 1, j - 1), apart) else apart
  }

  // One unfolding of the optimum: on the border and inside.
  lemma OptimumBorder<T>(left: seq<T>, right: seq<T>, i: nat, j: nat)
    requires i <= |left| && j <= |right|
    ensures i == 0 && j == 0 ==> Optimum(left, right, i, j) == 0
    ensures i > 0 && j == 0 ==> Optimum(left, right, i, j) == Optimum(left, right, i - 1, j) + ADD_COST
    ensures i == 0 && j > 0 ==> Optimum(left, right, i, j) == Optimum(left, right, i, j - 1) + ADD_COST
  {
  }

  lemma OptimumInside<T>(left: seq<T>, right: seq<T>, i: nat, j: nat)
    requires 0 < i <= |left| && 0 < j <= |right|
    ensures
      var replace := Optimum(left, right, i - 1, j - 1);
      var apart := Min(Min(Optimum(left, right, i, j - 1), Optimum(left, right, i - 1, j)) + ADD_COST,
                       replace + REPLACE_COST);
      Optimum(left, right, i, j) == if left[i - 1] == right[j - 1] then Min(replace, apart) else apart
  {
  }

  lemma OptimumCell<T>(left: seq<T>, right: seq<T>, i: nat, j: nat)
    requires i <= |left| && j <= |right|
    ensures i == 0 && j == 0 ==> Optimum(left, right, i, j) == 0
    ensures i > 0 && j == 0 ==> Optimum(left, right, i, j) == Optimum(left, right, i - 1, j) + ADD_COST
    ensures i == 0 && j > 0 ==> Optimum(left, right, i, j) == Optimum(left, right, i, j - 1) + ADD_COST
    ensures i > 0 && j > 0 ==>
      var replace := Optimum(left, right, i - 1, j - 1);
      var apart := Min(Min(Optimum(left, right, i, j - 1), Optimum(left, right, i - 1, j)) + ADD_COST,
                       replace + REPLACE_COST);
      Optimum(left, right, i, j) == if left[i - 1] == right[j - 1] then Min(replace, apart) else apart
  {
    hide Optimum;
    if i > 0 && j > 0 {
      OptimumInside(left, right, i, j);
    } else {
      OptimumBorder(left, right, i, j);
    }
  }

  // No script is cheaper than the optimum.
  lemma {:induction false} OptimumIsLowerBound<T>(script: seq<EditType>, left: seq<T>, right: seq<T>, i: nat, j: nat)
    requires i <= |left| && j <= |right|
    requires Transforms(script, left, right, i, j)
    ensures Optimum(left, right, i, j) <= ScriptCost(script)
    decreases |script|
  {
    if script == [] {
    } else {
      var e := script[|script| - 1];
      OptimumIsLowerBound(script[..|script| - 1], left, right, i - LeftStep(e), j - RightStep(e));
    }
  }

  // The last move of some cheapest script.
  lemma LastMove<T>(left: seq<T>, right: seq<T>, i: nat, j: nat) returns (e: EditType)
    requires i <= |left| && j <= |right| && (i > 0 || j > 0)
    ensures LeftStep(e) <= i && RightStep(e) <= j && (e.Match? ==> left[i - 1] == right[j - 1])
    ensures Optimum(left, right, i, j) == Optimum(left, right, i - LeftStep(e), j - RightStep(e)) + EditCost(e)
  {
    hide Optimum;
    OptimumCell(left, right, i, j);
    e := if j == 0 then Remove
         else if i == 0 then Add
         else if left[i - 1] == right[j - 1] && Optimum(left, right, i, j) == Optimum(left, right, i - 1, j - 1) then
           Match
         else if Optimum(left, right, i, j) == Optimum(left, right, i, j - 1) + ADD_COST then Add
         else if Optimum(left, right, i, j) == Optimum(left, right, i - 1, j) + ADD_COST then Remove
         else Replace;
  }

  lemma NothingToNothing<T>(left: seq<T>, right: seq<T>)
    ensures Transforms([], left, right, 0, 0) && ScriptCost([]) == 0
  {
  }

  // Appending an edit to a script.
  lemma AppendEdit<T>(script: seq<EditType>, longer: seq<EditType>, left: seq<T>, right: seq<T>, i: nat, j: nat)
    requires |longer| == |script| + 1 && longer[..|script|] == script
    requires i + LeftStep(longer[|script|]) <= |left| && j + RightStep(longer[|script|]) <= |right|
    requires Transforms(script, left, right, i, j)
    requires longer[|script|].Match? ==> left[i] == right[j]
    ensures Transforms(longer, left, right, i + LeftStep(longer[|script|]), j + RightStep(longer[|script|]))
    ensures ScriptCost(longer) == ScriptCost(script) + EditCost(longer[|script|])
  {
  }

  // Some script attains the optimum.
  lemma {:induction false} OptimumIsAttained<T>(left: seq<T>, right: seq<T>, i: nat, j: nat)
    returns (script: seq<EditType>)
    requires i <= |left| && j <= |right|
    ensures Transforms(script, left, right, i, j) && ScriptCost(script) == Optimum(left, right, i, j)
    decreases i + j
  {
    hide Optimum, Transforms, ScriptCost;
    if i == 0 && j == 0 {
      script := [];
      OptimumBorder(left, right, 0, 0);
      NothingToNothing(left, right);
    } else {
      var e := LastMove(left, right, i, j);
      var rest := OptimumIsAttained(left, right, i - LeftStep(e), j - RightStep(e));
      script := rest + [e];
      AppendEdit(rest, script, left, right, i - LeftStep(e), j - RightStep(e));
    }
  }

  // One element more on either side changes the optimum by at most one addition.
  lemma {:induction false} OptimumStep<T>(left: seq<T>, right: seq<T>, i: nat, j: nat)
    requires i <= |left| && j <= |right|
    ensures i > 0 ==> Optimum(left, right, i - 1, j) <= Optimum(left, right, i, j) + ADD_COST
    ensures j > 0 ==> Optimum(left, right, i, j - 1) <= Optimum(left, right, i, j) + ADD_COST
    decreases i + j
  {
    hide Optimum;
    OptimumCell(left, right, i, j);
    if i > 0 {
      OptimumCell(left, right, i - 1, j);
      OptimumStep(left, right, i - 1, j);
    }
    if j == 0 {
    } else {
      OptimumCell(left, right, i, j - 1);
      OptimumStep(left, right, i, j - 1);
    }
  }

  // A cell whose elements differ and whose tie-break picks Replace although an
  // addition or a removal is no dearer to reach.
  ghost predicate Misstep<T>(left: seq<T>, right: seq<T>, i: nat, j: nat)
    requires 0 < i <= |left| && 0 < j <= |right|
  {
    var add, remove := Best(left, right, i, j - 1).cost, Best(left, right, i - 1, j).cost;
    var replace := Best(left, right, i - 1, j - 1).cost;
    && left[i - 1] != right[j - 1]
    && Choose(add, remove, replace).move == Replace
    && (add <= replace || remove <= replace)
  }

  ghost predicate NoMisstep<T>(left: seq<T>, right: seq<T>, n: nat, m: nat)
    requires n <= |left| && m <= |right|
  {
    forall i, j :: 0 < i <= n && 0 < j <= m ==> !Misstep(left, right, i, j)
  }

  lemma {:induction false} BestNotBelowOptimum<T>(left: seq<T>, right: seq<T>, i: nat, j: nat)
    requires i <= |left| && j <= |right|
    ensures Optimum(left, right, i, j) <= Best(left, right, i, j).cost
  {
    hide Optimum;
    PathTransforms(left, right, i, j);
    OptimumIsLowerBound(Path(left, right, i, j), left, right, i, j);
  }

  lemma {:induction false} NoMisstepIsOptimal<T>(left: seq<T>, right: seq<T>, i: nat, j: nat)
    requires i <= |left| && j <= |right|
    requires NoMisstep(left, right, i, j)
    ensures Best(left, right, i, j).cost == Optimum(left, right, i, j)
    decreases i + j
  {
    hide Best, Optimum;
    BorderCells(left, right);
    OptimumCell(left, right, i, j);
    if i > 0 {
      NoMisstepIsOptimal(left, right, i - 1, j);
    }
    if j > 0 {
      NoMisstepIsOptimal(left, right, i, j - 1);
    }
    if i == 0 || j == 0 {
    } else {
      NoMisstepIsOptimal(left, right, i - 1, j - 1);
      InnerCell(left, right, i - 1, j - 1);
      assert !Misstep(left, right, i, j);
      OptimumStep(left, right, i, j - 1);
      OptimumStep(left, right, i - 1, j);
    }
  }

  // A tie between the prefixes themselves, whatever the algorithm does: they end in
  // different elements, and adding and removing come out alike, or replacing comes
  // out like the cheaper of them, so that neither is strictly the best, while one
  // of them is no dearer than replacing.
  ghost predicate Tie<T>(left: seq<T>, right: seq<T>, i: nat, j: nat)
    requires 0 < i <= |left| && 0 < j <= |right|
  {
    var add, remove := Optimum(left, right, i, j - 1), Optimum(left, right, i - 1, j);
    var replace := Optimum(left, right, i - 1, j - 1);
    && left[i - 1] != right[j - 1]
    && (add == remove || Min(add, remove) == replace)
    && Min(add, remove) <= replace
  }

  ghost predicate NoTie<T>(left: seq<T>, right: seq<T>, n: nat, m: nat)
    requires n <= |left| && m <= |right|
  {
    forall i, j :: 0 < i <= n && 0 < j <= m ==> !Tie(left, right, i, j)
  }

  // Where the neighbours' costs are optimal, missteps are ties.
  lemma TieIsMisstep<T>(left: seq<T>, right: seq<T>, i: nat, j: nat)
    requires 0 < i <= |left| && 0 < j <= |right|
    requires Best(left, right, i, j - 1).cost == Optimum(left, right, i, j - 1)
    requires Best(left, right, i - 1, j).cost == Optimum(left, right, i - 1, j)
    requires Best(left, right, i - 1, j - 1).cost == Optimum(left, right, i - 1, j - 1)
    ensures Tie(left, right, i, j) <==> Misstep(left, right, i, j)
  {
    hide Best, Optimum;
  }

  // Without ties among the prefixes of left[..i] and right[..j] no cell missteps.
  lemma {:induction false} NoTieNoMisstep<T>(left: seq<T>, right: seq<T>, i: nat, j: nat)
    requires i <= |left| && j <= |right| && NoTie(left, right, i, j)
    ensures NoMisstep(left, right, i, j)
    decreases i + j
  {
    hide Tie, Misstep;
    if i == 0 || j == 0 {
    } else {
      NoTieNoMisstep(left, right, i - 1, j);
      NoTieNoMisstep(left, right, i, j - 1);
      NoMisstepIsOptimal(left, right, i - 1, j);
      NoMisstepIsOptimal(left, right, i, j - 1);
      NoMisstepIsOptimal(left, right, i - 1, j - 1);
      TieIsMisstep(left, right, i, j);
    }
  }

  lemma MisstepIsNotOptimal<T>(left: seq<T>, right: seq<T>, i: nat, j: nat)
    requires 0 < i <= |left| && 0 < j <= |right|
    requires Misstep(left, right, i, j)
    ensures Optimum(left, right, i, j) < Best(left, right, i, j).cost
  {
    hide Best;
    InnerCell(left, right, i - 1, j - 1);
    BestNotBelowOptimum(left, right, i - 1, j);
    BestNotBelowOptimum(left, right, i, j - 1);
  }

  // A tie makes its own cell or one next to it dearer than need be.
  lemma TieIsDear<T>(left: seq<T>, right: seq<T>, i: nat, j: nat) returns (a: nat, b: nat)
    requires 0 < i <= |left| && 0 < j <= |right| && Tie(left, right, i, j)
    ensures a <= i && b <= j && Best(left, right, a, b).cost != Optimum(left, right, a, b)
  {
    hide Best, Optimum, Tie, Misstep;
    if Best(left, right, i, j - 1).cost != Optimum(left, right, i, j - 1) {
      a, b := i, j - 1;
    } else if Best(left, right, i - 1, j).cost != Optimum(left, right, i - 1, j) {
      a, b := i - 1, j;
    } else if Best(left, right, i - 1, j - 1).cost != Optimum(left, right, i - 1, j - 1) {
      a, b := i - 1, j - 1;
    } else {
      a, b := i, j;
      TieIsMisstep(left, right, i, j);
      MisstepIsNotOptimal(left, right, i, j);
    }
  }

  // Every pair of prefixes gets its cheapest script if and only if there is no tie
  // between any of them.
  lemma OptimalIffNoTie<T>(left: seq<T>, right: seq<T>)
    ensures (forall i, j :: 0 <= i <= |left| && 0 <= j <= |right| ==>
               Best(left, right, i, j).cost == Optimum(left, right, i, j))
            <==> NoTie(left, right, |left|, |right|)
  {
    hide Best, Optimum, Tie, Misstep;
    if NoTie(left, right, |left|, |right|) {
      NoTieNoMisstep(left, right, |left|, |right|);
      forall i, j | 0 <= i <= |left| && 0 <= j <= |right|
        ensures Best(left, right, i, j).cost == Optimum(left, right, i, j)
      {
        NoMisstepIsOptimal(left, right, i, j);
      }
    } else {
      var i, j :| 0 < i <= |left| && 0 < j <= |right| && Tie(left, right, i, j);
      var a, b := TieIsDear(left, right, i, j);
    }
  }

  // ---------------------------------------------------------------- one pair of inputs

  // Every move met when walking back from (i, j) is the last move of a cheapest script.
  ghost predicate TightWalk<T>(left: seq<T>, right: seq<T>, i: nat, j: nat)
    requires i <= |left| && j <= |right|
    decreases i + j
  {
    if i == 0 && j == 0 then true
    else
      MoveFits(left, right, i, j);
      var move := Best(left, right, i, j).move;
      var i', j' := i - LeftStep(move), j - RightStep(move);
      Optimum(left, right, i, j) == Optimum(left, right, i', j') + EditCost(move) && TightWalk(left, right, i', j')
  }

  // No move leads to less than the optimum.
  lemma NoMoveBelowOptimum<T>(left: seq<T>, right: seq<T>, i: nat, j: nat, e: EditType)
    requires LeftStep(e) <= i <= |left| && RightStep(e) <= j <= |right|
    requires e.Match? ==> left[i - 1] == right[j - 1]
    ensures Optimum(left, right, i, j) <= Optimum(left, right, i - LeftStep(e), j - RightStep(e)) + EditCost(e)
  {
    hide Optimum;
    OptimumCell(left, right, i, j);
  }

  // One pair of inputs gets its cheapest script if and only if the walk is tight
  // all the way; one move that is not costs the whole script its optimality.
  lemma {:induction false} OptimalIffTightWalk<T>(left: seq<T>, right: seq<T>, i: nat, j: nat)
    requires i <= |left| && j <= |right|
    ensures Best(left, right, i, j).cost == Optimum(left, right, i, j) <==> TightWalk(left, right, i, j)
    decreases i + j
  {
    hide Best, Optimum;
    if i == 0 && j == 0 {
      BorderCells(left, right);
      OptimumBorder(left, right, 0, 0);
    } else {
      MoveFits(left, right, i, j);
      var move := Best(left, right, i, j).move;
      OptimalIffTightWalk(left, right, i - LeftStep(move), j - RightStep(move));
      BestNotBelowOptimum(left, right, i - LeftStep(move), j - RightStep(move));
      NoMoveBelowOptimum(left, right, i, j, move);
    }
  }

  // Whatever is missing on one side must at least be added.
  lemma {:induction false} OneMoreToAdd<T>(left: seq<T>, right: seq<T>, i: nat, j: nat)
    requires i <= |left| && j <= |right|
    ensures (j - i) * ADD_COST <= Optimum(left, right, i, j)
    decreases i + j
  {
    hide Optimum;
    OptimumCell(left, right, i, j);
    if i == 0 && j == 0 {
    } else {
      if i > 0 {
        OneMoreToAdd(left, right, i - 1, j);
      }
      if j > 0 {
        OneMoreToAdd(left, right, i, j - 1);
      }
      if i > 0 && j > 0 {
        OneMoreToAdd(left, right, i - 1, j - 1);
      }
    }
  }

  lemma TiedPrefixes()
    ensures Tie([1, 2], [2, 1, 2], 2, 2)
  {
    hide Optimum;
    var l, r := [1, 2], [2, 1, 2];
    OptimumBorder(l, r, 0, 0);
    OptimumBorder(l, r, 1, 0);
    OptimumBorder(l, r, 0, 1);
    OptimumBorder(l, r, 2, 0);
    OptimumBorder(l, r, 0, 2);
    OptimumInside(l, r, 1, 1);
    OptimumInside(l, r, 2, 1);
    OptimumInside(l, r, 1, 2);
  }

  // A tie between prefixes does no harm if the walk does not meet it: 1 2 against
  // 2 1 2 gets its one addition, although 1 2 against 2 1 is a tie.
  lemma HarmlessTie()
    ensures Tie([1, 2], [2, 1, 2], 2, 2)
    ensures Best([1, 2], [2, 1, 2], 2, 3).cost == Optimum([1, 2], [2, 1, 2], 2, 3) == ADD_COST
  {
    hide Best, Optimum, Tie;
    TiedPrefixes();
    var l, r := [1, 2], [2, 1, 2];
    BorderCells(l, r);
    InnerCell(l, r, 1, 2);
    InnerCell(l, r, 0, 1);
    OptimumBorder(l, r, 0, 1);
    OptimumBorder(l, r, 0, 2);
    OptimumBorder(l, r, 0, 3);
    OptimumBorder(l, r, 0, 0);
    OneMoreToAdd(l, r, 2, 3);
    BestNotBelowOptimum(l, r, 2, 3);
  }

  // 1 2 1 against 2 1 2: three replacements, although one removal and one addition do.
  lemma NotAlwaysOptimal()
    ensures Script([1, 2, 1], [2, 1, 2]) == [Replace, Replace, Replace]
    ensures Transforms([Remove, Match, Match, Add], [1, 2, 1], [2, 1, 2], 3, 3)
    ensures ScriptCost([Remove, Match, Match, Add]) < ScriptCost(Script([1, 2, 1], [2, 1, 2]))
  {
    hide Best, Path, Transforms;
    var l, r := [1, 2, 1], [2, 1, 2];
    BorderCells(l, r);
    InnerCell(l, r, 0, 0);
    InnerCell(l, r, 0, 1);
    InnerCell(l, r, 1, 0);
    InnerCell(l, r, 1, 1);
    InnerCell(l, r, 1, 2);
    InnerCell(l, r, 2, 1);
    InnerCell(l, r, 0, 2);
    InnerCell(l, r, 2, 0);
    InnerCell(l, r, 2, 2);
    PathStep(l, r, 3, 3);
    PathStep(l, r, 2, 2);
    PathStep(l, r, 1, 1);
    PathStep(l, r, 0, 0);
    NothingToNothing(l, r);
    AppendEdit([], [Remove], l, r, 0, 0);
    AppendEdit([Remove], [Remove, Match], l, r, 1, 0);
    AppendEdit([Remove, Match], [Remove, Match, Match], l, r, 2, 1);
    AppendEdit([Remove, Match, Match], [Remove, Match, Match, Add], l, r, 3, 2);
    AppendEdit([], [Replace], l, r, 0, 0);
    AppendEdit([Replace], [Replace, Replace], l, r, 1, 1);
    AppendEdit([Replace, Replace], [Replace, Replace, Replace], l, r, 2, 2);
  }
}
