// Edit scripts between two sequences, and the Wagner-Fischer table that
// produces one.  Costs are integers: an addition or removal costs 100000 and a
// replacement 100001, which are the 1 and 1.00001 of the C++ code times 100000.
module EditScript {

  datatype EditType = Match | Add | Remove | Replace

  const ADD_COST: nat := 100000
  const REPLACE_COST: nat := 100001

  // ---------------------------------------------------------------- scripts

  // How many elements of the left (right) input an edit consumes.
  function LeftStep(e: EditType): nat { if e.Add? then 0 else 1 }
  function RightStep(e: EditType): nat { if e.Remove? then 0 else 1 }

  function EditCost(e: EditType): nat {
    match e
    case Match => 0
    case Add => ADD_COST
    case Remove => ADD_COST
    case Replace => REPLACE_COST
  }

  function ScriptCost(script: seq<EditType>): nat {
    if script == [] then 0
    else ScriptCost(script[..|script| - 1]) + EditCost(script[|script| - 1])
  }

  // How often an edit occurs.
  function Times(script: seq<EditType>, e: EditType): nat {
    multiset(script)[e]
  }

  function Edits(script: seq<EditType>): nat {
    Times(script, Add) + Times(script, Remove) + Times(script, Replace)
  }

  lemma {:induction false} CostCountsEdits(script: seq<EditType>)
    ensures ScriptCost(script) == 100000 * Edits(script) + Times(script, Replace)
    ensures Times(script, Replace) <= Edits(script) <= |script|
  {
    if script == [] {
    } else {
      var init, last := script[..|script| - 1], script[|script| - 1];
      CostCountsEdits(init);
      assert script == init + [last];
    }
  }

  // Replacing is only a little dearer than adding or removing: the cheaper of two
  // scripts is the one with fewer edits and, of as many, the one with fewer
  // replacements.
  lemma CheaperMeansFewer(a: seq<EditType>, b: seq<EditType>)
    requires Edits(a) < 100000 && Edits(b) < 100000
    ensures ScriptCost(a) < ScriptCost(b) <==>
      Edits(a) < Edits(b) || (Edits(a) == Edits(b) && Times(a, Replace) < Times(b, Replace))
  {
    CostCountsEdits(a);
    CostCountsEdits(b);
  }

  lemma {:induction false} OneKindOfEdit(n: nat, e: EditType)
    ensures multiset(seq(n, _ => e)) == multiset{e}[e := n]
  {
    if n == 0 {
    } else {
      OneKindOfEdit(n - 1, e);
      assert seq(n, _ => e) == seq(n - 1, _ => e) + [e];
    }
  }

  // That many edits are needed for it to be otherwise: 100000 replacements cost as
  // much as 100001 additions.
  lemma FewerNoLongerCheaper()
    ensures ScriptCost(seq(100000, _ => Replace)) == ScriptCost(seq(100001, _ => Add))
  {
    OneKindOfEdit(100000, Replace);
    OneKindOfEdit(100001, Add);
    CostCountsEdits(seq(100000, _ => Replace));
    CostCountsEdits(seq(100001, _ => Add));
  }

  // The script consumes exactly left[..i], produces exactly right[..j], and
  // says Match only where the two elements are equal.
  ghost predicate Transforms<T>(script: seq<EditType>, left: seq<T>, right: seq<T>, i: nat, j: nat)
    requires i <= |left| && j <= |right|
    decreases |script|
  {
    if script == [] then i == 0 && j == 0
    else
      var e, rest := script[|script| - 1], script[..|script| - 1];
      && LeftStep(e) <= i && RightStep(e) <= j
      && (e.Match? ==> left[i - 1] == right[j - 1])
      && Transforms(rest, left, right, i - LeftStep(e), j - RightStep(e))
  }

  // ---------------------------------------------------------------- the table

  // One cell of the table: the cost of reaching it and the last move made.
  datatype Cell = Cell(cost: nat, move: EditType)

  // The choice made for two different elements; ties go to Replace.
  function Choose(add: nat, remove: nat, replace: nat): Cell {
    if add < remove && add < replace then Cell(add + ADD_COST, Add)
    else if remove < add && remove < replace then Cell(remove + ADD_COST, Remove)
    else Cell(replace + REPLACE_COST, Replace)
  }

  function Best<T(==)>(left: seq<T>, right: seq<T>, i: nat, j: nat): Cell
    requires i <= |left| && j <= |right|
    decreases i + j
  {
    if j == 0 then Cell(i * ADD_COST, Remove)
    else if i == 0 then Cell(j * ADD_COST, Add)
    else if left[i - 1] == right[j - 1] then
      Cell(Best(left, right, i - 1, j - 1).cost, Match)
    else
      Choose(Best(left, right, i, j - 1).cost,
             Best(left, right, i - 1, j).cost,
             Best(left, right, i - 1, j - 1).cost)
  }

  // A move never leaves the table and accounts for the cost of its cell.
  lemma MoveFits<T>(left: seq<T>, right: seq<T>, i: nat, j: nat)
    requires i <= |left| && j <= |right| && (i > 0 || j > 0)
    ensures
      var cell := Best(left, right, i, j);
      && LeftStep(cell.move) <= i && RightStep(cell.move) <= j
      && (cell.move.Match? ==> left[i - 1] == right[j - 1])
      && cell.cost == Best(left, right, i - LeftStep(cell.move), j - RightStep(cell.move)).cost + EditCost(cell.move)
  {
  }

  // The moves met when walking back from (i, j) to (0, 0), in forward order.
  function Path<T(==)>(left: seq<T>, right: seq<T>, i: nat, j: nat): seq<EditType>
    requires i <= |left| && j <= |right|
    decreases i + j
  {
    if i == 0 && j == 0 then []
    else
      var move := Best(left, right, i, j).move;
      Path(left, right, i - LeftStep(move), j - RightStep(move)) + [move]
  }

  // One step of the walk back.
  lemma PathStep<T>(left: seq<T>, right: seq<T>, i: nat, j: nat)
    requires i <= |left| && j <= |right|
    ensures i == 0 && j == 0 ==> Path(left, right, i, j) == []
    ensures i > 0 || j > 0 ==>
      var move := Best(left, right, i, j).move;
      && LeftStep(move) <= i && RightStep(move) <= j
      && Path(left, right, i, j) == Path(left, right, i - LeftStep(move), j - RightStep(move)) + [move]
  {
  }

  function Script<T(==)>(left: seq<T>, right: seq<T>): seq<EditType> {
    Path(left, right, |left|, |right|)
  }

  function Reverse<T>(s: seq<T>): seq<T> {
    if s == [] then [] else Reverse(s[1..]) + [s[0]]
  }

  lemma {:induction false} ReverseAppend<T>(s: seq<T>, x: T)
    ensures Reverse(s + [x]) == [x] + Reverse(s)
  {
    if s == [] {
    } else {
      assert (s + [x])[1..] == s[1..] + [x];
      ReverseAppend(s[1..], x);
    }
  }

  // How a cell with two neighbours above and to the left is filled.
  lemma InnerCell<T>(left: seq<T>, right: seq<T>, i: nat, j: nat)
    requires i < |left| && j < |right|
    ensures Best(left, right, i + 1, j + 1) ==
            if left[i] == right[j] then Cell(Best(left, right, i, j).cost, Match)
            else Choose(Best(left, right, i + 1, j).cost, Best(left, right, i, j + 1).cost, Best(left, right, i, j).cost)
  {
  }

  lemma BorderCells<T>(left: seq<T>, right: seq<T>)
    ensures forall i :: 0 <= i <= |left| ==> Best(left, right, i, 0) == Cell(i * ADD_COST, Remove)
    ensures forall j :: 1 <= j <= |right| ==> Best(left, right, 0, j) == Cell(j * ADD_COST, Add)
  {
  }

  // Fills one row from the row above; its first cell is already there.
  method FillRow<T(==)>(costs: array2<nat>, bestMove: array2<EditType>, left: seq<T>, right: seq<T>, row: nat)
    requires costs.Length0 == bestMove.Length0 == |left| + 1
    requires costs.Length1 == bestMove.Length1 == |right| + 1
    requires 0 < row <= |left|
    requires forall a, b :: 0 <= a < row && 0 <= b <= |right| ==>
      Cell(costs[a, b], bestMove[a, b]) == Best(left, right, a, b)
    requires Cell(costs[row, 0], bestMove[row, 0]) == Best(left, right, row, 0)
    modifies costs, bestMove
    ensures forall b :: 0 <= b <= |right| ==> Cell(costs[row, b], bestMove[row, b]) == Best(left, right, row, b)
    ensures forall a, b :: 0 <= a <= |left| && 0 <= b <= |right| && a != row ==>
      costs[a, b] == old(costs[a, b]) && bestMove[a, b] == old(bestMove[a, b])
  {
    hide Best;
    for j := 0 to |right|
      invariant forall a, b :: 0 <= a <= |left| && 0 <= b <= |right| && a != row ==>
        costs[a, b] == old(costs[a, b]) && bestMove[a, b] == old(bestMove[a, b])
      invariant forall b :: 0 <= b <= j ==> Cell(costs[row, b], bestMove[row, b]) == Best(left, right, row, b)
    {
      InnerCell(left, right, row - 1, j);
      var add, remove, replace := costs[row, j], costs[row - 1, j + 1], costs[row - 1, j];
      if left[row - 1] == right[j] {
        costs[row, j + 1], bestMove[row, j + 1] := replace, Match;
      } else if add < remove && add < replace {
        costs[row, j + 1], bestMove[row, j + 1] := add + ADD_COST, Add;
      } else if remove < add && remove < replace {
        costs[row, j + 1], bestMove[row, j + 1] := remove + ADD_COST, Remove;
      } else {
        costs[row, j + 1], bestMove[row, j + 1] := replace + REPLACE_COST, Replace;
      }
    }
  }

  // Fills the whole table: the borders first, then row by row.
  method FillTable<T(==)>(left: seq<T>, right: seq<T>) returns (costs: array2<nat>, bestMove: array2<EditType>)
    ensures costs.Length0 == bestMove.Length0 == |left| + 1
    ensures costs.Length1 == bestMove.Length1 == |right| + 1
    ensures forall a, b :: 0 <= a <= |left| && 0 <= b <= |right| ==>
      Cell(costs[a, b], bestMove[a, b]) == Best(left, right, a, b)
  {
    hide Best;
    BorderCells(left, right);
    costs := new nat[|left| + 1, |right| + 1]((_, _) => 0);
    bestMove := new EditType[|left| + 1, |right| + 1]((_, _) => Match);

    for i := 0 to |left| + 1
      invariant forall a :: 0 <= a < i ==> Cell(costs[a, 0], bestMove[a, 0]) == Best(left, right, a, 0)
    {
      costs[i, 0], bestMove[i, 0] := i * ADD_COST, Remove;
    }
    for j := 1 to |right| + 1
      invariant forall a :: 0 <= a <= |left| ==> Cell(costs[a, 0], bestMove[a, 0]) == Best(left, right, a, 0)
      invariant forall b :: 0 <= b < j ==> Cell(costs[0, b], bestMove[0, b]) == Best(left, right, 0, b)
    {
      costs[0, j], bestMove[0, j] := j * ADD_COST, Add;
    }
    for row := 1 to |left| + 1
      invariant forall a, b :: 0 <= a < row && 0 <= b <= |right| ==>
        Cell(costs[a, b], bestMove[a, b]) == Best(left, right, a, b)
      invariant forall a :: 0 <= a <= |left| ==> Cell(costs[a, 0], bestMove[a, 0]) == Best(left, right, a, 0)
    {
      FillRow(costs, bestMove, left, right, row);
    }
  }

  // Fills both tables, then walks back from the far corner.
  method CalculateOptimalEdits<T(==)>(left: seq<T>, right: seq<T>) returns (path: seq<EditType>)
    ensures path == Script(left, right)
  {
    hide Best;
    var costs, bestMove := FillTable(left, right);
    path := [];
    var i, j := |left|, |right|;
    while i > 0 || j > 0
      invariant 0 <= i <= |left| && 0 <= j <= |right|
      invariant Path(left, right, i, j) + Reverse(path) == Script(left, right)
      decreases i + j
      modifies {}
    {
      var move := bestMove[i, j];
      assert Cell(costs[i, j], move) == Best(left, right, i, j);
      MoveFits(left, right, i, j);
      ReverseAppend(path, move);
      path := path + [move];
      i, j := i - LeftStep(move), j - RightStep(move);
    }
    path := Reverse(path);
  }

  // ---------------------------------------------------------------- what the script means

  // The script turns left into right, and its moves add up to the table's cost.
  lemma {:induction false} PathTransforms<T>(left: seq<T>, right: seq<T>, i: nat, j: nat)
    requires i <= |left| && j <= |right|
    ensures Transforms(Path(left, right, i, j), left, right, i, j)
    ensures ScriptCost(Path(left, right, i, j)) == Best(left, right, i, j).cost
    decreases i + j
  {
    hide Best, Path;
    PathStep(left, right, i, j);
    if i == 0 && j == 0 {
      BorderCells(left, right);
    } else {
      var move := Best(left, right, i, j).move;
      MoveFits(left, right, i, j);
      var rest := Path(left, right, i - LeftStep(move), j - RightStep(move));
      PathTransforms(left, right, i - LeftStep(move), j - RightStep(move));
      assert (rest + [move])[..|rest|] == rest;
    }
  }

  function Min(a: nat, b: nat): nat { if a <= b then a else b }
  function Distance(a: nat, b: nat): nat { if a <= b then b - a else a - b }

  // Never dearer than pairing everything up and adding or removing the rest.
  lemma {:induction false} CostUpperBound<T>(left: seq<T>, right: seq<T>, i: nat, j: nat)
    requires i <= |left| && j <= |right|
    ensures Best(left, right, i, j).cost <= Distance(i, j) * ADD_COST + Min(i, j) * REPLACE_COST
    decreases i + j
  {
    hide Best;
    BorderCells(left, right);
    if i == 0 || j == 0 {
    } else {
      InnerCell(left, right, i - 1, j - 1);
      CostUpperBound(left, right, i - 1, j - 1);
    }
  }

  // The cost is zero exactly when there is nothing to edit.
  lemma {:induction false} CostZeroIffEqual<T>(left: seq<T>, right: seq<T>, i: nat, j: nat)
    requires i <= |left| && j <= |right|
    ensures Best(left, right, i, j).cost == 0 <==> left[..i] == right[..j]
    decreases i + j
  {
    hide Best;
    BorderCells(left, right);
    if i == 0 || j == 0 {
    } else {
      InnerCell(left, right, i - 1, j - 1);
      CostZeroIffEqual(left, right, i - 1, j - 1);
      assert left[..i] == left[..i - 1] + [left[i - 1]];
      assert right[..j] == right[..j - 1] + [right[j - 1]];
    }
  }

  lemma {:induction false} EqualInputsOnlyMatch<T>(s: seq<T>, i: nat)
    requires i <= |s|
    ensures forall k :: 0 <= k < |Path(s, s, i, i)| ==> Path(s, s, i, i)[k] == Match
  {
    if i == 0 {
    } else {
      EqualInputsOnlyMatch(s, i - 1);
      assert Best(s, s, i, i).move == Match;
      assert Path(s, s, i, i) == Path(s, s, i - 1, i - 1) + [Match];
    }
  }

  // ---------------------------------------------------------------- interning

  // Two pairs of inputs in which the same positions are equal.
  ghost predicate SameEqualities<T, U>(left: seq<T>, right: seq<T>, left': seq<U>, right': seq<U>) {
    && |left| == |left'| && |right| == |right'|
    && forall a, b :: 0 <= a < |left| && 0 <= b < |right| ==> (left[a] == right[b] <==> left'[a] == right'[b])
  }

  lemma {:induction false} BestDependsOnEqualityOnly<T, U>(left: seq<T>, right: seq<T>, left': seq<U>, right': seq<U>,
                                                           i: nat, j: nat)
    requires SameEqualities(left, right, left', right')
    requires i <= |left| && j <= |right|
    ensures Best(left, right, i, j) == Best(left', right', i, j)
    decreases i + j
  {
    hide Best;
    BorderCells(left, right);
    BorderCells(left', right');
    if i == 0 || j == 0 {
    } else {
      BestDependsOnEqualityOnly(left, right, left', right', i - 1, j);
      BestDependsOnEqualityOnly(left, right, left', right', i, j - 1);
      BestDependsOnEqualityOnly(left, right, left', right', i - 1, j - 1);
      InnerCell(left, right, i - 1, j - 1);
      InnerCell(left', right', i - 1, j - 1);
    }
  }

  // The script depends only on which left elements equal which right elements.
  lemma {:induction false} PathDependsOnEqualityOnly<T, U>(left: seq<T>, right: seq<T>, left': seq<U>, right': seq<U>,
                                                           i: nat, j: nat)
    requires SameEqualities(left, right, left', right')
    requires i <= |left| && j <= |right|
    ensures Path(left, right, i, j) == Path(left', right', i, j)
    decreases i + j
  {
    hide Best;
    if i == 0 && j == 0 {
    } else {
      BestDependsOnEqualityOnly(left, right, left', right', i, j);
      MoveFits(left, right, i, j);
      var move := Best(left, right, i, j).move;
      PathDependsOnEqualityOnly(left, right, left', right', i - LeftStep(move), j - RightStep(move));
    }
  }

  // Hands out one id per distinct string.
  class InternalStrings {
    var ids: map<string, nat>

    // Ids are below the table size and no two strings share one.
    ghost predicate Valid()
      reads this
    {
      && (forall s :: s in ids ==> ids[s] < |ids|)
      && (forall s, t :: s in ids && t in ids && ids[s] == ids[t] ==> s == t)
    }

    constructor ()
      ensures Valid() && ids == map[]
    {
      ids := map[];
    }

    method GetId(str: string) returns (id: nat)
      requires Valid()
      modifies this
      ensures Valid() && str in ids && id == ids[str]
      ensures forall s :: s in old(ids) ==> s in ids && ids[s] == old(ids)[s]
    {
      if str in ids {
        return ids[str];
      }
      id := |ids|;
      ids := ids[str := id];
    }
  }

  method InternAll(table: InternalStrings, lines: seq<string>) returns (result: seq<nat>)
    requires table.Valid()
    modifies table
    ensures table.Valid() && |result| == |lines|
    ensures forall k :: 0 <= k < |lines| ==> lines[k] in table.ids && result[k] == table.ids[lines[k]]
    ensures forall s :: s in old(table.ids) ==> s in table.ids && table.ids[s] == old(table.ids)[s]
  {
    result := [];
    for i := 0 to |lines|
      invariant table.Valid() && |result| == i
      invariant forall k :: 0 <= k < i ==> lines[k] in table.ids && result[k] == table.ids[lines[k]]
      invariant forall s :: s in old(table.ids) ==> s in table.ids && table.ids[s] == old(table.ids)[s]
    {
      var id := table.GetId(lines[i]);
      result := result + [id];
    }
  }

  // Interning first gives the same script as comparing the strings themselves.
  method CalculateOptimalEditsOfLines(left: seq<string>, right: seq<string>) returns (path: seq<EditType>)
    ensures path == Script(left, right)
  {
    var table := new InternalStrings();
    var leftIds := InternAll(table, left);
    var rightIds := InternAll(table, right);
    path := CalculateOptimalEdits(leftIds, rightIds);
    PathDependsOnEqualityOnly(left, right, leftIds, rightIds, |left|, |right|);
  }
}
