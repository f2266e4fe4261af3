// Fisher-Yates shuffling of a range, driven by a linear congruential generator.
module Shuffle {

  // ---------------------------------------------------------------- random numbers

  const MAX_RANGE: nat := 0x8000_0000

  function NextState(state: nat): nat {
    (1103515245 * state + 12345) % 0x1_0000_0000 % MAX_RANGE
  }

  class Random {
    var state: nat

    constructor (seed: nat)
      ensures state == seed
    {
      state := seed;
    }

    method Reseed(seed: nat)
      modifies this
      ensures state == seed
    {
      state := seed;
    }

    // A number below range; the source checks that the range is positive and not too large.
    method Generate(range: nat) returns (r: nat)
      requires 0 < range <= MAX_RANGE
      modifies this
      ensures state == NextState(old(state)) && r == state % range < range
    {
      state := (1103515245 * state + 12345) % 0x1_0000_0000 % MAX_RANGE;
      r := state % range;
    }
  }

  // ---------------------------------------------------------------- the shuffle as a function of its choices

  // One number below w for each range width w from `width` down to 2.
  ghost predicate ValidChoices(choices: seq<nat>, width: nat) {
    && |choices| == (if width < 2 then 0 else width - 1)
    && forall k :: 0 <= k < |choices| ==> choices[k] < width - k
  }

  function Swap<T>(v: seq<T>, i: nat, j: nat): (u: seq<T>)
    requires i < |v| && j < |v|
    ensures |u| == |v|
  {
    v[i := v[j]][j := v[i]]
  }

  // Swaps the last element of the range with the chosen one, then shuffles the rest.
  function Shuffled<T>(v: seq<T>, begin: nat, width: nat, choices: seq<nat>): seq<T>
    requires begin + width <= |v| && ValidChoices(choices, width)
    decreases width
  {
    if width < 2 then v
    else Shuffled(Swap(v, begin + choices[0], begin + width - 1), begin, width - 1, choices[1..])
  }

  // The choices the generator makes, and the state it ends in.
  function Draws(state: nat, width: nat): (choices: seq<nat>)
    ensures ValidChoices(choices, width)
    decreases width
  {
    if width < 2 then []
    else [NextState(state) % width] + Draws(NextState(state), width - 1)
  }

  function StateAfter(state: nat, width: nat): nat
    decreases width
  {
    if width < 2 then state else StateAfter(NextState(state), width - 1)
  }

  // One step of the shuffle and of the generator.
  lemma ShuffleStep<T>(v: seq<T>, begin: nat, width: nat, choices: seq<nat>)
    requires 2 <= width && begin + width <= |v| && ValidChoices(choices, width)
    ensures choices[0] < width && ValidChoices(choices[1..], width - 1)
    ensures Shuffled(v, begin, width, choices)
         == Shuffled(Swap(v, begin + choices[0], begin + width - 1), begin, width - 1, choices[1..])
  {
  }

  lemma DrawStep(state: nat, width: nat)
    requires 2 <= width
    ensures Draws(state, width)[0] == NextState(state) % width
    ensures Draws(state, width)[1..] == Draws(NextState(state), width - 1)
    ensures StateAfter(state, width) == StateAfter(NextState(state), width - 1)
  {
  }

  lemma NothingToShuffle<T>(v: seq<T>, begin: nat, width: nat, choices: seq<nat>, state: nat)
    requires width < 2 && begin + width <= |v| && ValidChoices(choices, width)
    ensures Shuffled(v, begin, width, choices) == v && choices == [] && StateAfter(state, width) == state
  {
  }

  // Shuffles v[begin..end] in place; the source checks the bounds, and sizes are ints.
  method ShuffleRange<T>(random: Random, begin: nat, end: nat, v: array<T>)
    requires begin <= end <= v.Length < MAX_RANGE
    modifies random, v
    ensures v[..] == Shuffled(old(v[..]), begin, end - begin, Draws(old(random.state), end - begin))
    ensures random.state == StateAfter(old(random.state), end - begin)
  {
    hide NextState, Shuffled, Draws, StateAfter;
    var rangeWidth := end - begin;
    while rangeWidth >= 2
      invariant 0 <= rangeWidth <= end - begin
      invariant Shuffled(v[..], begin, rangeWidth, Draws(random.state, rangeWidth))
             == Shuffled(old(v[..]), begin, end - begin, Draws(old(random.state), end - begin))
      invariant StateAfter(random.state, rangeWidth) == StateAfter(old(random.state), end - begin)
    {
      ghost var before := v[..];
      ShuffleStep(before, begin, rangeWidth, Draws(random.state, rangeWidth));
      DrawStep(random.state, rangeWidth);
      var lastInRange := begin + rangeWidth - 1;
      var r := random.Generate(rangeWidth);
      var selected := begin + r;
      v[selected], v[lastInRange] := v[lastInRange], v[selected];
      assert v[..] == Swap(before, selected, lastInRange);
      rangeWidth := rangeWidth - 1;
    }
    NothingToShuffle(v[..], begin, rangeWidth, Draws(random.state, rangeWidth), random.state);
  }

  // ---------------------------------------------------------------- what a shuffle does

  // The two sequences hold the same elements in [begin, begin + width) and agree elsewhere.
  ghost predicate PermutesRange<T>(v: seq<T>, u: seq<T>, begin: nat, width: nat)
    requires begin + width <= |v|
  {
    && |u| == |v|
    && (forall k :: 0 <= k < |v| && !(begin <= k < begin + width) ==> u[k] == v[k])
    && multiset(u[begin..begin + width]) == multiset(v[begin..begin + width])
  }

  lemma SwapFacts<T>(v: seq<T>, i: nat, j: nat)
    requires i < |v| && j < |v|
    ensures var u := Swap(v, i, j);
      |u| == |v| && u[i] == v[j] && u[j] == v[i] && forall k :: 0 <= k < |v| && k != i && k != j ==> u[k] == v[k]
  {
  }

  lemma SwapKeepsElements<T>(s: seq<T>, i: nat, j: nat)
    requires i < |s| && j < |s|
    ensures multiset(Swap(s, i, j)) == multiset(s)
  {
    var t := s[i := s[j]];
    assert multiset(t) == multiset(s) - multiset{s[i]} + multiset{s[j]};
    assert multiset(t[j := s[i]]) == multiset(t) - multiset{t[j]} + multiset{s[i]};
  }

  lemma SwapPermutes<T>(v: seq<T>, begin: nat, width: nat, i: nat)
    requires begin + width <= |v| && i < width
    ensures PermutesRange(v, Swap(v, begin + i, begin + width - 1), begin, width)
  {
    hide Swap;
    var u, s := Swap(v, begin + i, begin + width - 1), v[begin..begin + width];
    SwapFacts(v, begin + i, begin + width - 1);
    SwapFacts(s, i, width - 1);
    SwapKeepsElements(s, i, width - 1);
    assert u[begin..begin + width] == Swap(s, i, width - 1);
  }

  lemma SplitLast<T>(v: seq<T>, begin: nat, n: nat)
    requires begin <= n < |v|
    ensures multiset(v[begin..n + 1]) == multiset(v[begin..n]) + multiset{v[n]}
    ensures multiset(v[begin..n]) == multiset(v[begin..n + 1]) - multiset{v[n]}
  {
    assert v[begin..n + 1] == v[begin..n] + [v[n]];
  }

  // An element in its final place can be left out of the range.
  lemma Narrow<T>(v: seq<T>, u: seq<T>, begin: nat, width: nat)
    requires 0 < width && begin + width <= |v| && |u| == |v|
    requires v[begin + width - 1] == u[begin + width - 1]
    ensures PermutesRange(v, u, begin, width - 1) <==> PermutesRange(v, u, begin, width)
  {
    var n := begin + width - 1;
    SplitLast(v, begin, n);
    SplitLast(u, begin, n);
  }

  // Permuting a permutation.
  lemma PermutesTransitive<T>(v: seq<T>, w: seq<T>, u: seq<T>, begin: nat, width: nat)
    requires begin + width <= |v| && PermutesRange(v, w, begin, width) && PermutesRange(w, u, begin, width)
    ensures PermutesRange(v, u, begin, width)
  {
  }

  lemma PermutesItself<T>(v: seq<T>, begin: nat, width: nat)
    requires begin + width <= |v|
    ensures PermutesRange(v, v, begin, width)
  {
  }

  lemma LastStays<T>(v: seq<T>, u: seq<T>, begin: nat, width: nat)
    requires 0 < width && begin + width <= |v| && PermutesRange(v, u, begin, width - 1)
    ensures |u| == |v| && u[begin + width - 1] == v[begin + width - 1]
  {
  }

  // Any choices permute the range and move nothing outside it.
  lemma {:induction false} ShufflePermutes<T>(v: seq<T>, begin: nat, width: nat, choices: seq<nat>)
    requires begin + width <= |v| && ValidChoices(choices, width)
    ensures PermutesRange(v, Shuffled(v, begin, width, choices), begin, width)
    ensures 2 <= width ==> Shuffled(v, begin, width, choices)[begin + width - 1] == v[begin + choices[0]]
    decreases width
  {
    hide Shuffled, Swap, PermutesRange;
    if width < 2 {
      NothingToShuffle(v, begin, width, choices, 0);
      PermutesItself(v, begin, width);
    } else {
      var last := begin + width - 1;
      var w := Swap(v, begin + choices[0], last);
      ShuffleStep(v, begin, width, choices);
      SwapFacts(v, begin + choices[0], last);
      SwapPermutes(v, begin, width, choices[0]);
      ShufflePermutes(w, begin, width - 1, choices[1..]);
      var u := Shuffled(w, begin, width - 1, choices[1..]);
      LastStays(w, u, begin, width);
      Narrow(w, u, begin, width);
      PermutesTransitive(v, w, u, begin, width);
    }
  }

  ghost predicate DistinctRange<T>(v: seq<T>, begin: nat, width: nat)
    requires begin + width <= |v|
  {
    forall i, j :: begin <= i < j < begin + width ==> v[i] != v[j]
  }

  lemma SwapKeepsDistinct<T>(v: seq<T>, begin: nat, width: nat, i: nat)
    requires begin + width <= |v| && i < width && DistinctRange(v, begin, width)
    ensures DistinctRange(Swap(v, begin + i, begin + width - 1), begin, width - 1)
  {
  }

  // Different choices give different orders of distinct elements.
  lemma {:induction false} ShuffleInjective<T>(v: seq<T>, begin: nat, width: nat, c: seq<nat>, d: seq<nat>)
    requires begin + width <= |v| && DistinctRange(v, begin, width)
    requires ValidChoices(c, width) && ValidChoices(d, width)
    requires Shuffled(v, begin, width, c) == Shuffled(v, begin, width, d)
    ensures c == d
    decreases width
  {
    hide Shuffled, Swap, PermutesRange;
    if width < 2 {
    } else {
      ShuffleStep(v, begin, width, c);
      ShuffleStep(v, begin, width, d);
      ShufflePermutes(v, begin, width, c);
      ShufflePermutes(v, begin, width, d);
      assert c[0] == d[0];
      SwapKeepsDistinct(v, begin, width, c[0]);
      ShuffleInjective(Swap(v, begin + c[0], begin + width - 1), begin, width - 1, c[1..], d[1..]);
      assert c == [c[0]] + c[1..] && d == [d[0]] + d[1..];
    }
  }

  // The element that must come last is somewhere in the range.
  lemma FindElement<T>(v: seq<T>, u: seq<T>, begin: nat, width: nat) returns (i: nat)
    requires 0 < width && begin + width <= |v| && PermutesRange(v, u, begin, width)
    ensures i < width && v[begin + i] == u[begin + width - 1]
  {
    var last := begin + width - 1;
    assert u[begin..begin + width][width - 1] == u[last];
    assert u[last] in multiset(u[begin..begin + width]);
    assert u[last] in v[begin..begin + width];
    i :| 0 <= i < width && v[begin..begin + width][i] == u[last];
  }

  // Putting it there leaves a permutation of the rest.
  lemma AfterFirstSwap<T>(v: seq<T>, u: seq<T>, begin: nat, width: nat, i: nat)
    requires 0 < width && begin + width <= |v| && i < width
    requires PermutesRange(v, u, begin, width) && v[begin + i] == u[begin + width - 1]
    ensures PermutesRange(Swap(v, begin + i, begin + width - 1), u, begin, width - 1)
  {
    var w := Swap(v, begin + i, begin + width - 1);
    SwapPermutes(v, begin, width, i);
    SwapFacts(v, begin + i, begin + width - 1);
    hide Swap;
    Narrow(w, u, begin, width);
  }

  lemma NothingToPermute<T>(v: seq<T>, u: seq<T>, begin: nat, width: nat)
    requires width < 2 && begin + width <= |v| && PermutesRange(v, u, begin, width)
    ensures u == v
  {
    if width == 1 {
      assert u[begin..begin + 1] == [u[begin]] && v[begin..begin + 1] == [v[begin]];
      assert u[begin] in multiset(v[begin..begin + 1]);
    }
  }

  // Every order of the range is reached by some choices.
  lemma {:induction false} ShuffleSurjective<T>(v: seq<T>, u: seq<T>, begin: nat, width: nat) returns (choices: seq<nat>)
    requires begin + width <= |v| && PermutesRange(v, u, begin, width)
    ensures ValidChoices(choices, width) && Shuffled(v, begin, width, choices) == u
    decreases width
  {
    hide Shuffled, Swap, PermutesRange;
    if width < 2 {
      choices := [];
      NothingToPermute(v, u, begin, width);
      NothingToShuffle(v, begin, width, choices, 0);
    } else {
      var i := FindElement(v, u, begin, width);
      AfterFirstSwap(v, u, begin, width, i);
      var rest := ShuffleSurjective(Swap(v, begin + i, begin + width - 1), u, begin, width - 1);
      choices := [i] + rest;
      assert choices[1..] == rest;
      ShuffleStep(v, begin, width, choices);
    }
  }

  // ---------------------------------------------------------------- in numbers

  lemma LowBits(x: nat)
    ensures x % 4294967296 % 2147483648 == x % 2147483648
  {
    var q, r := x / 4294967296, x % 4294967296;
    assert x == 2 * q * 2147483648 + r;
  }

  // The generator, and the first numbers from state 1.
  lemma GeneratorInNumbers(state: nat)
    ensures NextState(state) == (1103515245 * state + 12345) % 2147483648
  {
    LowBits(1103515245 * state + 12345);
  }

  lemma FirstNumbers()
    ensures NextState(1) == 1103527590 && NextState(1103527590) == 377401575 && NextState(377401575) == 662824084
  {
  }

  // One number is drawn for each width from the whole range down to 2.
  lemma DrawsInTurn(state: nat, width: nat)
    requires width >= 2
    ensures Draws(state, width)[0] == NextState(state) % width
    ensures Draws(state, width)[1..] == Draws(NextState(state), width - 1)
    ensures StateAfter(state, width) == StateAfter(NextState(state), width - 1)
    ensures Draws(state, 1) == [] && StateAfter(state, 1) == state
  {
  }

  // The first draw says which element comes last; it changes places with the one there.
  lemma {:induction false} LastIsDrawnFirst<T>(v: seq<T>, begin: nat, width: nat, choices: seq<nat>)
    requires begin + width <= |v| && ValidChoices(choices, width) && width >= 2
    ensures |Shuffled(v, begin, width, choices)| == |v|
    ensures Shuffled(v, begin, width, choices)[begin + width - 1] == v[begin + choices[0]]
    ensures Shuffled(v, begin, width, choices) ==
            Shuffled(v[begin + choices[0] := v[begin + width - 1]][begin + width - 1 := v[begin + choices[0]]],
                     begin, width - 1, choices[1..])
  {
    var u := Swap(v, begin + choices[0], begin + width - 1);
    ShufflePermutes(u, begin, width - 1, choices[1..]);
  }

  // All six orders of three elements, by what is drawn.
  lemma ThreeElements<T>(a: T, b: T, c: T)
    ensures Shuffled([a, b, c], 0, 3, [0, 0]) == [b, c, a] && Shuffled([a, b, c], 0, 3, [0, 1]) == [c, b, a]
    ensures Shuffled([a, b, c], 0, 3, [1, 0]) == [c, a, b] && Shuffled([a, b, c], 0, 3, [1, 1]) == [a, c, b]
    ensures Shuffled([a, b, c], 0, 3, [2, 0]) == [b, a, c] && Shuffled([a, b, c], 0, 3, [2, 1]) == [a, b, c]
  {
  }

  lemma ShuffledStep<T>(v: seq<T>, begin: nat, width: nat, choices: seq<nat>)
    requires begin + width <= |v| && ValidChoices(choices, width)
    ensures Shuffled(v, begin, width, choices) ==
            if width < 2 then v
            else Shuffled(Swap(v, begin + choices[0], begin + width - 1), begin, width - 1, choices[1..])
  {
  }

  // Swapping within a stretch.
  lemma SwapWithin<T>(v: seq<T>, begin: nat, width: nat, k: nat)
    requires begin + width <= |v| && k < width
    ensures
      var u, u' := Swap(v, begin + k, begin + width - 1), Swap(v[begin..begin + width], k, width - 1);
      && u[..begin] == v[..begin] && u[begin..begin + (width - 1)] == u'[..width - 1]
      && u[begin + (width - 1)..] == u'[width - 1..] + v[begin + width..]
  {
  }

  lemma FourParts<T>(a: seq<T>, b: seq<T>, c: seq<T>, d: seq<T>)
    ensures a + b + (c + d) == a + (b + c) + d && [] + b + c == b + c
  {
  }

  // A stretch is shuffled as if it stood alone.
  lemma {:induction false} ShuffledWithin<T>(v: seq<T>, begin: nat, width: nat, choices: seq<nat>)
    requires begin + width <= |v| && ValidChoices(choices, width)
    ensures Shuffled(v, begin, width, choices) ==
            v[..begin] + Shuffled(v[begin..begin + width], 0, width, choices) + v[begin + width..]
    decreases width
  {
    hide Shuffled, Swap;
    var inside := v[begin..begin + width];
    ShuffledStep(v, begin, width, choices);
    ShuffledStep(inside, 0, width, choices);
    if width < 2 {
      assert v == v[..begin] + inside + v[begin + width..];
    } else {
      var last := width - 1;
      var u, u' := Swap(v, begin + choices[0], begin + last), Swap(inside, choices[0], last);
      SwapWithin(v, begin, width, choices[0]);
      ShuffledWithin(u, begin, last, choices[1..]);
      ShuffledWithin(u', 0, last, choices[1..]);
      assert u'[0..0 + last] == u'[..last] && u'[..0] == [] && u'[0 + last..] == u'[last..];
      FourParts(v[..begin], Shuffled(u'[..last], 0, last, choices[1..]), u'[last..], v[begin + width..]);
    }
  }
}
