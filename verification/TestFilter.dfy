// Test filters: colon-separated wildcard patterns, an index for the exact ones,
// and a positive part followed by a negative one.
module TestFilter {
  import opened Glob
  import opened Splitting

  // ---------------------------------------------------------------- one filter

  predicate IsGlobPattern(pattern: string) {
    exists k :: 0 <= k < |pattern| && (pattern[k] == '?' || pattern[k] == '*')
  }

  // A pattern without wildcards matches itself only.
  lemma {:induction false} ExactMatchesItself(pattern: string, name: string)
    requires !IsGlobPattern(pattern)
    ensures Matches(pattern, name) <==> pattern == name
  {
    StarFreePrefix(pattern, name, |pattern|);
    if |pattern| <= |name| {
      assert pattern[|pattern|..] == [] && pattern[..|pattern|] == pattern;
      if Matches(pattern, name) {
        assert |name[|pattern|..]| == 0;
        assert name[..|pattern|] == name;
        assert forall k :: 0 <= k < |name| ==> pattern[k] == name[k];
      }
      if pattern == name {
        assert Fits(pattern, name);
      }
    }
  }

  // Some piece of the filter matches the name.
  ghost predicate InFilter(filter: string, name: string) {
    exists parts, k :: IsSplit(parts, filter, ':') && 0 <= k < |parts| && Matches(parts[k], name)
  }

  datatype UnitTestFilter = UnitTestFilter(globPatterns: seq<string>, exactMatchPatterns: set<string>) {

    ghost predicate Accepts(name: string) {
      name in exactMatchPatterns || exists k :: 0 <= k < |globPatterns| && Matches(globPatterns[k], name)
    }

    method MatchesName(name: string) returns (b: bool)
      ensures b <==> Accepts(name)
    {
      if name in exactMatchPatterns {
        return true;
      }
      for i := 0 to |globPatterns|
        invariant forall k :: 0 <= k < i ==> !Matches(globPatterns[k], name)
      {
        var matches := PatternMatchesString(name, globPatterns[i]);
        if matches {
          return true;
        }
      }
      return false;
    }
  }

  // The filter of a default-constructed object: it accepts nothing.
  const NO_FILTER := UnitTestFilter([], {})

  lemma AddPattern(f: UnitTestFilter, pattern: string, name: string)
    ensures
      var f' := if IsGlobPattern(pattern) then f.(globPatterns := f.globPatterns + [pattern])
                else f.(exactMatchPatterns := f.exactMatchPatterns + {pattern});
      f'.Accepts(name) <==> f.Accepts(name) || Matches(pattern, name)
  {
    if IsGlobPattern(pattern) {
      var globs := f.globPatterns + [pattern];
      assert globs[|f.globPatterns|] == pattern;
      assert forall k :: 0 <= k < |f.globPatterns| ==> globs[k] == f.globPatterns[k];
    } else {
      ExactMatchesItself(pattern, name);
    }
  }

  // Separates the patterns with wildcards from the exact ones.
  method MakeFilter(filter: string) returns (f: UnitTestFilter)
    ensures forall name :: f.Accepts(name) <==> InFilter(filter, name)
  {
    var allPatterns := SplitString(filter, ':');
    var globs, exact := [], {};
    for i := 0 to |allPatterns|
      invariant forall name :: UnitTestFilter(globs, exact).Accepts(name) <==>
        exists k :: 0 <= k < i && Matches(allPatterns[k], name)
    {
      ghost var before := UnitTestFilter(globs, exact);
      var pattern := allPatterns[i];
      var globs', exact' := if IsGlobPattern(pattern) then globs + [pattern] else globs,
                            if IsGlobPattern(pattern) then exact else exact + {pattern};
      forall name
        ensures UnitTestFilter(globs', exact').Accepts(name) <==> before.Accepts(name) || Matches(pattern, name)
      {
        AddPattern(before, pattern, name);
      }
      globs, exact := globs', exact';
    }
    f := UnitTestFilter(globs, exact);
    forall name
      ensures f.Accepts(name) <==> InFilter(filter, name)
    {
      if parts, k :| IsSplit(parts, filter, ':') && 0 <= k < |parts| && Matches(parts[k], name) {
        SplitIsUnique(parts, allPatterns, filter, ':');
      }
    }
  }

  // ---------------------------------------------------------------- positive and negative

  // The filter up to the first '-', or "*" if a '-' comes first.
  function PositivePart(filter: string): string {
    var i := Find(filter, '-', 0);
    if i < |filter| && i == 0 then "*" else filter[..i]
  }

  // Everything after the first '-', later ones included.
  function NegativePart(filter: string): string
    requires '-' in filter
  {
    filter[Find(filter, '-', 0) + 1..]
  }

  // The documented meaning of --gtest_filter.
  ghost predicate Selected(filter: string, name: string) {
    InFilter(PositivePart(filter), name) && ('-' in filter ==> !InFilter(NegativePart(filter), name))
  }

  lemma StarMatchesAll(name: string)
    ensures Matches("*", name)
  {
    StarMeansSomeSuffix("*", name);
    assert name[|name|..] == [] && "*"[1..] == [];
  }

  lemma StarAcceptsAll(name: string)
    ensures InFilter("*", name)
  {
    StarMatchesAll(name);
    assert IsSplit(["*"], "*", ':') && ["*"][0] == "*";
  }

  lemma FirstDash(p: string, n: string)
    requires '-' !in p
    ensures Find(p, '-', 0) == |p| && Find(p + "-" + n, '-', 0) == |p|
    ensures (p + "-" + n)[..|p|] == p && (p + "-" + n)[|p| + 1..] == n
  {
    FindIs(p, '-', 0, |p|);
    FindIs(p + "-" + n, '-', 0, |p|);
  }

  // What --gtest_filter means, by how it is written.  Without '-' it is a positive filter ...
  lemma PositiveOnly(p: string, name: string)
    requires '-' !in p
    ensures Selected(p, name) <==> InFilter(p, name)
  {
    hide InFilter;
    FirstDash(p, "");
    assert p[..|p|] == p;
  }

  // ... from its first '-' on the rest is a negative one ...
  lemma PositiveAndNegative(p: string, n: string, name: string)
    requires '-' !in p && p != ""
    ensures Selected(p + "-" + n, name) <==> InFilter(p, name) && !InFilter(n, name)
  {
    hide InFilter;
    FirstDash(p, n);
    assert (p + "-" + n)[|p|] == '-';
  }

  // ... and with '-' in front everything is selected but what the negative one accepts.
  lemma NegativeOnly(n: string, name: string)
    ensures Selected("-" + n, name) <==> !InFilter(n, name)
  {
    hide InFilter;
    FirstDash("", n);
    assert "" + "-" + n == "-" + n && ("-" + n)[0] == '-';
    StarAcceptsAll(name);
  }

  datatype PositiveAndNegativeUnitTestFilter =
    PositiveAndNegativeUnitTestFilter(positiveFilter: UnitTestFilter, negativeFilter: UnitTestFilter)
  {
    ghost predicate Accepts(name: string) {
      positiveFilter.Accepts(name) && !negativeFilter.Accepts(name)
    }

    method MatchesName(name: string) returns (b: bool)
      ensures b <==> Accepts(name)
    {
      b := positiveFilter.MatchesName(name);
      if b {
        var negative := negativeFilter.MatchesName(name);
        b := !negative;
      }
    }

    method MatchesTest(testSuiteName: string, testName: string) returns (b: bool)
      ensures b <==> Accepts(testSuiteName + "." + testName)
    {
      b := MatchesName(testSuiteName + "." + testName);
    }
  }

  method MakePositiveAndNegativeFilter(filter: string) returns (f: PositiveAndNegativeUnitTestFilter)
    ensures forall name :: f.Accepts(name) <==> Selected(filter, name)
  {
    var parts := SplitString(filter, '-');
    FirstPiece(parts, filter, '-');
    var positiveFilter := parts[0];
    if |parts| > 1 {
      var positive := MakeFilter(if positiveFilter == "" then "*" else positiveFilter);
      var negativeString := parts[1];
      for i := 2 to |parts|
        invariant negativeString == Join(parts[1..i], '-')
      {
        JoinSnoc(parts[1..i], parts[i], '-');
        assert parts[1..i + 1] == parts[1..i] + [parts[i]];
        negativeString := negativeString + ['-'] + parts[i];
      }
      assert parts[1..|parts|] == parts[1..];
      var negative := MakeFilter(negativeString);
      f := PositiveAndNegativeUnitTestFilter(positive, negative);
      assert filter[Find(filter, '-', 0)] == '-';
    } else {
      var positive := MakeFilter(positiveFilter);
      f := PositiveAndNegativeUnitTestFilter(positive, NO_FILTER);
      assert filter[0..|filter|] == filter;
    }
  }

  // ---------------------------------------------------------------- the built-in filters

  const DEATH_TEST_SUITE_FILTER := "*DeathTest:*DeathTest/*"
  const DISABLE_TEST_FILTER := "DISABLED_*:*/DISABLED_*"

  ghost predicate Contains(name: string, text: string) {
    exists k :: 0 <= k <= |name| && text <= name[k..]
  }

  lemma LiteralThenStar(text: string, name: string)
    requires !IsGlobPattern(text)
    ensures Matches(text + "*", name) <==> text <= name
  {
    hide Matches;
    var n := |text|;
    StarFreePrefix(text + "*", name, n);
    assert (text + "*")[n..] == "*" && (text + "*")[..n] == text;
    if n <= |name| {
      StarMatchesAll(name[n..]);
      if Fits(text, name[..n]) {
        assert forall k :: 0 <= k < n ==> text[k] == name[..n][k];
      }
    }
  }

  lemma StarThenLiteral(text: string, name: string)
    requires !IsGlobPattern(text)
    ensures Matches("*" + text, name) <==> |text| <= |name| && name[|name| - |text|..] == text
  {
    hide Matches;
    StarMeansSomeSuffix("*" + text, name);
    assert ("*" + text)[1..] == text;
    forall k | 0 <= k <= |name|
      ensures Matches(text, name[k..]) <==> name[k..] == text
    {
      ExactMatchesItself(text, name[k..]);
    }
  }

  lemma StarLiteralStar(text: string, name: string)
    requires !IsGlobPattern(text)
    ensures Matches("*" + text + "*", name) <==> Contains(name, text)
  {
    hide Matches;
    var pattern := "*" + text + "*";
    StarMeansSomeSuffix(pattern, name);
    assert pattern[1..] == text + "*";
    forall k | 0 <= k <= |name|
      ensures Matches(pattern[1..], name[k..]) <==> text <= name[k..]
    {
      LiteralThenStar(text, name[k..]);
    }
  }

  lemma TwoPatterns(filter: string, first: string, second: string, name: string)
    requires filter == first + ":" + second && ':' !in first && ':' !in second
    ensures InFilter(filter, name) <==> Matches(first, name) || Matches(second, name)
  {
    hide Matches;
    assert [first, second][1..] == [second];
    assert Join([first, second], ':') == first + [':'] + second;
    assert IsSplit([first, second], filter, ':');
    if parts, k :| IsSplit(parts, filter, ':') && 0 <= k < |parts| && Matches(parts[k], name) {
      SplitIsUnique(parts, [first, second], filter, ':');
    }
    assert [first, second][0] == first && [first, second][1] == second;
  }

  // A death test suite is one whose name ends in "DeathTest" or has "DeathTest/" in it.
  lemma DeathTestSuiteNames(name: string)
    ensures InFilter(DEATH_TEST_SUITE_FILTER, name) <==>
            (9 <= |name| && name[|name| - 9..] == "DeathTest") || Contains(name, "DeathTest/")
  {
    hide Matches, InFilter;
    assert "*DeathTest" == "*" + "DeathTest" && "*DeathTest/*" == "*" + "DeathTest/" + "*";
    TwoPatterns(DEATH_TEST_SUITE_FILTER, "*DeathTest", "*DeathTest/*", name);
    StarThenLiteral("DeathTest", name);
    StarLiteralStar("DeathTest/", name);
  }

  // A disabled name starts with "DISABLED_" or has "/DISABLED_" in it.
  lemma DisabledNames(name: string)
    ensures InFilter(DISABLE_TEST_FILTER, name) <==> "DISABLED_" <= name || Contains(name, "/DISABLED_")
  {
    hide Matches, InFilter;
    assert "DISABLED_*" == "DISABLED_" + "*" && "*/DISABLED_*" == "*" + "/DISABLED_" + "*";
    TwoPatterns(DISABLE_TEST_FILTER, "DISABLED_*", "*/DISABLED_*", name);
    LiteralThenStar("DISABLED_", name);
    StarLiteralStar("/DISABLED_", name);
  }
}
