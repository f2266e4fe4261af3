// Which tests run: the name filter, disabled tests, and sharding.
module TestSelection {
  import opened TestFilter
  import opened TestRegistry

  // Sharding is honoured with a total and an index, or ignored.
  datatype Sharding = Ignored | Shard(total: nat, index: nat)

  datatype Options = Options(filter: string, alsoRunDisabled: bool, sharding: Sharding)

  // The environment variables are checked before: 0 <= index < total.
  predicate ValidSharding(s: Sharding) {
    s.Shard? ==> s.index < s.total
  }

  predicate ShouldRunTestOnShard(totalShards: nat, shardIndex: nat, testId: nat)
    requires totalShards > 0
  {
    testId % totalShards == shardIndex
  }

  // ---------------------------------------------------------------- one test

  ghost predicate IsDisabled(suiteName: string, testName: string) {
    InFilter(DISABLE_TEST_FILTER, suiteName) || InFilter(DISABLE_TEST_FILTER, testName)
  }

  ghost predicate IsRunnable(o: Options, suiteName: string, testName: string) {
    (o.alsoRunDisabled || !IsDisabled(suiteName, testName)) && Selected(o.filter, suiteName + "." + testName)
  }

  predicate OnThisShard(s: Sharding, testId: nat)
    requires ValidSharding(s)
  {
    s.Ignored? || ShouldRunTestOnShard(s.total, s.index, testId)
  }

  // The marks a test gets; its id is the number of runnable tests before it.
  ghost function Marked(test: TestInfo, suiteName: string, o: Options, testId: nat): TestInfo
    requires ValidSharding(o.sharding)
  {
    test.(isDisabled := IsDisabled(suiteName, test.name),
          matchesFilter := Selected(o.filter, suiteName + "." + test.name),
          isInAnotherShard := !OnThisShard(o.sharding, testId),
          shouldRun := IsRunnable(o, suiteName, test.name) && OnThisShard(o.sharding, testId))
  }

  // ---------------------------------------------------------------- all tests

  // Runnable tests among the first j of a suite, and among the first i suites.
  ghost function RunnableIn(suite: TestSuite, o: Options, j: nat): nat
    requires j <= |suite.tests|
  {
    if j == 0 then 0
    else RunnableIn(suite, o, j - 1) + (if IsRunnable(o, suite.name, suite.tests[j - 1].name) then 1 else 0)
  }

  ghost function RunnableBefore(suites: seq<TestSuite>, o: Options, i: nat): nat
    requires i <= |suites|
  {
    if i == 0 then 0
    else RunnableBefore(suites, o, i - 1) + RunnableIn(suites[i - 1], o, |suites[i - 1].tests|)
  }

  // The number given to test j of suite i.
  ghost function TestId(suites: seq<TestSuite>, o: Options, i: nat, j: nat): nat
    requires i < |suites| && j <= |suites[i].tests|
  {
    RunnableBefore(suites, o, i) + RunnableIn(suites[i], o, j)
  }

  // Test j of suite i is selected to run.
  ghost predicate Runs(suites: seq<TestSuite>, o: Options, i: nat, j: nat)
    requires ValidSharding(o.sharding)
    requires i < |suites| && j < |suites[i].tests|
  {
    IsRunnable(o, suites[i].name, suites[i].tests[j].name) && OnThisShard(o.sharding, TestId(suites, o, i, j))
  }

  // The number of ids below n that belong to the shard.
  function IdsOnShard(s: Sharding, n: nat): nat
    requires ValidSharding(s)
  {
    if n == 0 then 0 else IdsOnShard(s, n - 1) + (if OnThisShard(s, n - 1) then 1 else 0)
  }

  // Suite i after marking its first j tests.
  ghost predicate MarkedUpTo(before: seq<TestSuite>, suite: TestSuite, o: Options, i: nat, j: nat)
    requires ValidSharding(o.sharding)
    requires i < |before| && j <= |before[i].tests|
  {
    && suite == before[i].(tests := suite.tests, shouldRun := suite.shouldRun)
    && |suite.tests| == |before[i].tests|
    && (forall k :: 0 <= k < j ==> suite.tests[k] == Marked(before[i].tests[k], before[i].name, o, TestId(before, o, i, k)))
    && (forall k :: j <= k < |suite.tests| ==> suite.tests[k] == before[i].tests[k])
    && (suite.shouldRun <==> exists k :: 0 <= k < j && Runs(before, o, i, k))
  }

  function ShouldRunCount(tests: seq<TestInfo>): nat {
    if tests == [] then 0
    else ShouldRunCount(tests[..|tests| - 1]) + (if tests[|tests| - 1].shouldRun then 1 else 0)
  }

  function TotalShouldRun(suites: seq<TestSuite>): nat {
    if suites == [] then 0
    else TotalShouldRun(suites[..|suites| - 1]) + ShouldRunCount(suites[|suites| - 1].tests)
  }

  lemma MarkNothing(before: seq<TestSuite>, o: Options, i: nat)
    requires ValidSharding(o.sharding) && i < |before|
    ensures MarkedUpTo(before, before[i].(shouldRun := false), o, i, 0)
    ensures ShouldRunCount(before[i].tests[..0]) == 0
  {
  }

  lemma NotYetMarked(before: seq<TestSuite>, suite: TestSuite, o: Options, i: nat, j: nat)
    requires ValidSharding(o.sharding) && i < |before| && j < |before[i].tests| && MarkedUpTo(before, suite, o, i, j)
    ensures |suite.tests| == |before[i].tests| && suite.tests[j] == before[i].tests[j] && suite.name == before[i].name
  {
  }

  lemma CountOneMore(tests: seq<TestInfo>, test: TestInfo, j: nat)
    requires j < |tests|
    ensures ShouldRunCount(tests[j := test][..j + 1]) == ShouldRunCount(tests[..j]) + (if test.shouldRun then 1 else 0)
  {
    assert tests[j := test][..j + 1][..j] == tests[..j];
  }

  lemma MarkOneMore(before: seq<TestSuite>, suite: TestSuite, suite': TestSuite, o: Options, i: nat, j: nat)
    requires ValidSharding(o.sharding) && i < |before| && j < |before[i].tests|
    requires MarkedUpTo(before, suite, o, i, j)
    requires suite' == suite.(
      tests := suite.tests[j := Marked(suite.tests[j], suite.name, o, TestId(before, o, i, j))],
      shouldRun := suite.shouldRun || Runs(before, o, i, j))
    ensures MarkedUpTo(before, suite', o, i, j + 1)
  {
  }

  // Marks the tests of suite i and the suite itself, and counts them.
  method FilterSuite(before: seq<TestSuite>, i: nat, o: Options, ghost selected: nat,
                     gtestFlagFilter: PositiveAndNegativeUnitTestFilter, disableTestFilter: UnitTestFilter,
                     numRunnable0: nat)
    returns (suite: TestSuite, numRunnable: nat, numSelected: nat)
    requires ValidSharding(o.sharding) && i < |before|
    requires forall name :: gtestFlagFilter.Accepts(name) <==> Selected(o.filter, name)
    requires forall name :: disableTestFilter.Accepts(name) <==> InFilter(DISABLE_TEST_FILTER, name)
    requires numRunnable0 == RunnableBefore(before, o, i) && selected == IdsOnShard(o.sharding, numRunnable0)
    ensures MarkedUpTo(before, suite, o, i, |before[i].tests|)
    ensures numRunnable == RunnableBefore(before, o, i + 1)
    ensures numSelected == ShouldRunCount(suite.tests)
    ensures selected + numSelected == IdsOnShard(o.sharding, numRunnable)
  {
    hide InFilter, Selected, MarkedUpTo, ShouldRunCount;
    suite := before[i].(shouldRun := false);
    numRunnable, numSelected := numRunnable0, 0;
    MarkNothing(before, o, i);
    for j := 0 to |suite.tests|
      invariant |suite.tests| == |before[i].tests| && suite.name == before[i].name
      invariant MarkedUpTo(before, suite, o, i, j)
      invariant numRunnable == TestId(before, o, i, j)
      invariant numSelected == ShouldRunCount(suite.tests[..j])
      invariant selected + numSelected == IdsOnShard(o.sharding, numRunnable)
    {
      var testInfo := suite.tests[j];
      NotYetMarked(before, suite, o, i, j);
      ghost var suite0 := suite;
      var isDisabled := disableTestFilter.MatchesName(suite.name);
      if !isDisabled {
        isDisabled := disableTestFilter.MatchesName(testInfo.name);
      }
      var matchesFilter := gtestFlagFilter.MatchesTest(suite.name, testInfo.name);
      var isRunnable := (o.alsoRunDisabled || !isDisabled) && matchesFilter;
      var isInAnotherShard := !OnThisShard(o.sharding, numRunnable);
      var isSelected := isRunnable && !isInAnotherShard;
      numRunnable := numRunnable + (if isRunnable then 1 else 0);
      numSelected := numSelected + (if isSelected then 1 else 0);
      testInfo := testInfo.(isDisabled := isDisabled, matchesFilter := matchesFilter,
                            isInAnotherShard := isInAnotherShard, shouldRun := isSelected);
      suite := suite.(tests := suite.tests[j := testInfo], shouldRun := suite.shouldRun || isSelected);
      MarkOneMore(before, suite0, suite, o, i, j);
      CountOneMore(suite0.tests, testInfo, j);
    }
    assert suite.tests[..|suite.tests|] == suite.tests;
  }

  lemma TotalOneMore(suites: seq<TestSuite>, suite: TestSuite, i: nat)
    requires i < |suites|
    ensures TotalShouldRun(suites[i := suite][..i + 1]) == TotalShouldRun(suites[..i]) + ShouldRunCount(suite.tests)
  {
    assert suites[i := suite][..i + 1][..i] == suites[..i];
  }

  // A suite whose tests are all marked.
  lemma MarkedFits(before: seq<TestSuite>, suite: TestSuite, o: Options, i: nat)
    requires ValidSharding(o.sharding) && i < |before| && MarkedUpTo(before, suite, o, i, |before[i].tests|)
    ensures ShouldRunFits(suite) && |suite.tests| == |before[i].tests|
    ensures suite == before[i].(tests := suite.tests, shouldRun := suite.shouldRun)
  {
    hide IsRunnable, IsDisabled, Selected;
    forall k | 0 <= k < |suite.tests|
      ensures suite.tests[k].shouldRun <==> Runs(before, o, i, k)
    {
      assert suite.tests[k] == Marked(before[i].tests[k], before[i].name, o, TestId(before, o, i, k));
    }
  }

  lemma {:induction false} SomeTestRuns(tests: seq<TestInfo>)
    ensures ShouldRunCount(tests) > 0 <==> exists j :: 0 <= j < |tests| && tests[j].shouldRun
  {
    if tests == [] {
    } else {
      SomeTestRuns(tests[..|tests| - 1]);
      if j :| 0 <= j < |tests| && tests[j].shouldRun {
        assert j < |tests| - 1 ==> tests[..|tests| - 1][j].shouldRun;
      }
    }
  }

  lemma {:induction false} SomeSuiteRuns(suites: seq<TestSuite>)
    requires forall i :: 0 <= i < |suites| ==> ShouldRunFits(suites[i])
    ensures TotalShouldRun(suites) > 0 <==> exists i :: 0 <= i < |suites| && suites[i].shouldRun
  {
    hide ShouldRunCount;
    if suites == [] {
    } else {
      var init, last := suites[..|suites| - 1], suites[|suites| - 1];
      SomeSuiteRuns(init);
      SomeTestRuns(last.tests);
      assert ShouldRunFits(last);
      if i :| 0 <= i < |suites| && suites[i].shouldRun {
        assert i < |init| ==> init[i].shouldRun;
      }
    }
  }

  lemma NothingToCount(suites: seq<TestSuite>)
    ensures TotalShouldRun(suites[..0]) == 0
  {
  }

  // Marks every test and suite; the result counts the tests marked to run, which
  // are as many as the runnable tests numbered for this shard.
  method FilterTests(impl: UnitTestImpl, o: Options) returns (numSelected: nat)
    requires ValidSharding(o.sharding)
    modifies impl`testSuites
    ensures |impl.testSuites| == |old(impl.testSuites)|
    ensures forall i :: 0 <= i < |impl.testSuites| ==>
      MarkedUpTo(old(impl.testSuites), impl.testSuites[i], o, i, |old(impl.testSuites)[i].tests|)
    ensures forall i :: 0 <= i < |impl.testSuites| ==> ShouldRunFits(impl.testSuites[i])
    ensures old(Invariant(impl.View())) ==> Invariant(impl.View())
    ensures old(Invariant(impl.View()) && InOrder(impl.View())) ==> InOrder(impl.View())
    ensures numSelected == TotalShouldRun(impl.testSuites)
    ensures numSelected > 0 <==> exists i :: 0 <= i < |impl.testSuites| && impl.testSuites[i].shouldRun
    ensures numSelected == IdsOnShard(o.sharding, RunnableBefore(old(impl.testSuites), o, |old(impl.testSuites)|))
  {
    hide InFilter, Selected, MarkedUpTo, TotalShouldRun, ShouldRunCount, ShouldRunFits, Invariant, InOrder;
    ghost var r := impl.View();
    var gtestFlagFilter := MakePositiveAndNegativeFilter(o.filter);
    var disableTestFilter := MakeFilter(DISABLE_TEST_FILTER);
    var before := impl.testSuites;
    var numRunnable := 0;
    numSelected := 0;
    assert TotalShouldRun(impl.testSuites[..0]) == 0 by { NothingToCount(impl.testSuites); }
    for i := 0 to |impl.testSuites|
      invariant |impl.testSuites| == |before|
      invariant forall k :: 0 <= k < i ==> MarkedUpTo(before, impl.testSuites[k], o, k, |before[k].tests|)
      invariant forall k :: i <= k < |before| ==> impl.testSuites[k] == before[k]
      invariant numRunnable == RunnableBefore(before, o, i)
      invariant numSelected == TotalShouldRun(impl.testSuites[..i])
      invariant numSelected == IdsOnShard(o.sharding, numRunnable)
    {
      var suite, inSuite;
      suite, numRunnable, inSuite := FilterSuite(before, i, o, numSelected, gtestFlagFilter, disableTestFilter, numRunnable);
      TotalOneMore(impl.testSuites, suite, i);
      numSelected := numSelected + inSuite;
      impl.testSuites := impl.testSuites[i := suite];
    }
    assert impl.testSuites[..|before|] == impl.testSuites;
    forall i | 0 <= i < |before|
      ensures ShouldRunFits(impl.testSuites[i]) && |impl.testSuites[i].tests| == |before[i].tests|
      ensures impl.testSuites[i] == before[i].(tests := impl.testSuites[i].tests, shouldRun := impl.testSuites[i].shouldRun)
    {
      MarkedFits(before, impl.testSuites[i], o, i);
    }
    if Invariant(r) {
      MarkingFits(r, impl.View());
    }
    SomeSuiteRuns(impl.testSuites);
  }

  // ---------------------------------------------------------------- sharding partitions the runnable tests

  lemma RunnableIgnoresSharding(o: Options, s: Sharding, suiteName: string, testName: string)
    ensures IsRunnable(o.(sharding := s), suiteName, testName) <==> IsRunnable(o, suiteName, testName)
  {
    hide IsDisabled, Selected;
  }

  lemma {:induction false} SuiteCountsIgnoreSharding(suite: TestSuite, o: Options, s: Sharding, j: nat)
    requires j <= |suite.tests|
    ensures RunnableIn(suite, o.(sharding := s), j) == RunnableIn(suite, o, j)
  {
    hide IsRunnable;
    if j == 0 {
    } else {
      SuiteCountsIgnoreSharding(suite, o, s, j - 1);
      RunnableIgnoresSharding(o, s, suite.name, suite.tests[j - 1].name);
    }
  }

  // Every shard numbers the tests the same way.
  lemma {:induction false} CountsIgnoreSharding(suites: seq<TestSuite>, o: Options, s: Sharding, i: nat)
    requires i <= |suites|
    ensures RunnableBefore(suites, o.(sharding := s), i) == RunnableBefore(suites, o, i)
  {
    hide RunnableIn;
    if i == 0 {
    } else {
      CountsIgnoreSharding(suites, o, s, i - 1);
      SuiteCountsIgnoreSharding(suites[i - 1], o, s, |suites[i - 1].tests|);
    }
  }

  lemma IdIgnoresSharding(suites: seq<TestSuite>, o: Options, s: Sharding, i: nat, j: nat)
    requires i < |suites| && j <= |suites[i].tests|
    ensures TestId(suites, o.(sharding := s), i, j) == TestId(suites, o, i, j)
  {
    CountsIgnoreSharding(suites, o, s, i);
    SuiteCountsIgnoreSharding(suites[i], o, s, j);
  }

  // A runnable test runs on exactly one of the shards, any other test on none.
  lemma ExactlyOneShard(suites: seq<TestSuite>, filter: string, alsoRunDisabled: bool, total: nat, i: nat, j: nat)
    requires total > 0 && i < |suites| && j < |suites[i].tests|
    ensures
      var runnable := IsRunnable(Options(filter, alsoRunDisabled, Ignored), suites[i].name, suites[i].tests[j].name);
      if runnable then
        exists k :: 0 <= k < total && Runs(suites, Options(filter, alsoRunDisabled, Shard(total, k)), i, j)
          && forall k' :: 0 <= k' < total && Runs(suites, Options(filter, alsoRunDisabled, Shard(total, k')), i, j) ==> k' == k
      else
        forall k :: 0 <= k < total ==> !Runs(suites, Options(filter, alsoRunDisabled, Shard(total, k)), i, j)
  {
    var o := Options(filter, alsoRunDisabled, Ignored);
    forall k | 0 <= k < total
      ensures TestId(suites, o.(sharding := Shard(total, k)), i, j) == TestId(suites, o, i, j)
    {
      IdIgnoresSharding(suites, o, Shard(total, k), i, j);
    }
    var k := TestId(suites, o, i, j) % total;
    if IsRunnable(o, suites[i].name, suites[i].tests[j].name) {
      assert Runs(suites, o.(sharding := Shard(total, k)), i, j);
    }
  }

  lemma AtLeast(x: int, d: nat)
    ensures x >= 1 ==> x * d >= d
    ensures x <= -1 ==> x * d <= 0 - d
  {
  }

  lemma DivUnique(n: nat, d: nat, q: nat, r: nat)
    requires d > 0 && r < d && n == q * d + r
    ensures n / d == q && n % d == r
  {
    var q', r' := n / d, n % d;
    assert (q - q') * d == r' - r;
    AtLeast(q - q', d);
  }

  lemma DivStep(n: nat, d: nat)
    requires d > 0
    ensures n % d + 1 < d ==> (n + 1) / d == n / d && (n + 1) % d == n % d + 1
    ensures n % d + 1 == d ==> (n + 1) / d == n / d + 1 && (n + 1) % d == 0
  {
    var q, r := n / d, n % d;
    assert n == q * d + r;
    if r + 1 < d {
      DivUnique(n + 1, d, q, r + 1);
    } else {
      assert n + 1 == (q + 1) * d;
      DivUnique(n + 1, d, q + 1, 0);
    }
  }

  // A shard has n / total ids, or one more.
  lemma {:induction false} ShardSize(total: nat, index: nat, n: nat)
    requires index < total
    ensures IdsOnShard(Shard(total, index), n) == n / total + (if index < n % total then 1 else 0)
  {
    if n > 0 {
      ShardSize(total, index, n - 1);
      DivStep(n - 1, total);
    } else {
      assert 0 / total == 0 && 0 % total == 0;
    }
  }

  // What filtering returns on shard k: the number of tests selected there.
  ghost function SelectedOnShard(suites: seq<TestSuite>, filter: string, alsoRunDisabled: bool, total: nat, k: nat): nat
    requires k < total
  {
    var o := Options(filter, alsoRunDisabled, Shard(total, k));
    IdsOnShard(o.sharding, RunnableBefore(suites, o, |suites|))
  }

  // The tests that match the filter and are not disabled.
  ghost function RunnableTests(suites: seq<TestSuite>, filter: string, alsoRunDisabled: bool): nat {
    RunnableBefore(suites, Options(filter, alsoRunDisabled, Ignored), |suites|)
  }

  // The shards select a fair share each: the sizes differ by at most one.
  lemma ShardsAreBalanced(suites: seq<TestSuite>, filter: string, alsoRunDisabled: bool, total: nat, k: nat, k': nat)
    requires k < total && k' < total
    ensures SelectedOnShard(suites, filter, alsoRunDisabled, total, k)
         <= SelectedOnShard(suites, filter, alsoRunDisabled, total, k') + 1
    ensures var n := RunnableTests(suites, filter, alsoRunDisabled);
      SelectedOnShard(suites, filter, alsoRunDisabled, total, k) == n / total + (if k < n % total then 1 else 0)
  {
    var o, n := Options(filter, alsoRunDisabled, Ignored), RunnableTests(suites, filter, alsoRunDisabled);
    CountsIgnoreSharding(suites, o, Shard(total, k), |suites|);
    CountsIgnoreSharding(suites, o, Shard(total, k'), |suites|);
    ShardSize(total, k, n);
    ShardSize(total, k', n);
  }

  // The tests selected on the first k shards together.
  ghost function SelectedOnShards(suites: seq<TestSuite>, filter: string, alsoRunDisabled: bool, total: nat, k: nat): nat
    requires k <= total
  {
    if k == 0 then 0
    else SelectedOnShards(suites, filter, alsoRunDisabled, total, k - 1)
         + SelectedOnShard(suites, filter, alsoRunDisabled, total, k - 1)
  }

  // The ids below n that belong to the first k shards.
  function IdsOnShards(total: nat, k: nat, n: nat): nat
    requires k <= total
  {
    if k == 0 then 0 else IdsOnShards(total, k - 1, n) + IdsOnShard(Shard(total, k - 1), n)
  }

  lemma {:induction false} SelectedIsShare(suites: seq<TestSuite>, filter: string, alsoRunDisabled: bool,
                                           total: nat, k: nat)
    requires k <= total
    ensures SelectedOnShards(suites, filter, alsoRunDisabled, total, k)
         == IdsOnShards(total, k, RunnableTests(suites, filter, alsoRunDisabled))
  {
    hide RunnableBefore;
    if k == 0 {
    } else {
      SelectedIsShare(suites, filter, alsoRunDisabled, total, k - 1);
      CountsIgnoreSharding(suites, Options(filter, alsoRunDisabled, Ignored), Shard(total, k - 1), |suites|);
    }
  }

  // One id more belongs to one shard more.
  lemma {:induction false} OneIdMore(total: nat, k: nat, n: nat)
    requires 0 < total && k <= total
    ensures IdsOnShards(total, k, n + 1) == IdsOnShards(total, k, n) + (if n % total < k then 1 else 0)
  {
    if k == 0 {
    } else {
      OneIdMore(total, k - 1, n);
    }
  }

  lemma {:induction false} NoIds(total: nat, k: nat)
    requires k <= total
    ensures IdsOnShards(total, k, 0) == 0
  {
    if k == 0 {
    } else {
      NoIds(total, k - 1);
    }
  }

  lemma {:induction false} AllIdsOnce(total: nat, n: nat)
    requires 0 < total
    ensures IdsOnShards(total, total, n) == n
  {
    if n == 0 {
      NoIds(total, total);
    } else {
      AllIdsOnce(total, n - 1);
      OneIdMore(total, total, n - 1);
    }
  }

  // The shards together select all runnable tests.
  lemma ShardsSelectAll(suites: seq<TestSuite>, filter: string, alsoRunDisabled: bool, total: nat)
    requires total > 0
    ensures SelectedOnShards(suites, filter, alsoRunDisabled, total, total)
         == RunnableTests(suites, filter, alsoRunDisabled)
  {
    var n := RunnableTests(suites, filter, alsoRunDisabled);
    SelectedIsShare(suites, filter, alsoRunDisabled, total, total);
    AllIdsOnce(total, n);
  }

  // ---------------------------------------------------------------- names and numbers

  predicate NamedDisabled(name: string) {
    "DISABLED_" <= name || exists k :: 0 <= k <= |name| && "/DISABLED_" <= name[k..]
  }

  // What filtering records for a test, from the names, the flags and the running
  // number of the test: disabled by its own name or that of its suite; matching the
  // filter as suite.test; in another shard if the number modulo the total is not the
  // index; and to be run if nothing speaks against it.
  lemma MarkedMeans(test: TestInfo, suiteName: string, o: Options, testId: nat)
    requires ValidSharding(o.sharding)
    ensures
      var marked := Marked(test, suiteName, o, testId);
      && marked.name == test.name
      && (marked.isDisabled <==> NamedDisabled(suiteName) || NamedDisabled(test.name))
      && (marked.matchesFilter <==> Selected(o.filter, suiteName + "." + test.name))
      && (marked.isInAnotherShard <==> o.sharding.Shard? && testId % o.sharding.total != o.sharding.index)
      && (marked.shouldRun <==>
            marked.matchesFilter && !marked.isInAnotherShard && (o.alsoRunDisabled || !marked.isDisabled))
  {
    hide InFilter, Selected;
    DisabledNames(suiteName);
    DisabledNames(test.name);
  }

  // The running numbers: from 0 on, through the suites and their tests in the order
  // of registration, one more after each test that filter and disabling let through.
  lemma TestsAreNumbered(suites: seq<TestSuite>, o: Options, i: nat, j: nat)
    requires i < |suites| && j <= |suites[i].tests|
    ensures i == 0 && j == 0 ==> TestId(suites, o, i, j) == 0
    ensures j < |suites[i].tests| ==>
      var name := suites[i].tests[j].name;
      var counts :=
        && Selected(o.filter, suites[i].name + "." + name)
        && (o.alsoRunDisabled || (!NamedDisabled(suites[i].name) && !NamedDisabled(name)));
      TestId(suites, o, i, j + 1) == TestId(suites, o, i, j) + (if counts then 1 else 0)
    ensures j == |suites[i].tests| && i + 1 < |suites| ==> TestId(suites, o, i + 1, 0) == TestId(suites, o, i, j)
  {
    hide InFilter, Selected;
    DisabledNames(suites[i].name);
    if j < |suites[i].tests| {
      DisabledNames(suites[i].tests[j].name);
    }
  }

  // A suite that filtering has been through: every test of it is marked by its own
  // name and number, and the suite runs if one of them does.
  lemma FilteredSuite(before: seq<TestSuite>, suite: TestSuite, o: Options, i: nat)
    requires ValidSharding(o.sharding) && i < |before|
    requires MarkedUpTo(before, suite, o, i, |before[i].tests|)
    ensures |suite.tests| == |before[i].tests| && suite.name == before[i].name && suite.testIndices == before[i].testIndices
    ensures forall j :: 0 <= j < |suite.tests| ==>
      suite.tests[j] == Marked(before[i].tests[j], before[i].name, o, TestId(before, o, i, j))
    ensures suite.shouldRun <==> exists j :: 0 <= j < |suite.tests| && suite.tests[j].shouldRun
  {
    hide Selected, InFilter, IsDisabled, OnThisShard;
    assert forall j :: 0 <= j < |suite.tests| ==> (suite.tests[j].shouldRun <==> Runs(before, o, i, j));
  }
}
