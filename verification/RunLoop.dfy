// RUN_ALL_TESTS: the run loop over iterations, environments, suites and tests,
// proved against the event sequences of TestRun and TestProgram.
module RunLoop {
  import opened TestRegistry
  import opened TestSelection
  import opened TestRun
  import opened TestProgram
  import opened TestOutcome

  // ---------------------------------------------------------------- flags and filtering

  // rawSeed: the random_seed flag, or the clock if it is 0.  A negative repeat count means forever.
  datatype Flags = Flags(help: bool, listTests: bool, options: Options, failFast: bool, shuffle: bool,
                         recreateEnvironments: bool, repeat: int, rawSeed: nat)

  // Environments are always recreated in an endless run.
  function SettingsOf(flags: Flags, program: Program, r: Registry): Settings {
    Settings(program, r, exists i :: 0 <= i < |r.suites| && r.suites[i].shouldRun, flags.failFast, flags.shuffle,
             flags.recreateEnvironments || flags.repeat < 0, NormalizedSeed(flags.rawSeed))
  }

  // The settings from the flags: an endless run recreates its environments whatever
  // the flag says, and there are tests to run if filtering left a suite to run.
  lemma SettingsMean(flags: Flags, program: Program, r: Registry)
    ensures
      var s := SettingsOf(flags, program, r);
      && s.program == program && s.registry == r && s.failFast == flags.failFast && s.shuffle == flags.shuffle
      && (s.hasTests <==> exists i :: 0 <= i < |r.suites| && r.suites[i].shouldRun)
      && (s.recreateEnvironments <==> flags.recreateEnvironments || flags.repeat < 0)
      && (1 <= flags.rawSeed < 4294967296 ==> s.firstSeed == (flags.rawSeed - 1) % 99999 + 1)
  {
    SeedsInNumbers(0, flags.rawSeed);
  }

  // The registry r' is r with every test and suite marked by the filter; nothing else differs.
  ghost predicate Filtered(r: Registry, r': Registry, o: Options)
    requires ValidSharding(o.sharding)
  {
    && r' == r.(suites := r'.suites) && |r'.suites| == |r.suites|
    && forall i :: 0 <= i < |r.suites| ==> MarkedUpTo(r.suites, r'.suites[i], o, i, |r.suites[i].tests|)
  }

  lemma FilteredFacts(r: Registry, r': Registry, o: Options)
    requires ValidSharding(o.sharding) && Filtered(r, r', o)
    ensures forall i :: 0 <= i < |r.suites| ==> |r'.suites[i].tests| == |r.suites[i].tests|
  {
    forall i | 0 <= i < |r.suites|
      ensures |r'.suites[i].tests| == |r.suites[i].tests|
    {
      MarkedFits(r.suites, r'.suites[i], o, i);
    }
  }

  // ---------------------------------------------------------------- the loops

  predicate TestFailedIn(results: map<(nat, nat), seq<Part>>, i: nat, j: nat) {
    (i, j) in results && Failed(results[(i, j)])
  }

  // TestSuite::Failed.
  ghost predicate FailedIn(results: map<(nat, nat), seq<Part>>, suiteResults: map<nat, seq<Part>>, i: nat, suite: TestSuite) {
    (i in suiteResults && Failed(suiteResults[i]))
    || exists j :: 0 <= j < |suite.tests| && suite.tests[j].shouldRun && TestFailedIn(results, i, j)
  }

  // Nothing is recorded for suite i.
  ghost predicate UntouchedIn(results: map<(nat, nat), seq<Part>>, suiteResults: map<nat, seq<Part>>, i: nat) {
    i !in suiteResults && forall j: nat :: (i, j) !in results
  }

  // Only results of suite i differ.
  ghost predicate OnlySuite(before: map<(nat, nat), seq<Part>>, after: map<(nat, nat), seq<Part>>, i: nat) {
    forall key: (nat, nat) :: key.0 != i ==>
      (key in before <==> key in after) && (key in after ==> after[key] == before[key])
  }

  // What happens to suite i leaves another suite alone.
  lemma OtherSuiteUnchanged(results: map<(nat, nat), seq<Part>>, suiteResults: map<nat, seq<Part>>,
                            results': map<(nat, nat), seq<Part>>, suiteResults': map<nat, seq<Part>>,
                            i: nat, other: nat, suite: TestSuite)
    requires OnlySuite(results, results', i) && other != i
    requires other in suiteResults <==> other in suiteResults'
    requires other in suiteResults ==> suiteResults[other] == suiteResults'[other]
    ensures FailedIn(results, suiteResults, other, suite) <==> FailedIn(results', suiteResults', other, suite)
    ensures UntouchedIn(results, suiteResults, other) ==> UntouchedIn(results', suiteResults', other)
  {
    hide Failed;
    assert forall j: nat :: TestFailedIn(results, other, j) <==> TestFailedIn(results', other, j) by {
      forall j: nat
        ensures TestFailedIn(results, other, j) <==> TestFailedIn(results', other, j)
      {
        var key := (other, j);
        assert key.0 != i;
      }
    }
    forall j: nat | UntouchedIn(results, suiteResults, other)
      ensures (other, j) !in results'
    {
      var key := (other, j);
      assert key !in results && key.0 != i;
    }
  }

  lemma UnshuffleRestores(r: Registry, state: nat)
    requires Invariant(r) && InOrder(r)
    ensures UnshuffleAll(ShuffleAll(r, state)) == r && UnshuffleAll(r) == r
  {
    ShuffleAllFits(r, state);
    UnshuffleAllFits(r);
  }

  lemma OrderOfIteration(s: Settings, n: nat)
    requires Invariant(s.registry)
    ensures IterationOf(s, n) == Iteration(n, s.failFast, s.program,
              if s.hasTests && s.shuffle then ShuffleAll(s.registry, SeedAt(s, n)) else s.registry)
  {
  }

  lemma IterationIsPermuted(s: Settings, n: nat)
    requires Invariant(s.registry)
    ensures Permuted(IterationOf(s, n).registry) && AllInRange(IterationOf(s, n).registry)
  {
    hide Invariant, IterationOf, TestsOnce;
    IterationInRange(s, n);
    RegistryInRange(IterationOf(s, n).registry);
  }

  lemma IterationEventsAppended(before: seq<Event>, s: Settings, n: nat, repeat: int, adHoc: seq<Part>)
    requires Invariant(s.registry) && AllInRange(IterationOf(s, n).registry)
    ensures before + IterationEvents(s, n, repeat, adHoc) ==
            before + [IterationStart(n)] + SetUpEvents(s, n)
            + (if s.hasTests then TestEvents(IterationOf(s, n), AdHocAfterSetUp(s, n, adHoc)) else [])
            + TearDownEvents(s, n, repeat) + [IterationEnd(n)]
  {
    hide Invariant, AllInRange, IterationOf, SetUpEvents, TearDownEvents, TestEvents, AdHocAfterSetUp;
  }

  lemma NoEnvironmentIsDue(s: Settings, n: nat, repeat: int)
    requires !s.hasTests
    ensures SetUpEvents(s, n) == [] && TearDownEvents(s, n, repeat) == []
  {
  }

  lemma PermutedInRange(r: Registry)
    requires Permuted(r)
    ensures AllInRange(r)
  {
  }

  lemma FirstSuite(it: Iteration, fatal: bool)
    requires AllInRange(it.registry)
    ensures SuitesUpTo(it, fatal, 0) == [] && SkippingSuite(it, fatal, 0) == fatal
  {
  }

  // Whether the next suite is skipped.
  lemma NextSuite(it: Iteration, fatal: bool, k: nat)
    requires AllInRange(it.registry) && k < |it.registry.suites|
    ensures SkippingSuite(it, fatal, k) ==> SkippingSuite(it, fatal, k + 1)
    ensures !SkippingSuite(it, fatal, k) ==>
      (SkippingSuite(it, fatal, k + 1) <==> it.failFast && SuiteFailsAt(it, fatal, k))
  {
  }

  lemma NoFixture(it: Iteration, i: nat, j: nat)
    requires !Created(it, i, j)
    ensures FixtureEvents(it, i, j) == [] && TestParts(it, i, j) == it.program.construct(it.n, i, j) + it.program.destruct(it.n, i, j)
  {
  }

  lemma SameResults(results: map<(nat, nat), seq<Part>>, i: nat)
    ensures OnlySuite(results, results, i)
  {
  }

  lemma SameResultsTwice(a: map<(nat, nat), seq<Part>>, b: map<(nat, nat), seq<Part>>, c: map<(nat, nat), seq<Part>>, i: nat)
    requires OnlySuite(a, b, i) && OnlySuite(b, c, i)
    ensures OnlySuite(a, c, i)
  {
  }

  lemma SkippedPartsDoNotFail()
    ensures !Failed([SkipPart]) && VerdictOf([SkipPart]) == Skip
  {
    assert [SkipPart][0] == SkipPart;
  }

  lemma OnceInRange(suite: TestSuite)
    requires TestsOnce(suite)
    ensures InRange(suite)
  {
  }

  lemma FirstTest(it: Iteration, i: nat, suite: TestSuite)
    requires InRange(suite)
    ensures EventsUpTo(it, i, suite, 0) == []
    ensures SkippingTest(it, i, suite, 0) == Failed(it.program.setUpSuite(it.n, i))
  {
  }

  lemma NextTest(it: Iteration, i: nat, suite: TestSuite, k: nat)
    requires InRange(suite) && k < |suite.tests|
    ensures EventsUpTo(it, i, suite, k + 1) == EventsUpTo(it, i, suite, k) + EventsAt(it, i, suite, k)
    ensures SkippingTest(it, i, suite, k + 1) <==>
      SkippingTest(it, i, suite, k)
      || (it.failFast && TestAt(suite, k).shouldRun && Failed(TestParts(it, i, suite.testIndices[k])))
  {
  }

  class TestRunner {
    var trace: seq<Event>
    // Results of the tests and of the suites' own code in this iteration, and
    // what was reported outside of any suite.
    var results: map<(nat, nat), seq<Part>>
    var suiteResults: map<nat, seq<Part>>
    var adHoc: seq<Part>

    constructor (adHoc: seq<Part>)
      ensures trace == [] && this.adHoc == adHoc
    {
      trace, results, suiteResults := [], map[], map[];
      this.adHoc := adHoc;
    }

    predicate TestFailed(i: nat, j: nat)
      reads this`results
    {
      TestFailedIn(results, i, j)
    }

    method RunTest(it: Iteration, i: nat, j: nat, test: TestInfo)
      modifies `trace, `results
      ensures trace == old(trace) + RunTestEvents(it, i, j, test)
      ensures results == if test.shouldRun then old(results)[(i, j) := TestParts(it, i, j)] else old(results)
    {
      if !test.shouldRun {
        if test.isDisabled && test.matchesFilter {
          trace := trace + [TestDisabled(i, j)];
        }
        return;
      }
      hide MayGoOn, FixtureEvents, FixtureParts, VerdictOf;
      ghost var before := trace;
      trace := trace + [TestStart(i, j)];
      trace := trace + [TestCreated(i, j)];
      var parts := it.program.construct(it.n, i, j);
      if MayGoOn(parts) {
        parts := RunFixture(it, i, j, parts);
      } else {
        NoFixture(it, i, j);
      }
      trace := trace + [TestDeleted(i, j)];
      parts := parts + it.program.destruct(it.n, i, j);
      assert parts == TestParts(it, i, j);
      results := results[(i, j) := parts];
      trace := trace + [TestEnd(i, j, VerdictOf(parts))];
      assert trace == before + RunTestEvents(it, i, j, test);
    }

    // Test::Run, on a test object that has reported `parts` when it was created.
    method RunFixture(it: Iteration, i: nat, j: nat, parts: seq<Part>) returns (parts': seq<Part>)
      requires parts == it.program.construct(it.n, i, j) && MayGoOn(parts)
      modifies `trace
      ensures trace == old(trace) + FixtureEvents(it, i, j)
      ensures parts' == parts + FixtureParts(it, i, j)
    {
      hide MayGoOn;
      if it.program.fixtureClass(i, j) != it.program.fixtureClass(i, 0) {
        trace := trace + [MixedFixtures(i, j)];
        return parts + [NonfatalFailure];
      }
      ghost var before := trace;
      trace := trace + [FixtureSetUp(i, j)];
      parts' := parts + it.program.setUp(it.n, i, j);
      if MayGoOn(parts') {
        trace := trace + [TestBody(i, j)];
        parts' := parts' + it.program.body(it.n, i, j);
      }
      // Torn down even if set-up or the body failed.
      trace := trace + [FixtureTearDown(i, j)];
      parts' := parts' + it.program.tearDown(it.n, i, j);
      assert trace == before + FixtureEvents(it, i, j);
      assert parts' == parts + FixtureParts(it, i, j);
    }

    method SkipTest(i: nat, j: nat, test: TestInfo)
      modifies `trace, `results
      ensures trace == old(trace) + SkipTestEvents(i, j, test)
      ensures results == if test.shouldRun then old(results)[(i, j) := [SkipPart]] else old(results)
    {
      SkippedPartsDoNotFail();
      if !test.shouldRun {
        return;
      }
      trace := trace + [TestStart(i, j)];
      results := results[(i, j) := [SkipPart]];
      trace := trace + [TestEnd(i, j, VerdictOf([SkipPart]))];
    }

    // Positions below k of suite i have been dealt with as the iteration says.
    ghost predicate TestsDone(it: Iteration, i: nat, suite: TestSuite, k: nat)
      requires InRange(suite) && k <= |suite.tests|
      reads this`results
    {
      && (forall a :: 0 <= a < k ==>
            (TestFailed(i, suite.testIndices[a]) <==>
               !SkippingTest(it, i, suite, a) && TestAt(suite, a).shouldRun
               && Failed(TestParts(it, i, suite.testIndices[a]))))
      && (forall a :: k <= a < |suite.tests| ==> (i, suite.testIndices[a]) !in results)
    }

    // Runs or skips the test in position k.
    method TestInPosition(it: Iteration, i: nat, suite: TestSuite, k: nat, skip: bool)
      requires TestsOnce(suite) && k < |suite.tests|
      requires TestsDone(it, i, suite, k) && (skip <==> SkippingTest(it, i, suite, k))
      modifies `trace, `results
      ensures TestsDone(it, i, suite, k + 1)
      ensures trace == old(trace) + EventsAt(it, i, suite, k)
      ensures OnlySuite(old(results), results, i)
    {
      hide TestParts, RunTestEvents, SkipTestEvents, SkippingTest;
      SkippedPartsDoNotFail();
      var j := suite.testIndices[k];
      if skip {
        SkipTest(i, j, suite.tests[j]);
      } else {
        RunTest(it, i, j, suite.tests[j]);
      }
    }

    // TestSuite::Failed.
    method SuiteFailed(i: nat, suite: TestSuite) returns (b: bool)
      ensures b <==> SuiteHasFailed(i, suite)
    {
      var failedTestCount := 0;
      for j := 0 to |suite.tests|
        invariant failedTestCount > 0 <==> exists a :: 0 <= a < j && suite.tests[a].shouldRun && TestFailed(i, a)
        invariant failedTestCount >= 0
      {
        if suite.tests[j].shouldRun && TestFailed(i, j) {
          failedTestCount := failedTestCount + 1;
        }
      }
      b := failedTestCount > 0 || (i in suiteResults && Failed(suiteResults[i]));
    }

    // Runs the tests of a suite one after the other.
    method RunTests(it: Iteration, i: nat, suite: TestSuite, skipAll: bool)
      requires TestsOnce(suite) && TestsDone(it, i, suite, 0)
      requires skipAll == Failed(it.program.setUpSuite(it.n, i))
      modifies `trace, `results
      ensures TestsDone(it, i, suite, |suite.tests|)
      ensures trace == old(trace) + EventsUpTo(it, i, suite, |suite.tests|)
      ensures OnlySuite(old(results), results, i)
    {
      hide TestsOnce, EventsUpTo, EventsAt, SkippingTest, Failed, TestParts, TestsDone, OnlySuite;
      assert InRange(suite) by { OnceInRange(suite); }
      FirstTest(it, i, suite);
      SameResults(results, i);
      var k, n := 0, |suite.tests|;
      while k < n
        invariant k <= n && TestsDone(it, i, suite, k)
        invariant k < n ==> (skipAll <==> SkippingTest(it, i, suite, k))
        invariant trace == old(trace) + EventsUpTo(it, i, suite, k)
        invariant OnlySuite(old(results), results, i)
      {
        ghost var results0 := results;
        TestInPosition(it, i, suite, k, skipAll);
        NextTest(it, i, suite, k);
        LastDone(it, i, suite, k + 1);
        SameResultsTwice(old(results), results0, results, i);
        k := k + 1;
        if it.failFast && TestFailed(i, suite.testIndices[k - 1]) {
          // The rest of the suite is skipped.
          while k < n
            invariant 0 < k <= n && TestsDone(it, i, suite, k) && SkippingTest(it, i, suite, k)
            invariant trace == old(trace) + EventsUpTo(it, i, suite, k)
            invariant OnlySuite(old(results), results, i)
          {
            ghost var results1 := results;
            TestInPosition(it, i, suite, k, true);
            NextTest(it, i, suite, k);
            SameResultsTwice(old(results), results1, results, i);
            k := k + 1;
          }
        }
      }
    }

    // What is recorded for the last test dealt with.
    lemma LastDone(it: Iteration, i: nat, suite: TestSuite, k: nat)
      requires InRange(suite) && 0 < k <= |suite.tests| && TestsDone(it, i, suite, k)
      ensures TestFailed(i, suite.testIndices[k - 1]) <==>
        !SkippingTest(it, i, suite, k - 1) && TestAt(suite, k - 1).shouldRun && Failed(TestParts(it, i, suite.testIndices[k - 1]))
    {
    }

    method RunSuite(it: Iteration, i: nat, suite: TestSuite)
      requires TestsOnce(suite)
      requires forall j :: 0 <= j < |suite.tests| ==> (i, j) !in results
      modifies `trace, `results, `suiteResults
      ensures trace == old(trace) + RunSuiteEvents(it, i, suite)
      ensures suite.shouldRun ==> (SuiteHasFailed(i, suite) <==> SuiteFails(it, i, suite))
      ensures !suite.shouldRun ==> results == old(results) && suiteResults == old(suiteResults)
      ensures OnlySuite(old(results), results, i)
      ensures suite.shouldRun ==> i in suiteResults && suiteResults == old(suiteResults)[i := suiteResults[i]]
    {
      hide TestsOnce, OnlySuite, SuiteHasFailed, SuiteFails, Failed, EventsUpTo, TestsDone;
      SameResults(results, i);
      if !suite.shouldRun {
        return;
      }
      NothingDone(it, i, suite);
      ghost var before := trace;
      var setUp := it.program.setUpSuite(it.n, i);
      trace := trace + [SuiteStart(i)];
      suiteResults := suiteResults[i := setUp];
      trace := trace + [SuiteSetUp(i, Failed(setUp))];
      RunTests(it, i, suite, Failed(setUp));
      EndSuite(it, i, suite, setUp);
    }

    // The suite's own clean-up, and its end.
    method EndSuite(it: Iteration, i: nat, suite: TestSuite, setUp: seq<Part>)
      requires TestsOnce(suite) && suite.shouldRun && TestsDone(it, i, suite, |suite.tests|)
      requires setUp == it.program.setUpSuite(it.n, i)
      modifies `trace, `suiteResults
      ensures trace == old(trace) + [SuiteTearDown(i), SuiteEnd(i, SuiteFails(it, i, suite))]
      ensures suiteResults == old(suiteResults)[i := setUp + it.program.tearDownSuite(it.n, i)]
      ensures SuiteHasFailed(i, suite) <==> SuiteFails(it, i, suite)
    {
      hide TestsOnce, SuiteHasFailed, SuiteFails, TestsDone;
      trace := trace + [SuiteTearDown(i)];
      suiteResults := suiteResults[i := setUp + it.program.tearDownSuite(it.n, i)];
      var failed := SuiteFailed(i, suite);
      SuiteFailsByResults(it, i, suite);
      trace := trace + [SuiteEnd(i, failed)];
    }

    ghost predicate SuiteHasFailed(i: nat, suite: TestSuite)
      reads this`results, this`suiteResults
    {
      FailedIn(results, suiteResults, i, suite)
    }

    lemma NothingDone(it: Iteration, i: nat, suite: TestSuite)
      requires TestsOnce(suite) && forall j :: 0 <= j < |suite.tests| ==> (i, j) !in results
      ensures TestsDone(it, i, suite, 0)
    {
    }

    // The failures recorded are those the iteration predicts.
    lemma SuiteFailsByResults(it: Iteration, i: nat, suite: TestSuite)
      requires TestsOnce(suite) && suite.shouldRun && TestsDone(it, i, suite, |suite.tests|)
      requires i in suiteResults && suiteResults[i] == it.program.setUpSuite(it.n, i) + it.program.tearDownSuite(it.n, i)
      ensures SuiteHasFailed(i, suite) <==> SuiteFails(it, i, suite)
    {
      hide Failed, TestParts, SkippingTest, SuiteFails;
      SuiteFailsUnrolled(it, i, suite);
      FailedPrefix(it.program.setUpSuite(it.n, i), it.program.tearDownSuite(it.n, i));
      if j :| 0 <= j < |suite.tests| && suite.tests[j].shouldRun && TestFailedIn(results, i, j) {
        assert j in suite.testIndices;
        var a :| 0 <= a < |suite.tests| && suite.testIndices[a] == j;
        assert TestFailed(i, suite.testIndices[a]) && Fails(it, i, suite, j);
      }
      if j :| 0 <= j < |suite.tests| && Fails(it, i, suite, j) && !Failed(it.program.setUpSuite(it.n, i)) {
        assert j in suite.testIndices;
        var b :| 0 <= b < |suite.tests| && suite.testIndices[b] == j;
        var a := FirstFailure(it, i, suite, b);
        assert TestFailedIn(results, i, suite.testIndices[a]) && suite.tests[suite.testIndices[a]].shouldRun;
      }
    }

    method SkipSuite(it: Iteration, i: nat, suite: TestSuite)
      requires TestsOnce(suite)
      requires (forall j :: 0 <= j < |suite.tests| ==> (i, j) !in results) && i !in suiteResults
      modifies `trace, `results
      ensures trace == old(trace) + SkipSuiteEvents(i, suite)
      ensures !SuiteHasFailed(i, suite) && OnlySuite(old(results), results, i)
      ensures !suite.shouldRun ==> results == old(results)
    {
      hide SkipTestEvents, Failed, VerdictOf;
      assert InRange(suite);
      SkippedPartsDoNotFail();
      if !suite.shouldRun {
        return;
      }
      ghost var before := trace;
      trace := trace + [SuiteStart(i)];
      ghost var start := trace;
      for k := 0 to |suite.tests|
        invariant trace == start + SkipEventsUpTo(i, suite, k)
        invariant forall j :: 0 <= j < |suite.tests| && (i, j) in results ==> results[(i, j)] == [SkipPart]
        invariant OnlySuite(old(results), results, i)
      {
        SkipTest(i, suite.testIndices[k], suite.tests[suite.testIndices[k]]);
      }
      trace := trace + [SuiteEnd(i, false)];
      assert trace == before + SkipSuiteEvents(i, suite);
    }

    // Positions below k have been dealt with as the iteration says; the rest is untouched.
    ghost predicate SuitesDone(it: Iteration, fatal: bool, k: nat)
      requires AllInRange(it.registry) && k <= |it.registry.suites|
      reads this`results, this`suiteResults
    {
      var r := it.registry;
      && (forall a :: 0 <= a < k ==> (SuiteHasFailed(r.indices[a], r.suites[r.indices[a]]) <==> SuiteFailsAt(it, fatal, a)))
      && (forall a :: k <= a < |r.suites| ==> Untouched(r.indices[a]))
    }

    ghost predicate Untouched(i: nat)
      reads this`results, this`suiteResults
    {
      UntouchedIn(results, suiteResults, i)
    }

    // Runs or skips the suite in position k.
    method SuiteInPosition(it: Iteration, fatal: bool, k: nat, skip: bool)
      requires Permuted(it.registry) && k < |it.registry.suites|
      requires SuitesDone(it, fatal, k) && (skip <==> SkippingSuite(it, fatal, k))
      modifies `trace, `results, `suiteResults
      ensures SuitesDone(it, fatal, k + 1)
      ensures trace == old(trace) + EventsInPosition(it, fatal, k)
    {
      hide RunSuiteEvents, SkipSuiteEvents, SuiteFails, SkippingSuite, Failed, TestsOnce, InRange;
      ghost var r := it.registry;
      var i := it.registry.indices[k];
      var suite := it.registry.suites[i];
      assert Untouched(i);
      NothingFailed(i, suite);
      ghost var results0, suiteResults0 := results, suiteResults;
      if skip {
        SkipSuite(it, i, suite);
      } else {
        RunSuite(it, i, suite);
      }
      forall a | 0 <= a < |r.suites| && a != k
        ensures FailedIn(results, suiteResults, r.indices[a], r.suites[r.indices[a]])
           <==> FailedIn(results0, suiteResults0, r.indices[a], r.suites[r.indices[a]])
        ensures UntouchedIn(results0, suiteResults0, r.indices[a]) ==> UntouchedIn(results, suiteResults, r.indices[a])
      {
        assert r.indices[a] != i;
        OtherSuiteUnchanged(results0, suiteResults0, results, suiteResults, i, r.indices[a], r.suites[r.indices[a]]);
      }
    }

    lemma NothingFailed(i: nat, suite: TestSuite)
      requires Untouched(i)
      ensures !SuiteHasFailed(i, suite)
    {
    }

    // Skips the suites from position k on.
    method SkipRemaining(it: Iteration, fatal: bool, k0: nat, ghost start: seq<Event>)
      requires Permuted(it.registry) && k0 <= |it.registry.suites|
      requires SuitesDone(it, fatal, k0) && SkippingSuite(it, fatal, k0) && trace == start + SuitesUpTo(it, fatal, k0)
      modifies `trace, `results, `suiteResults
      ensures SuitesDone(it, fatal, |it.registry.suites|)
      ensures trace == start + SuitesUpTo(it, fatal, |it.registry.suites|)
    {
      hide EventsInPosition, SuitesDone, SuiteFailsAt, SuitesUpTo, SkippingSuite;
      for k := k0 to |it.registry.suites|
        invariant SuitesDone(it, fatal, k) && SkippingSuite(it, fatal, k)
        invariant trace == start + SuitesUpTo(it, fatal, k)
      {
        SuiteInPosition(it, fatal, k, true);
        NextSuite(it, fatal, k);
        SuitesStep(it, fatal, k + 1);
      }
    }

    // Runs the suites one after the other, or skips them all after a fatal failure.
    method RunSuites(it: Iteration, fatal: bool)
      requires Permuted(it.registry) && results == map[] && suiteResults == map[]
      modifies `trace, `results, `suiteResults
      ensures trace == old(trace) + SuitesUpTo(it, fatal, |it.registry.suites|)
      ensures SuitesDone(it, fatal, |it.registry.suites|)
    {
      hide EventsInPosition, SuitesDone, FailedIn, SuiteFailsAt, SuitesUpTo, SkippingSuite;
      var k, n := 0, |it.registry.suites|;
      FirstSuite(it, fatal);
      NoSuiteDone(it, fatal);
      if fatal {
        SkipRemaining(it, fatal, 0, trace);
        return;
      }
      while k < n
        invariant k <= n && SuitesDone(it, fatal, k)
        invariant k < n ==> !SkippingSuite(it, fatal, k)
        invariant trace == old(trace) + SuitesUpTo(it, fatal, k)
      {
        SuiteInPosition(it, fatal, k, false);
        NextSuite(it, fatal, k);
        SuitesStep(it, fatal, k + 1);
        LastSuiteDone(it, fatal, k + 1);
        var i := it.registry.indices[k];
        k := k + 1;
        var failed := SuiteFailed(i, it.registry.suites[i]);
        if it.failFast && failed {
          SkipRemaining(it, fatal, k, old(trace));
          return;
        }
      }
    }

    lemma NoSuiteDone(it: Iteration, fatal: bool)
      requires AllInRange(it.registry) && results == map[] && suiteResults == map[]
      ensures SuitesDone(it, fatal, 0)
    {
    }

    lemma LastSuiteDone(it: Iteration, fatal: bool, k: nat)
      requires AllInRange(it.registry) && 0 < k <= |it.registry.suites| && SuitesDone(it, fatal, k)
      ensures var i := it.registry.indices[k - 1];
        SuiteHasFailed(i, it.registry.suites[i]) <==> SuiteFailsAt(it, fatal, k - 1)
    {
    }

    // ForEach(environments_, SetUpEnvironment).
    method SetUpEnvironments(s: Settings, n: nat)
      modifies `trace, `adHoc
      ensures trace == old(trace) + SetUps(s.program.environments)
      ensures adHoc == old(adHoc) + SetUpParts(s.program, n, s.program.environments)
    {
      for e := 0 to s.program.environments
        invariant trace == old(trace) + SetUps(e)
        invariant adHoc == old(adHoc) + SetUpParts(s.program, n, e)
      {
        trace := trace + [SetUp(e)];
        adHoc := adHoc + s.program.setUpEnvironment(n, e);
      }
    }

    // The same backwards with TearDown.
    method TearDownEnvironments(s: Settings, n: nat)
      modifies `trace, `adHoc
      ensures trace == old(trace) + TearDowns(s.program.environments)
      ensures adHoc == old(adHoc) + TearDownParts(s.program, n, s.program.environments)
    {
      for e := s.program.environments downto 0
        invariant trace + TearDowns(e) == old(trace) + TearDowns(s.program.environments)
        invariant adHoc + TearDownParts(s.program, n, e) == old(adHoc) + TearDownParts(s.program, n, s.program.environments)
      {
        ghost var trace0, adHoc0 := trace, adHoc;
        trace := trace + [TearDown(e)];
        adHoc := adHoc + s.program.tearDownEnvironment(n, e);
        assert trace + TearDowns(e) == trace0 + TearDowns(e + 1);
        assert adHoc + TearDownParts(s.program, n, e) == adHoc0 + TearDownParts(s.program, n, e + 1);
      }
    }

    // The tests of an iteration, as far as the results of global set-up permit.
    method RunTestsUnlessSkipped(it: Iteration)
      requires Permuted(it.registry) && results == map[] && suiteResults == map[]
      modifies `trace, `results, `suiteResults
      ensures trace == old(trace) + TestEvents(it, adHoc)
      ensures forall i :: 0 <= i < |it.registry.suites| ==>
        (SuiteHasFailed(i, it.registry.suites[i]) <==> SuiteFailsGiven(it, adHoc, i))
    {
      hide Permuted, SuitesUpTo, SuitesDone, FailedIn, HasFatalFailure, Skipped;
      assert AllInRange(it.registry) by { PermutedInRange(it.registry); }
      NothingRecorded();
      if !Skipped(adHoc) {
        RunSuites(it, HasFatalFailure(adHoc));
        SuitesDoneMeans(it, adHoc);
      }
    }

    lemma SuitesDoneMeans(it: Iteration, adHoc: seq<Part>)
      requires Permuted(it.registry) && !Skipped(adHoc)
      requires SuitesDone(it, HasFatalFailure(adHoc), |it.registry.suites|)
      ensures forall i :: 0 <= i < |it.registry.suites| ==>
        (SuiteHasFailed(i, it.registry.suites[i]) <==> SuiteFailsGiven(it, adHoc, i))
    {
      hide SuiteFailsAt, HasFatalFailure, Skipped, FailedIn;
      forall i | 0 <= i < |it.registry.suites|
        ensures SuiteHasFailed(i, it.registry.suites[i]) <==> SuiteFailsGiven(it, adHoc, i)
      {
        assert i in it.registry.indices;
        var a :| 0 <= a < |it.registry.suites| && it.registry.indices[a] == i;
      }
    }

    method SetUpIfDue(s: Settings, n: nat)
      requires s.hasTests
      modifies `trace, `adHoc
      ensures trace == old(trace) + SetUpEvents(s, n) && adHoc == AdHocAfterSetUp(s, n, old(adHoc))
    {
      hide SetUps, SetUpParts;
      if n == 0 || s.recreateEnvironments {
        trace := trace + [EnvironmentsSetUpStart];
        SetUpEnvironments(s, n);
        trace := trace + [EnvironmentsSetUpEnd];
      }
    }

    method TearDownIfDue(s: Settings, n: nat, repeat: int)
      requires s.hasTests
      modifies `trace, `adHoc
      ensures trace == old(trace) + TearDownEvents(s, n, repeat)
      ensures adHoc == old(adHoc) + (if TearsDown(s, n, repeat) then TearDownParts(s.program, n, s.program.environments) else [])
    {
      hide TearDowns, TearDownParts;
      if n + 1 == repeat || s.recreateEnvironments {
        trace := trace + [EnvironmentsTearDownStart];
        TearDownEnvironments(s, n);
        trace := trace + [EnvironmentsTearDownEnd];
      }
    }

    // One iteration, on the order the registry has now.
    method RunIteration(s: Settings, n: nat, repeat: int, registry: Registry)
      requires Invariant(s.registry) && registry == IterationOf(s, n).registry && Permuted(registry)
      modifies this
      ensures AllInRange(IterationOf(s, n).registry)
      ensures trace == old(trace) + IterationEvents(s, n, repeat, old(adHoc))
      ensures adHoc == AdHocAfter(s, n, repeat, old(adHoc))
      ensures forall i :: 0 <= i < |registry.suites| ==>
        (SuiteHasFailed(i, registry.suites[i]) <==> SuiteFailsIn(s, n, old(adHoc), i))
    {
      hide Invariant, Permuted, IterationEvents, SetUps, TearDowns, TestEvents, FailedIn, SuiteFailsGiven;
      hide SetUpParts, TearDownParts, ShuffleAll, SetUpEvents, TearDownEvents;
      assert AllInRange(registry) by { PermutedInRange(registry); }
      ghost var before, adHoc0 := trace, adHoc;
      var it := Iteration(n, s.failFast, s.program, registry);
      results, suiteResults := map[], map[];
      NothingRecorded();
      IterationEventsAppended(before, s, n, repeat, adHoc0);
      trace := trace + [IterationStart(n)];
      ghost var start := trace;
      if s.hasTests {
        SetUpIfDue(s, n);
        RunTestsUnlessSkipped(it);
        TearDownIfDue(s, n, repeat);
      } else {
        NoEnvironmentIsDue(s, n, repeat);
        assert trace == start + SetUpEvents(s, n) + [] + TearDownEvents(s, n, repeat);
      }
      trace := trace + [IterationEnd(n)];
    }

    // UnitTestImpl::Passed: no suite failed and nothing outside of suites did.
    method Passed(registry: Registry) returns (b: bool)
      ensures b <==>
        && !Failed(adHoc)
        && forall i :: 0 <= i < |registry.suites| && registry.suites[i].shouldRun ==> !SuiteHasFailed(i, registry.suites[i])
    {
      var failedTestSuiteCount := 0;
      for i := 0 to |registry.suites|
        invariant failedTestSuiteCount >= 0
        invariant failedTestSuiteCount == 0 <==>
          forall a :: 0 <= a < i && registry.suites[a].shouldRun ==> !SuiteHasFailed(a, registry.suites[a])
      {
        var failed := SuiteFailed(i, registry.suites[i]);
        if registry.suites[i].shouldRun && failed {
          failedTestSuiteCount := failedTestSuiteCount + 1;
        }
      }
      b := !(failedTestSuiteCount > 0 || Failed(adHoc));
    }

    // One iteration and whether it passed.
    method RunAndJudge(s: Settings, n: nat, repeat: int, registry: Registry) returns (passed: bool)
      requires Invariant(s.registry) && registry == IterationOf(s, n).registry && Permuted(registry)
      modifies this
      ensures AllInRange(IterationOf(s, n).registry)
      ensures trace == old(trace) + IterationEvents(s, n, repeat, old(adHoc))
      ensures adHoc == AdHocAfter(s, n, repeat, old(adHoc))
      ensures passed <==> IterationPasses(s, n, repeat, old(adHoc))
    {
      hide Invariant, IterationOf, IterationEvents, Permuted, AdHocAfter, AllInRange, SuiteFailsIn, FailedIn, Failed;
      RunIteration(s, n, repeat, registry);
      passed := Passed(registry);
    }

    // Runs k iterations of `repeat`; the registry is left in the order of registration.
    method RunIterations(impl: UnitTestImpl, s: Settings, repeat: int, k: nat) returns (success: bool)
      requires impl.Valid() && InOrder(impl.View()) && s.registry == impl.View()
      modifies this, impl, impl.random
      ensures impl.Valid() && impl.View() == old(impl.View())
      ensures trace == old(trace) + EventsOfRun(s, repeat, old(adHoc), k)
      ensures adHoc == AdHocUpTo(s, repeat, old(adHoc), k)
      ensures success <==> forall n :: 0 <= n < k ==> PassesIn(s, n, repeat, old(adHoc))
    {
      hide Invariant, InOrder, IterationOf, IterationEvents, Permuted, AdHocAfter, ShuffleAll, UnshuffleAll, IterationPasses;
      hide EventsOfRun, PassesIn;
      RunUpTo(s, repeat, adHoc, 0);
      var failed := false;
      var randomSeed := s.firstSeed;
      for n := 0 to k
        invariant impl.Valid() && impl.View() == s.registry
        invariant s.shuffle ==> randomSeed == SeedAt(s, n)
        invariant trace == old(trace) + EventsOfRun(s, repeat, old(adHoc), n)
        invariant adHoc == AdHocUpTo(s, repeat, old(adHoc), n)
        invariant !failed <==> forall m :: 0 <= m < n ==> PassesIn(s, m, repeat, old(adHoc))
      {
        UnshuffleRestores(s.registry, SeedAt(s, n));
        if s.hasTests && s.shuffle {
          impl.random.Reseed(randomSeed);
          impl.ShuffleTests();
        }
        OrderOfIteration(s, n);
        IterationIsPermuted(s, n);
        RunUpTo(s, repeat, old(adHoc), n + 1);
        PassesInIs(s, n, repeat, old(adHoc), adHoc);
        var passed := RunAndJudge(s, n, repeat, impl.View());
        if !passed {
          failed := true;
        }
        impl.UnshuffleTests();
        if s.shuffle {
          randomSeed := NextSeed(randomSeed);
        }
      }
      success := !failed;
    }

    // The iterations, and whether no user code that ran in them reported a failure.
    method RunSelected(impl: UnitTestImpl, s: Settings, repeat: int, k: nat) returns (success: bool)
      requires impl.Valid() && InOrder(impl.View()) && s.registry == impl.View() && Selects(s)
      modifies this, impl, impl.random
      ensures impl.Valid() && impl.View() == old(impl.View())
      ensures trace == old(trace) + EventsOfRun(s, repeat, old(adHoc), k)
      ensures success <==>
        k == 0 || (!Failed(old(adHoc)) && forall n :: 0 <= n < k ==> NothingFailsIn(s, n, repeat, old(adHoc)))
    {
      hide Invariant, InOrder, EventsOfRun, PassesIn, NothingFailsIn, Failed, Selects;
      ghost var adHoc0 := adHoc;
      success := RunIterations(impl, s, repeat, k);
      if k > 0 {
        RunPassesExactlyWhen(s, repeat, adHoc0, k);
      }
    }

    // Filters the tests, then runs `flags.repeat` iterations, or - since an endless
    // run has no end to speak of - the first k of them if the count is negative.
    method RunAllTests(impl: UnitTestImpl, flags: Flags, program: Program, k: nat) returns (success: bool)
      requires impl.Valid() && InOrder(impl.View()) && ValidSharding(flags.options.sharding)
      requires flags.repeat >= 0 ==> k == flags.repeat
      modifies this, impl, impl.random
      ensures impl.Valid()
      ensures flags.help ==> impl.View() == old(impl.View())
      ensures !flags.help ==> Filtered(old(impl.View()), impl.View(), flags.options)
      ensures flags.help || flags.listTests ==> success && trace == old(trace) && adHoc == old(adHoc)
      ensures !flags.help && !flags.listTests ==>
        var s := SettingsOf(flags, program, impl.View());
        && Selects(s)
        && trace == old(trace) + EventsOfRun(s, flags.repeat, old(adHoc), k)
        && (success <==>
              k == 0 || (!Failed(old(adHoc)) && forall n :: 0 <= n < k ==> NothingFailsIn(s, n, flags.repeat, old(adHoc))))
    {
      hide Invariant, InOrder, EventsOfRun, NothingFailsIn, Failed, ShouldRunFits, MarkedUpTo;
      if flags.help {
        return true;
      }
      ghost var r := impl.View();
      var numSelected := FilterTests(impl, flags.options);
      FilteredFacts(r, impl.View(), flags.options);
      if flags.listTests {
        return true;
      }
      var s := Settings(program, impl.View(), numSelected > 0, flags.failFast, flags.shuffle,
                        flags.recreateEnvironments || flags.repeat < 0, NormalizedSeed(flags.rawSeed));
      assert s == SettingsOf(flags, program, impl.View());
      success := RunSelected(impl, s, flags.repeat, k);
    }

    lemma NothingRecorded()
      requires results == map[] && suiteResults == map[]
      ensures forall i, suite :: !SuiteHasFailed(i, suite)
    {
    }
  }
}
