// How tests, suites and iterations end, read off the trace alone: which calls of
// user code occur, and what those calls report.
module TestOutcome {
  import opened TestRegistry
  import opened TestRun
  import opened TestProgram

  // ---------------------------------------------------------------- results

  // The results in terms of the parts that occur.
  lemma ResultsMean(parts: seq<Part>)
    ensures Failed(parts) <==> NonfatalFailure in parts || FatalFailure in parts
    ensures HasFatalFailure(parts) <==> FatalFailure in parts
    ensures Skipped(parts) <==> SkipPart in parts && NonfatalFailure !in parts && FatalFailure !in parts
    ensures VerdictOf(parts) ==
            if NonfatalFailure in parts || FatalFailure in parts then Fail else if SkipPart in parts then Skip else Pass
  {
  }

  lemma FailedConcat(a: seq<Part>, b: seq<Part>)
    ensures Failed(a + b) <==> Failed(a) || Failed(b)
  {
    ResultsMean(a);
    ResultsMean(b);
    ResultsMean(a + b);
    hide Failed;
  }

  lemma TestPartsOf(it: Iteration, i: nat, j: nat, part: Part)
    ensures part in TestParts(it, i, j) <==>
      || part in it.program.construct(it.n, i, j)
      || (Created(it, i, j) && !SameFixtureClass(it, i, j) && part == NonfatalFailure)
      || (FixtureRuns(it, i, j) && part in it.program.setUp(it.n, i, j))
      || (BodyRuns(it, i, j) && part in it.program.body(it.n, i, j))
      || (FixtureRuns(it, i, j) && part in it.program.tearDown(it.n, i, j))
      || part in it.program.destruct(it.n, i, j)
  {
    hide MayGoOn, SameFixtureClass;
  }

  // ---------------------------------------------------------------- what occurs in the trace

  // Every suite and every test stands in one position, and suites run exactly for their tests.
  ghost predicate Runnable(r: Registry) {
    Permuted(r) && forall i :: 0 <= i < |r.suites| ==> ShouldRunFits(r.suites[i])
  }

  predicate HasSuite(e: Event) {
    e.SuiteStart? || e.SuiteSetUp? || e.SuiteTearDown? || e.SuiteEnd? || e.TestDisabled? || OfTest(e)
  }

  lemma InOneTest(it: Iteration, i: nat, j: nat, test: TestInfo, e: Event)
    ensures e in RunTestEvents(it, i, j, test) || e in SkipTestEvents(i, j, test) ==>
      (OfTest(e) || e.TestDisabled?) && e.suite == i && e.test == j
  {
    hide Created, SameFixtureClass, BodyRuns, TestParts, VerdictOf;
  }

  // What occurs in a suite's tests is about one of them.
  lemma {:induction false} InTests(it: Iteration, i: nat, suite: TestSuite, k: nat, e: Event)
    requires InRange(suite) && k <= |suite.tests|
    ensures e in EventsUpTo(it, i, suite, k) || e in SkipEventsUpTo(i, suite, k) ==>
      (OfTest(e) || e.TestDisabled?) && e.suite == i && exists a :: 0 <= a < k && suite.testIndices[a] == e.test
  {
    hide RunTestEvents, SkipTestEvents, SkippingTest;
    if k == 0 {
    } else {
      InTests(it, i, suite, k - 1, e);
      InOneTest(it, i, suite.testIndices[k - 1], TestAt(suite, k - 1), e);
    }
  }

  // The events of a suite other than those of its tests.
  lemma InOneSuite(it: Iteration, i: nat, suite: TestSuite, e: Event)
    requires InRange(suite) && HasSuite(e)
    ensures e in RunSuiteEvents(it, i, suite) || e in SkipSuiteEvents(i, suite) ==> e.suite == i
    ensures !OfTest(e) && !e.TestDisabled? ==>
      (e in RunSuiteEvents(it, i, suite) <==>
         && suite.shouldRun
         && (e == SuiteStart(i) || e == SuiteSetUp(i, Failed(it.program.setUpSuite(it.n, i)))
             || e == SuiteTearDown(i) || e == SuiteEnd(i, SuiteFails(it, i, suite))))
    ensures !OfTest(e) && !e.TestDisabled? ==>
      (e in SkipSuiteEvents(i, suite) <==> suite.shouldRun && (e == SuiteStart(i) || e == SuiteEnd(i, false)))
    ensures OfTest(e) && (e in RunSuiteEvents(it, i, suite) || e in SkipSuiteEvents(i, suite)) ==>
      exists a :: 0 <= a < |suite.tests| && suite.testIndices[a] == e.test
  {
    hide EventsUpTo, SkipEventsUpTo, SuiteFails, Failed;
    InTests(it, i, suite, |suite.tests|, e);
  }

  lemma {:induction false} InSuites(it: Iteration, fatal: bool, n: nat, e: Event)
    requires AllInRange(it.registry) && n <= |it.registry.suites|
    ensures e in SuitesUpTo(it, fatal, n) <==> exists m :: 0 <= m < n && e in EventsInPosition(it, fatal, m)
  {
    hide SuitesUpTo, EventsInPosition;
    SuitesStep(it, fatal, n);
    if n == 0 {
    } else {
      InSuites(it, fatal, n - 1, e);
    }
  }

  lemma InPosition(it: Iteration, fatal: bool, m: nat, e: Event)
    requires AllInRange(it.registry) && m < |it.registry.suites| && HasSuite(e)
    ensures e in EventsInPosition(it, fatal, m) ==> e.suite == it.registry.indices[m]
    ensures OfTest(e) && e in EventsInPosition(it, fatal, m) ==>
      exists a :: 0 <= a < |it.registry.suites[e.suite].tests| && it.registry.suites[e.suite].testIndices[a] == e.test
  {
    hide RunSuiteEvents, SkipSuiteEvents, SkippingSuite, OfTest;
    InOneSuite(it, it.registry.indices[m], it.registry.suites[it.registry.indices[m]], e);
  }

  // What occurs in an iteration is about a suite, and about a test of it.
  lemma Placed(it: Iteration, fatal: bool, e: Event)
    requires AllInRange(it.registry) && HasSuite(e) && e in SuitesUpTo(it, fatal, |it.registry.suites|)
    ensures exists k :: 0 <= k < |it.registry.suites| && it.registry.indices[k] == e.suite
    ensures OfTest(e) ==>
      exists a :: 0 <= a < |it.registry.suites[e.suite].tests| && it.registry.suites[e.suite].testIndices[a] == e.test
  {
    hide SuitesUpTo, EventsInPosition, OfTest;
    InSuites(it, fatal, |it.registry.suites|, e);
    var m :| 0 <= m < |it.registry.suites| && e in EventsInPosition(it, fatal, m);
    InPosition(it, fatal, m, e);
  }

  lemma PermutedOnce(r: Registry, i: nat)
    requires Permuted(r) && i < |r.suites|
    ensures TestsOnce(r.suites[i]) && InRange(r.suites[i])
  {
  }

  // The frame of the suite in position k.
  lemma SuiteOccurs(it: Iteration, fatal: bool, k: nat, e: Event)
    requires Permuted(it.registry) && k < |it.registry.suites|
    requires HasSuite(e) && !OfTest(e) && !e.TestDisabled? && e.suite == it.registry.indices[k]
    ensures
      var i := it.registry.indices[k];
      var suite := it.registry.suites[i];
      var runs := !SkippingSuite(it, fatal, k);
      e in SuitesUpTo(it, fatal, |it.registry.suites|) <==>
        && suite.shouldRun
        && match e
           case SuiteStart(_) => true
           case SuiteSetUp(_, failed) => runs && failed == Failed(it.program.setUpSuite(it.n, i))
           case SuiteTearDown(_) => runs
           case SuiteEnd(_, failed) => failed == (runs && SuiteFails(it, i, suite))
           case _ => false
  {
    hide SuitesUpTo, SkippingSuite, RunSuiteEvents, SkipSuiteEvents, SuiteFails, Failed, TestsOnce;
    var i := it.registry.indices[k];
    InSuites(it, fatal, |it.registry.suites|, e);
    forall m | 0 <= m < |it.registry.suites| && e in EventsInPosition(it, fatal, m)
      ensures m == k
    {
      InPosition(it, fatal, m, e);
    }
    assert e in SuitesUpTo(it, fatal, |it.registry.suites|) <==> e in EventsInPosition(it, fatal, k);
    PermutedOnce(it.registry, i);
    InOneSuite(it, i, it.registry.suites[i], e);
  }

  ghost predicate RunsAt(it: Iteration, fatal: bool, k: nat, a: nat)
    requires Permuted(it.registry) && k < |it.registry.suites|
    requires a < |it.registry.suites[it.registry.indices[k]].tests|
  {
    var i := it.registry.indices[k];
    PermutedOnce(it.registry, i);
    !SkippingSuite(it, fatal, k) && !SkippingTest(it, i, it.registry.suites[i], a)
  }

  lemma NotDue(it: Iteration, e: Event, test: TestInfo, runs: bool)
    requires OfTest(e) && !test.shouldRun
    ensures !Due(it, e, test, runs)
  {
  }

  // An event of the test in position a of the suite in position k.
  lemma TestOccurs(it: Iteration, fatal: bool, k: nat, a: nat, e: Event)
    requires Runnable(it.registry) && k < |it.registry.suites|
    requires a < |it.registry.suites[it.registry.indices[k]].tests|
    requires InRange(it.registry.suites[it.registry.indices[k]])
    requires IsOf(e, it.registry.indices[k], it.registry.suites[it.registry.indices[k]].testIndices[a])
    ensures e in SuitesUpTo(it, fatal, |it.registry.suites|) <==>
      Due(it, e, TestAt(it.registry.suites[it.registry.indices[k]], a), RunsAt(it, fatal, k, a))
  {
    hide SuitesUpTo, SkippingSuite, SkippingTest, Due, TestsOnce, ShouldRunFits, OfTest;
    var suite := it.registry.suites[it.registry.indices[k]];
    CountInSuites(it, fatal, e, k, |it.registry.suites|, a);
    assert ShouldRunFits(suite);
    if TestAt(suite, a).shouldRun {
      SelectedMakesRun(suite, suite.testIndices[a]);
    } else {
      NotDue(it, e, TestAt(suite, a), RunsAt(it, fatal, k, a));
    }
  }

  // ---------------------------------------------------------------- one test

  // Which calls of user code occur for test j of suite i, given whether it is created.
  ghost predicate CallsInTurn(p: Program, n: nat, events: seq<Event>, i: nat, j: nat) {
    var constructed, setUp := p.construct(n, i, j), p.setUp(n, i, j);
    var goesOn := TestCreated(i, j) in events && !HasFatalFailure(constructed) && !Skipped(constructed);
    var sameClass := p.fixtureClass(i, j) == p.fixtureClass(i, 0);
    && (MixedFixtures(i, j) in events <==> goesOn && !sameClass)
    && (FixtureSetUp(i, j) in events <==> goesOn && sameClass)
    && (TestBody(i, j) in events <==>
          FixtureSetUp(i, j) in events && !HasFatalFailure(constructed + setUp) && !Skipped(constructed + setUp))
    && (FixtureTearDown(i, j) in events <==> FixtureSetUp(i, j) in events)
    && (TestDeleted(i, j) in events <==> TestCreated(i, j) in events)
  }

  // Some call that occurs for the test reports the part.
  ghost predicate TestReports(p: Program, n: nat, events: seq<Event>, i: nat, j: nat, part: Part) {
    || (TestCreated(i, j) in events && part in p.construct(n, i, j))
    || (MixedFixtures(i, j) in events && part == NonfatalFailure)
    || (FixtureSetUp(i, j) in events && part in p.setUp(n, i, j))
    || (TestBody(i, j) in events && part in p.body(n, i, j))
    || (FixtureTearDown(i, j) in events && part in p.tearDown(n, i, j))
    || (TestDeleted(i, j) in events && part in p.destruct(n, i, j))
  }

  lemma CallsAreInTurn(it: Iteration, fatal: bool, k: nat, a: nat)
    requires Runnable(it.registry) && k < |it.registry.suites|
    requires a < |it.registry.suites[it.registry.indices[k]].tests|
    requires InRange(it.registry.suites[it.registry.indices[k]])
    ensures
      var i := it.registry.indices[k];
      CallsInTurn(it.program, it.n, SuitesUpTo(it, fatal, |it.registry.suites|), i, it.registry.suites[i].testIndices[a])
  {
    hide SuitesUpTo, RunsAt, TestsOnce, ShouldRunFits, HasFatalFailure, Skipped;
    var i := it.registry.indices[k];
    var j := it.registry.suites[i].testIndices[a];
    TestOccurs(it, fatal, k, a, TestCreated(i, j));
    TestOccurs(it, fatal, k, a, MixedFixtures(i, j));
    TestOccurs(it, fatal, k, a, FixtureSetUp(i, j));
    TestOccurs(it, fatal, k, a, TestBody(i, j));
    TestOccurs(it, fatal, k, a, FixtureTearDown(i, j));
    TestOccurs(it, fatal, k, a, TestDeleted(i, j));
  }

  // For a test that is created, what the calls that occur report is what it reports.
  lemma ReportsItsParts(it: Iteration, events: seq<Event>, i: nat, j: nat, part: Part)
    requires CallsInTurn(it.program, it.n, events, i, j)
    ensures TestReports(it.program, it.n, events, i, j, part) <==> TestCreated(i, j) in events && part in TestParts(it, i, j)
  {
    hide HasFatalFailure, Skipped, TestParts;
    TestPartsOf(it, i, j, part);
  }

  lemma EndsAsReported(it: Iteration, fatal: bool, k: nat, a: nat, verdict: Verdict)
    requires Runnable(it.registry) && k < |it.registry.suites|
    requires a < |it.registry.suites[it.registry.indices[k]].tests|
    requires InRange(it.registry.suites[it.registry.indices[k]])
    ensures
      var p, n, events := it.program, it.n, SuitesUpTo(it, fatal, |it.registry.suites|);
      var i := it.registry.indices[k];
      var j := it.registry.suites[i].testIndices[a];
      var failed := TestReports(p, n, events, i, j, NonfatalFailure) || TestReports(p, n, events, i, j, FatalFailure);
      var skipped := TestCreated(i, j) !in events || TestReports(p, n, events, i, j, SkipPart);
      TestEnd(i, j, verdict) in events <==>
        TestStart(i, j) in events && verdict == if failed then Fail else if skipped then Skip else Pass
  {
    hide SuitesUpTo, RunsAt, TestsOnce, ShouldRunFits, VerdictOf, TestParts, TestReports, CallsInTurn;
    var events := SuitesUpTo(it, fatal, |it.registry.suites|);
    var i := it.registry.indices[k];
    var j := it.registry.suites[i].testIndices[a];
    TestOccurs(it, fatal, k, a, TestCreated(i, j));
    TestOccurs(it, fatal, k, a, TestStart(i, j));
    TestOccurs(it, fatal, k, a, TestEnd(i, j, verdict));
    CallsAreInTurn(it, fatal, k, a);
    ReportsItsParts(it, events, i, j, NonfatalFailure);
    ReportsItsParts(it, events, i, j, FatalFailure);
    ReportsItsParts(it, events, i, j, SkipPart);
    ResultsMean(TestParts(it, i, j));
  }

  lemma FailsAt(it: Iteration, fatal: bool, k: nat, a: nat)
    requires Runnable(it.registry) && k < |it.registry.suites|
    requires a < |it.registry.suites[it.registry.indices[k]].tests|
    requires InRange(it.registry.suites[it.registry.indices[k]])
    ensures
      var i := it.registry.indices[k];
      var suite := it.registry.suites[i];
      TestEnd(i, suite.testIndices[a], Fail) in SuitesUpTo(it, fatal, |it.registry.suites|) <==>
        RunsAt(it, fatal, k, a) && Fails(it, i, suite, suite.testIndices[a])
  {
    hide SuitesUpTo, RunsAt, TestsOnce, ShouldRunFits, TestParts, Failed, Skipped;
    var i := it.registry.indices[k];
    TestOccurs(it, fatal, k, a, TestEnd(i, it.registry.suites[i].testIndices[a], Fail));
  }

  // A suite that runs gets to a test if it was set up without a failure and, under
  // fail_fast, no test before it failed.
  lemma GetsTo(it: Iteration, fatal: bool, k: nat, a: nat)
    requires Runnable(it.registry) && k < |it.registry.suites|
    requires a < |it.registry.suites[it.registry.indices[k]].tests|
    requires InRange(it.registry.suites[it.registry.indices[k]])
    ensures
      var events := SuitesUpTo(it, fatal, |it.registry.suites|);
      var i := it.registry.indices[k];
      it.registry.suites[i].shouldRun ==>
        (RunsAt(it, fatal, k, a) <==>
           && SuiteSetUp(i, false) in events
           && (it.failFast ==> forall b :: 0 <= b < a ==> TestEnd(i, it.registry.suites[i].testIndices[b], Fail) !in events))
    ensures SuiteSetUp(it.registry.indices[k], false) in SuitesUpTo(it, fatal, |it.registry.suites|) ==>
      it.registry.suites[it.registry.indices[k]].shouldRun
  {
    hide SuitesUpTo, SkippingSuite, SkippingTest, TestsOnce, Fails, Failed, ShouldRunFits;
    var events := SuitesUpTo(it, fatal, |it.registry.suites|);
    var i := it.registry.indices[k];
    var suite := it.registry.suites[i];
    SuiteOccurs(it, fatal, k, SuiteSetUp(i, false));
    SkippingTestUnrolled(it, i, suite, a);
    forall b | 0 <= b < a
      ensures TestEnd(i, suite.testIndices[b], Fail) in events <==>
        RunsAt(it, fatal, k, b) && Fails(it, i, suite, suite.testIndices[b])
    {
      FailsAt(it, fatal, k, b);
    }
    if !Failed(it.program.setUpSuite(it.n, i)) && exists b :: 0 <= b < a && Fails(it, i, suite, suite.testIndices[b]) {
      var b :| 0 <= b < a && Fails(it, i, suite, suite.testIndices[b]);
      var c := FirstFailure(it, i, suite, b);
      assert !RunsAt(it, fatal, k, c) ==> SkippingSuite(it, fatal, k);
    }
  }

  // A test that is started is created if its suite gets to it.
  lemma CreatedWhen(it: Iteration, fatal: bool, k: nat, a: nat)
    requires Runnable(it.registry) && k < |it.registry.suites|
    requires a < |it.registry.suites[it.registry.indices[k]].tests|
    requires InRange(it.registry.suites[it.registry.indices[k]])
    ensures
      var events := SuitesUpTo(it, fatal, |it.registry.suites|);
      var i := it.registry.indices[k];
      var indices := it.registry.suites[i].testIndices;
      TestCreated(i, indices[a]) in events <==>
        && TestStart(i, indices[a]) in events && SuiteSetUp(i, false) in events
        && (it.failFast ==> forall b :: 0 <= b < a ==> TestEnd(i, indices[b], Fail) !in events)
  {
    hide SuitesUpTo, RunsAt, TestsOnce, ShouldRunFits;
    var i := it.registry.indices[k];
    var suite := it.registry.suites[i];
    TestOccurs(it, fatal, k, a, TestCreated(i, suite.testIndices[a]));
    TestOccurs(it, fatal, k, a, TestStart(i, suite.testIndices[a]));
    GetsTo(it, fatal, k, a);
    assert ShouldRunFits(suite);
    if TestAt(suite, a).shouldRun {
      SelectedMakesRun(suite, suite.testIndices[a]);
    }
  }

  lemma DisabledInTest(it: Iteration, i: nat, j: nat, test: TestInfo, j': nat)
    ensures TestDisabled(i, j') in RunTestEvents(it, i, j, test) <==>
      j == j' && !test.shouldRun && test.isDisabled && test.matchesFilter
    ensures TestDisabled(i, j') !in SkipTestEvents(i, j, test)
  {
    hide Created, SameFixtureClass, BodyRuns, TestParts, VerdictOf;
  }

  // Which disabled tests are reported in a suite.
  lemma {:induction false} DisabledUpTo(it: Iteration, i: nat, suite: TestSuite, k: nat, a: nat)
    requires TestsOnce(suite) && k <= |suite.tests| && a < |suite.tests|
    ensures TestDisabled(i, suite.testIndices[a]) in EventsUpTo(it, i, suite, k) <==>
      && a < k && !SkippingTest(it, i, suite, a)
      && !TestAt(suite, a).shouldRun && TestAt(suite, a).isDisabled && TestAt(suite, a).matchesFilter
    ensures TestDisabled(i, suite.testIndices[a]) !in SkipEventsUpTo(i, suite, k)
  {
    hide RunTestEvents, SkipTestEvents, SkippingTest;
    if k == 0 {
    } else {
      DisabledUpTo(it, i, suite, k - 1, a);
      DisabledInTest(it, i, suite.testIndices[k - 1], TestAt(suite, k - 1), suite.testIndices[a]);
    }
  }

  lemma DisabledOccurs(it: Iteration, fatal: bool, k: nat, a: nat)
    requires Runnable(it.registry) && k < |it.registry.suites|
    requires a < |it.registry.suites[it.registry.indices[k]].tests|
    requires InRange(it.registry.suites[it.registry.indices[k]])
    ensures
      var i := it.registry.indices[k];
      var suite := it.registry.suites[i];
      TestDisabled(i, suite.testIndices[a]) in SuitesUpTo(it, fatal, |it.registry.suites|) <==>
        && suite.shouldRun && RunsAt(it, fatal, k, a)
        && !TestAt(suite, a).shouldRun && TestAt(suite, a).isDisabled && TestAt(suite, a).matchesFilter
  {
    hide SuitesUpTo, SkippingSuite, SkippingTest, EventsUpTo, SkipEventsUpTo, SuiteFails, Failed, TestsOnce,
         ShouldRunFits;
    var i := it.registry.indices[k];
    var suite := it.registry.suites[i];
    var e := TestDisabled(i, suite.testIndices[a]);
    PermutedOnce(it.registry, i);
    InSuites(it, fatal, |it.registry.suites|, e);
    forall m | 0 <= m < |it.registry.suites| && e in EventsInPosition(it, fatal, m)
      ensures m == k
    {
      InPosition(it, fatal, m, e);
    }
    assert e in SuitesUpTo(it, fatal, |it.registry.suites|) <==> e in EventsInPosition(it, fatal, k);
    DisabledUpTo(it, i, suite, |suite.tests|, a);
  }

  // ---------------------------------------------------------------- one suite

  // The suite in position k is run and fails.
  ghost predicate SuiteFailsAt(it: Iteration, fatal: bool, k: nat)
    requires AllInRange(it.registry) && k < |it.registry.suites|
  {
    var i := it.registry.indices[k];
    !SkippingSuite(it, fatal, k) && it.registry.suites[i].shouldRun && SuiteFails(it, i, it.registry.suites[i])
  }

  lemma {:induction false} SkippingSuiteWhen(it: Iteration, fatal: bool, k: nat)
    requires AllInRange(it.registry) && k <= |it.registry.suites|
    ensures SkippingSuite(it, fatal, k) <==> fatal || (it.failFast && exists b :: 0 <= b < k && SuiteFailsAt(it, fatal, b))
  {
    hide SuiteFails;
    if k == 0 {
    } else {
      SkippingSuiteWhen(it, fatal, k - 1);
      if it.failFast && !SkippingSuite(it, fatal, k - 1) {
        assert SuiteFailsAt(it, fatal, k - 1) <==> SkippingSuite(it, fatal, k);
      }
    }
  }

  // A suite that is started is run, not skipped, if set-up of the environments did
  // not fail fatally and, under fail_fast, no suite before it failed.
  lemma SuiteRunsWhen(it: Iteration, fatal: bool, k: nat)
    requires Permuted(it.registry) && k < |it.registry.suites|
    ensures
      var events := SuitesUpTo(it, fatal, |it.registry.suites|);
      var i := it.registry.indices[k];
      SuiteTearDown(i) in events <==>
        && SuiteStart(i) in events && !fatal
        && (it.failFast ==> forall b :: 0 <= b < k ==> SuiteEnd(it.registry.indices[b], true) !in events)
  {
    hide SuitesUpTo, SuiteFails, SkippingSuite, TestsOnce;
    var i := it.registry.indices[k];
    SuiteOccurs(it, fatal, k, SuiteTearDown(i));
    SuiteOccurs(it, fatal, k, SuiteStart(i));
    forall b | 0 <= b < k
      ensures SuiteEnd(it.registry.indices[b], true) in SuitesUpTo(it, fatal, |it.registry.suites|) <==>
        SuiteFailsAt(it, fatal, b)
    {
      SuiteOccurs(it, fatal, b, SuiteEnd(it.registry.indices[b], true));
    }
    SkippingSuiteWhen(it, fatal, k);
  }

  lemma {:induction false} FailedBeforeWhen(it: Iteration, i: nat, suite: TestSuite, k: nat)
    requires InRange(suite) && k <= |suite.tests|
    ensures TestFailedBefore(it, i, suite, k) <==>
      exists b :: 0 <= b < k && !SkippingTest(it, i, suite, b) && Fails(it, i, suite, suite.testIndices[b])
  {
    hide Failed, TestParts, SkippingTest;
    if k == 0 {
    } else {
      FailedBeforeWhen(it, i, suite, k - 1);
      assert Fails(it, i, suite, suite.testIndices[k - 1]) <==>
        TestAt(suite, k - 1).shouldRun && Failed(TestParts(it, i, suite.testIndices[k - 1]));
    }
  }

  lemma SuiteFailsWhen(it: Iteration, fatal: bool, k: nat)
    requires Runnable(it.registry) && k < |it.registry.suites| && !SkippingSuite(it, fatal, k)
    requires InRange(it.registry.suites[it.registry.indices[k]])
    ensures
      var i := it.registry.indices[k];
      SuiteFails(it, i, it.registry.suites[i]) <==>
        || Failed(it.program.setUpSuite(it.n, i)) || Failed(it.program.tearDownSuite(it.n, i))
        || exists j: nat :: TestEnd(i, j, Fail) in SuitesUpTo(it, fatal, |it.registry.suites|)
  {
    hide SuitesUpTo, SkippingSuite, SkippingTest, Failed, TestsOnce, ShouldRunFits, Fails, TestFailedBefore;
    var events := SuitesUpTo(it, fatal, |it.registry.suites|);
    var i := it.registry.indices[k];
    var suite := it.registry.suites[i];
    PermutedOnce(it.registry, i);
    FailedConcat(it.program.setUpSuite(it.n, i), it.program.tearDownSuite(it.n, i));
    FailedBeforeWhen(it, i, suite, |suite.tests|);
    if b :| 0 <= b < |suite.tests| && !SkippingTest(it, i, suite, b) && Fails(it, i, suite, suite.testIndices[b]) {
      FailsAt(it, fatal, k, b);
    }
    if j: nat :| TestEnd(i, j, Fail) in events {
      Placed(it, fatal, TestEnd(i, j, Fail));
      var a :| 0 <= a < |suite.tests| && suite.testIndices[a] == j;
      FailsAt(it, fatal, k, a);
    }
  }

  lemma NothingEndsFailed(it: Iteration, fatal: bool, k: nat)
    requires Runnable(it.registry) && k < |it.registry.suites| && SkippingSuite(it, fatal, k)
    ensures forall j: nat :: TestEnd(it.registry.indices[k], j, Fail) !in SuitesUpTo(it, fatal, |it.registry.suites|)
  {
    hide SuitesUpTo, SkippingSuite, SkippingTest, TestsOnce, ShouldRunFits, Fails;
    var i := it.registry.indices[k];
    PermutedOnce(it.registry, i);
    forall j: nat
      ensures TestEnd(i, j, Fail) !in SuitesUpTo(it, fatal, |it.registry.suites|)
    {
      if TestEnd(i, j, Fail) in SuitesUpTo(it, fatal, |it.registry.suites|) {
        Placed(it, fatal, TestEnd(i, j, Fail));
        var a :| 0 <= a < |it.registry.suites[i].tests| && it.registry.suites[i].testIndices[a] == j;
        FailsAt(it, fatal, k, a);
      }
    }
  }

  // A suite fails if its set-up or tear-down reports a failure or one of its tests fails.
  lemma SuiteEndsAsReported(it: Iteration, fatal: bool, k: nat, failed: bool)
    requires Runnable(it.registry) && k < |it.registry.suites|
    ensures
      var events := SuitesUpTo(it, fatal, |it.registry.suites|);
      var i := it.registry.indices[k];
      && (SuiteSetUp(i, failed) in events <==>
            SuiteTearDown(i) in events && failed == Failed(it.program.setUpSuite(it.n, i)))
      && (SuiteEnd(i, failed) in events <==>
            && SuiteStart(i) in events
            && failed == (SuiteSetUp(i, true) in events
                          || (SuiteTearDown(i) in events && Failed(it.program.tearDownSuite(it.n, i)))
                          || exists j: nat :: TestEnd(i, j, Fail) in events))
  {
    hide SuitesUpTo, SuiteFails, SkippingSuite, Failed, TestsOnce, ShouldRunFits, Fails, Due;
    var events := SuitesUpTo(it, fatal, |it.registry.suites|);
    var i := it.registry.indices[k];
    SuiteOccurs(it, fatal, k, SuiteSetUp(i, failed));
    SuiteOccurs(it, fatal, k, SuiteSetUp(i, true));
    SuiteOccurs(it, fatal, k, SuiteTearDown(i));
    SuiteOccurs(it, fatal, k, SuiteStart(i));
    SuiteOccurs(it, fatal, k, SuiteEnd(i, failed));
    if !SkippingSuite(it, fatal, k) {
      PermutedOnce(it.registry, i);
      SuiteFailsWhen(it, fatal, k);
    } else {
      NothingEndsFailed(it, fatal, k);
    }
  }

  // ---------------------------------------------------------------- iterations

  // Suite i is run, given what was reported outside the suites, and fails.
  ghost predicate SuiteFailsGiven(it: Iteration, adHoc: seq<Part>, i: nat)
    requires AllInRange(it.registry)
  {
    !Skipped(adHoc)
    && exists a :: 0 <= a < |it.registry.suites| && it.registry.indices[a] == i && SuiteFailsAt(it, HasFatalFailure(adHoc), a)
  }

  ghost predicate SuiteFailsIn(s: Settings, n: nat, adHoc: seq<Part>, i: nat)
    requires Invariant(s.registry) && AllInRange(IterationOf(s, n).registry)
  {
    s.hasTests && SuiteFailsGiven(IterationOf(s, n), AdHocAfterSetUp(s, n, adHoc), i)
  }

  ghost predicate IterationPasses(s: Settings, n: nat, repeat: int, adHoc: seq<Part>)
    requires Invariant(s.registry)
  {
    IterationInRange(s, n);
    var r := IterationOf(s, n).registry;
    && !Failed(AdHocAfter(s, n, repeat, adHoc))
    && forall i :: 0 <= i < |r.suites| && r.suites[i].shouldRun ==> !SuiteFailsIn(s, n, adHoc, i)
  }

  lemma {:induction false} NothingOccurs(it: Iteration, fatal: bool, n: nat)
    requires AllInRange(it.registry) && n <= |it.registry.suites|
    requires forall i :: 0 <= i < |it.registry.suites| ==> !it.registry.suites[i].shouldRun
    ensures SuitesUpTo(it, fatal, n) == []
  {
    hide SkippingSuite, InRange;
    if n == 0 {
    } else {
      NothingOccurs(it, fatal, n - 1);
    }
  }

  lemma FrameHasNoSuite(events: seq<Event>, e: Event)
    requires AllFrame(events) && HasSuite(e)
    ensures e !in events
  {
  }

  lemma NoSuiteRuns(s: Settings, n: nat)
    requires Invariant(s.registry) && Selects(s) && !s.hasTests
    ensures forall i :: 0 <= i < |IterationOf(s, n).registry.suites| ==> !IterationOf(s, n).registry.suites[i].shouldRun
  {
    hide Invariant, ShouldRunFits;
  }

  // What occurs in an iteration, apart from the environments, occurs in its tests.
  lemma InIteration(s: Settings, n: nat, repeat: int, adHoc: seq<Part>, e: Event)
    requires Invariant(s.registry) && Selects(s) && AllInRange(IterationOf(s, n).registry) && HasSuite(e)
    ensures
      var it, adHoc' := IterationOf(s, n), AdHocAfterSetUp(s, n, adHoc);
      e in IterationEvents(s, n, repeat, adHoc) <==>
        !Skipped(adHoc') && e in SuitesUpTo(it, HasFatalFailure(adHoc'), |it.registry.suites|)
  {
    hide Invariant, AllInRange, IterationEvents, AdHocAfterSetUp, Skipped, HasFatalFailure, ShuffleAll, SuitesUpTo,
         HasSuite;
    var it, adHoc' := IterationOf(s, n), AdHocAfterSetUp(s, n, adHoc);
    var tests := if s.hasTests then TestEvents(it, adHoc') else [];
    var before, after := IterationParts(s, n, repeat, adHoc);
    FrameHasNoSuite(before, e);
    FrameHasNoSuite(after, e);
    if !s.hasTests {
      IterationKeepsTests(s, n);
      NoSuiteRuns(s, n);
      NothingOccurs(it, HasFatalFailure(adHoc'), |it.registry.suites|);
    }
  }

  lemma IterationIsRunnable(s: Settings, n: nat)
    requires Invariant(s.registry) && Selects(s)
    ensures AllInRange(IterationOf(s, n).registry) && Runnable(IterationOf(s, n).registry)
    ensures forall i :: 0 <= i < |IterationOf(s, n).registry.suites| ==> InRange(IterationOf(s, n).registry.suites[i])
    ensures IterationOf(s, n).program == s.program && IterationOf(s, n).n == n && IterationOf(s, n).failFast == s.failFast
  {
    hide Invariant, TestsOnce, ShouldRunFits, ShuffleAll;
    IterationInRange(s, n);
    IterationKeepsTests(s, n);
    RegistryInRange(IterationOf(s, n).registry);
    forall i | 0 <= i < |IterationOf(s, n).registry.suites|
      ensures InRange(IterationOf(s, n).registry.suites[i])
    {
      PermutedOnce(IterationOf(s, n).registry, i);
    }
  }

  // When and how a test runs, read off the trace of any iteration.  It is started
  // if it is selected, unless global set-up asked to skip.  It is created if also
  // its suite was set up without a failure and, under fail_fast, no test before it
  // in its suite failed.  Its calls follow in turn.
  lemma TestRunsExactlyWhen(s: Settings, n: nat, repeat: int, adHoc: seq<Part>, k: nat, a: nat)
    requires Invariant(s.registry) && Selects(s) && AllInRange(IterationOf(s, n).registry)
    requires k < |IterationOf(s, n).registry.suites|
    requires var r := IterationOf(s, n).registry; a < |r.suites[r.indices[k]].tests|
    ensures
      var p, r, events := s.program, IterationOf(s, n).registry, IterationEvents(s, n, repeat, adHoc);
      var i := r.indices[k];
      var indices := r.suites[i].testIndices;
      var j := indices[a];
      var constructed, setUp := p.construct(n, i, j), p.setUp(n, i, j);
      var goesOn := TestCreated(i, j) in events && !HasFatalFailure(constructed) && !Skipped(constructed);
      var sameClass := p.fixtureClass(i, j) == p.fixtureClass(i, 0);
      && (TestStart(i, j) in events <==> r.suites[i].tests[j].shouldRun && !Skipped(AdHocAfterSetUp(s, n, adHoc)))
      && (TestCreated(i, j) in events <==>
            && TestStart(i, j) in events && SuiteSetUp(i, false) in events
            && (s.failFast ==> forall b :: 0 <= b < a ==> TestEnd(i, indices[b], Fail) !in events))
      && (MixedFixtures(i, j) in events <==> goesOn && !sameClass)
      && (FixtureSetUp(i, j) in events <==> goesOn && sameClass)
      && (TestBody(i, j) in events <==>
            FixtureSetUp(i, j) in events && !HasFatalFailure(constructed + setUp) && !Skipped(constructed + setUp))
      && (FixtureTearDown(i, j) in events <==> FixtureSetUp(i, j) in events)
      && (TestDeleted(i, j) in events <==> TestCreated(i, j) in events)
  {
    hide Invariant, IterationOf, IterationEvents, SuitesUpTo, AdHocAfterSetUp, Skipped, HasFatalFailure, RunsAt,
         Selects;
    IterationIsRunnable(s, n);
    var it, adHoc' := IterationOf(s, n), AdHocAfterSetUp(s, n, adHoc);
    var fatal := HasFatalFailure(adHoc');
    var i := it.registry.indices[k];
    var indices := it.registry.suites[i].testIndices;
    CreatedWhen(it, fatal, k, a);
    TestOccurs(it, fatal, k, a, TestStart(i, indices[a]));
    CallsAreInTurn(it, fatal, k, a);
    forall e: Event | HasSuite(e)
      ensures e in IterationEvents(s, n, repeat, adHoc) <==>
        !Skipped(adHoc') && e in SuitesUpTo(it, fatal, |it.registry.suites|)
    {
      InIteration(s, n, repeat, adHoc, e);
    }
  }

  // A test that is not selected never runs; it is reported as disabled if it is, matches the
  // filter, and its suite gets to it.
  lemma DisabledExactlyWhen(s: Settings, n: nat, repeat: int, adHoc: seq<Part>, k: nat, a: nat)
    requires Invariant(s.registry) && Selects(s) && AllInRange(IterationOf(s, n).registry)
    requires k < |IterationOf(s, n).registry.suites|
    requires var r := IterationOf(s, n).registry; a < |r.suites[r.indices[k]].tests|
    ensures
      var r, events := IterationOf(s, n).registry, IterationEvents(s, n, repeat, adHoc);
      var i := r.indices[k];
      var indices := r.suites[i].testIndices;
      var test := r.suites[i].tests[indices[a]];
      TestDisabled(i, indices[a]) in events <==>
        && !test.shouldRun && test.isDisabled && test.matchesFilter
        && SuiteSetUp(i, false) in events
        && (s.failFast ==> forall b :: 0 <= b < a ==> TestEnd(i, indices[b], Fail) !in events)
  {
    hide Invariant, IterationOf, IterationEvents, SuitesUpTo, AdHocAfterSetUp, Skipped, HasFatalFailure, RunsAt,
         Selects;
    IterationIsRunnable(s, n);
    var it, adHoc' := IterationOf(s, n), AdHocAfterSetUp(s, n, adHoc);
    var fatal := HasFatalFailure(adHoc');
    DisabledOccurs(it, fatal, k, a);
    GetsTo(it, fatal, k, a);
    forall e: Event | HasSuite(e)
      ensures e in IterationEvents(s, n, repeat, adHoc) <==>
        !Skipped(adHoc') && e in SuitesUpTo(it, fatal, |it.registry.suites|)
    {
      InIteration(s, n, repeat, adHoc, e);
    }
  }

  lemma ReportsOfTest(it: Iteration, events: seq<Event>, i: nat, j: nat)
    requires CallsInTurn(it.program, it.n, events, i, j)
    ensures
      var p, n := it.program, it.n;
      (TestReports(p, n, events, i, j, NonfatalFailure) || TestReports(p, n, events, i, j, FatalFailure)) <==>
        || (TestCreated(i, j) in events && Failed(p.construct(n, i, j)))
        || MixedFixtures(i, j) in events
        || (FixtureSetUp(i, j) in events && Failed(p.setUp(n, i, j)))
        || (TestBody(i, j) in events && Failed(p.body(n, i, j)))
        || (FixtureTearDown(i, j) in events && Failed(p.tearDown(n, i, j)))
        || (TestDeleted(i, j) in events && Failed(p.destruct(n, i, j)))
  {
    hide Failed, HasFatalFailure, Skipped;
    ResultsMean(it.program.construct(it.n, i, j));
    ResultsMean(it.program.setUp(it.n, i, j));
    ResultsMean(it.program.body(it.n, i, j));
    ResultsMean(it.program.tearDown(it.n, i, j));
    ResultsMean(it.program.destruct(it.n, i, j));
  }

  // The verdict on a test: it failed if and only if some call of user code that
  // occurs for it reports a failure, or it has the wrong fixture class; otherwise it
  // was skipped if it was not created or one of those calls reports a skip; otherwise
  // it passed.
  lemma TestEndsAsReported(s: Settings, n: nat, repeat: int, adHoc: seq<Part>, k: nat, a: nat)
    requires Invariant(s.registry) && Selects(s) && AllInRange(IterationOf(s, n).registry)
    requires k < |IterationOf(s, n).registry.suites|
    requires var r := IterationOf(s, n).registry; a < |r.suites[r.indices[k]].tests|
    ensures
      var p, r, events := s.program, IterationOf(s, n).registry, IterationEvents(s, n, repeat, adHoc);
      var i := r.indices[k];
      var j := r.suites[i].testIndices[a];
      && (TestEnd(i, j, Fail) in events <==>
            || (TestCreated(i, j) in events && Failed(p.construct(n, i, j)))
            || MixedFixtures(i, j) in events
            || (FixtureSetUp(i, j) in events && Failed(p.setUp(n, i, j)))
            || (TestBody(i, j) in events && Failed(p.body(n, i, j)))
            || (FixtureTearDown(i, j) in events && Failed(p.tearDown(n, i, j)))
            || (TestDeleted(i, j) in events && Failed(p.destruct(n, i, j))))
      && (TestEnd(i, j, Skip) in events <==>
            && TestStart(i, j) in events && TestEnd(i, j, Fail) !in events
            && (|| TestCreated(i, j) !in events
                || SkipPart in p.construct(n, i, j)
                || (FixtureSetUp(i, j) in events && SkipPart in p.setUp(n, i, j))
                || (TestBody(i, j) in events && SkipPart in p.body(n, i, j))
                || (FixtureTearDown(i, j) in events && SkipPart in p.tearDown(n, i, j))
                || SkipPart in p.destruct(n, i, j)))
      && (TestEnd(i, j, Pass) in events <==>
            TestStart(i, j) in events && TestEnd(i, j, Fail) !in events && TestEnd(i, j, Skip) !in events)
  {
    hide Invariant, IterationOf, IterationEvents, SuitesUpTo, AdHocAfterSetUp, Skipped, HasFatalFailure, RunsAt,
         Selects;
    IterationIsRunnable(s, n);
    var it, adHoc', p := IterationOf(s, n), AdHocAfterSetUp(s, n, adHoc), s.program;
    var fatal := HasFatalFailure(adHoc');
    var i := it.registry.indices[k];
    var j := it.registry.suites[i].testIndices[a];
    EndsAsReported(it, fatal, k, a, Fail);
    EndsAsReported(it, fatal, k, a, Skip);
    EndsAsReported(it, fatal, k, a, Pass);
    CallsAreInTurn(it, fatal, k, a);
    ReportsOfTest(it, SuitesUpTo(it, fatal, |it.registry.suites|), i, j);
    CreatedWhen(it, fatal, k, a);
    forall e: Event | HasSuite(e)
      ensures e in IterationEvents(s, n, repeat, adHoc) <==>
        !Skipped(adHoc') && e in SuitesUpTo(it, fatal, |it.registry.suites|)
    {
      InIteration(s, n, repeat, adHoc, e);
    }
  }

  // When a suite runs and how it ends: it is started if it has a selected test,
  // unless global set-up asked to skip; it is set up and torn down unless that
  // failed fatally or, under fail_fast, a suite before it failed; and it failed if
  // and only if its set-up or its tear-down reports a failure or one of its tests failed.
  lemma SuiteRunsExactlyWhen(s: Settings, n: nat, repeat: int, adHoc: seq<Part>, k: nat)
    requires Invariant(s.registry) && Selects(s) && AllInRange(IterationOf(s, n).registry)
    requires k < |IterationOf(s, n).registry.suites|
    ensures
      var p, r, events := s.program, IterationOf(s, n).registry, IterationEvents(s, n, repeat, adHoc);
      var i := r.indices[k];
      var adHoc' := AdHocAfterSetUp(s, n, adHoc);
      && (SuiteStart(i) in events <==>
            !Skipped(adHoc') && exists j :: 0 <= j < |r.suites[i].tests| && r.suites[i].tests[j].shouldRun)
      && (SuiteTearDown(i) in events <==>
            && SuiteStart(i) in events && !HasFatalFailure(adHoc')
            && (s.failFast ==> forall b :: 0 <= b < k ==> SuiteEnd(r.indices[b], true) !in events))
      && (forall failed :: SuiteSetUp(i, failed) in events <==>
            SuiteTearDown(i) in events && failed == Failed(p.setUpSuite(n, i)))
      && (forall failed :: SuiteEnd(i, failed) in events <==>
            && SuiteStart(i) in events
            && failed == (SuiteSetUp(i, true) in events
                          || (SuiteTearDown(i) in events && Failed(p.tearDownSuite(n, i)))
                          || exists j: nat :: TestEnd(i, j, Fail) in events))
  {
    hide Invariant, IterationOf, IterationEvents, SuitesUpTo, AdHocAfterSetUp, Skipped, HasFatalFailure, Selects,
         Failed;
    hide SuiteFails, SkippingSuite, InRange;
    IterationIsRunnable(s, n);
    var it, adHoc' := IterationOf(s, n), AdHocAfterSetUp(s, n, adHoc);
    var fatal := HasFatalFailure(adHoc');
    var i := it.registry.indices[k];
    SuiteRunsWhen(it, fatal, k);
    SuiteEndsAsReported(it, fatal, k, true);
    SuiteEndsAsReported(it, fatal, k, false);
    SuiteOccurs(it, fatal, k, SuiteStart(i));
    assert ShouldRunFits(it.registry.suites[i]);
    forall e: Event | HasSuite(e)
      ensures e in IterationEvents(s, n, repeat, adHoc) <==>
        !Skipped(adHoc') && e in SuitesUpTo(it, fatal, |it.registry.suites|)
    {
      InIteration(s, n, repeat, adHoc, e);
    }
  }

  // ---------------------------------------------------------------- success

  lemma {:induction false} InSetUps(k: nat, e: Event)
    ensures e in SetUps(k) <==> e.SetUp? && e.environment < k
    ensures e in TearDowns(k) <==> e.TearDown? && e.environment < k
  {
    if k == 0 {
    } else {
      InSetUps(k - 1, e);
    }
  }

  lemma EnvironmentsDue(s: Settings, n: nat, repeat: int, e: Event)
    requires e.SetUp? || e.TearDown?
    ensures e in SetUpEvents(s, n) <==>
      e.SetUp? && s.hasTests && (n == 0 || s.recreateEnvironments) && e.environment < s.program.environments
    ensures e in TearDownEvents(s, n, repeat) <==>
      e.TearDown? && s.hasTests && (n + 1 == repeat || s.recreateEnvironments) && e.environment < s.program.environments
  {
    hide SetUps, TearDowns;
    InSetUps(s.program.environments, e);
  }

  lemma NoEnvironmentAmong(events: seq<Event>, e: Event)
    requires NoEnvironments(events) && (e.SetUp? || e.TearDown?)
    ensures e !in events
  {
  }

  // Environments are set up and torn down when they are due, all of them.
  lemma EnvironmentOccurs(s: Settings, n: nat, repeat: int, adHoc: seq<Part>, e: Event)
    requires Invariant(s.registry) && AllInRange(IterationOf(s, n).registry) && (e.SetUp? || e.TearDown?)
    ensures e in IterationEvents(s, n, repeat, adHoc) <==>
      && s.hasTests && e.environment < s.program.environments
      && (s.recreateEnvironments || if e.SetUp? then n == 0 else n + 1 == repeat)
  {
    hide Invariant, IterationOf, AllInRange, SuitesUpTo, SetUpEvents, TearDownEvents, AdHocAfterSetUp, Skipped,
         HasFatalFailure;
    hide NoEnvironments;
    var it, adHoc' := IterationOf(s, n), AdHocAfterSetUp(s, n, adHoc);
    EnvironmentsDue(s, n, repeat, e);
    SuitesHaveNoEnvironments(it, HasFatalFailure(adHoc'), |it.registry.suites|);
    NoEnvironmentAmong(SuitesUpTo(it, HasFatalFailure(adHoc'), |it.registry.suites|), e);
  }

  lemma {:induction false} EnvironmentsFail(p: Program, n: nat, k: nat)
    ensures Failed(SetUpParts(p, n, k)) <==> exists x: nat :: x < k && Failed(p.setUpEnvironment(n, x))
    ensures Failed(TearDownParts(p, n, k)) <==> exists x: nat :: x < k && Failed(p.tearDownEnvironment(n, x))
  {
    if k == 0 {
    } else {
      EnvironmentsFail(p, n, k - 1);
      FailedConcat(SetUpParts(p, n, k - 1), p.setUpEnvironment(n, k - 1));
      FailedConcat(p.tearDownEnvironment(n, k - 1), TearDownParts(p, n, k - 1));
      hide Failed;
    }
  }

  // What has been reported outside the suites once the iteration is over.
  lemma AdHocFails(s: Settings, n: nat, repeat: int, adHoc: seq<Part>)
    requires Invariant(s.registry) && AllInRange(IterationOf(s, n).registry)
    ensures
      var events := IterationEvents(s, n, repeat, adHoc);
      Failed(AdHocAfter(s, n, repeat, adHoc)) <==>
        || Failed(adHoc)
        || (exists x: nat :: SetUp(x) in events && Failed(s.program.setUpEnvironment(n, x)))
        || (exists x: nat :: TearDown(x) in events && Failed(s.program.tearDownEnvironment(n, x)))
  {
    hide Invariant, IterationOf, AllInRange, IterationEvents, SetUpParts, TearDownParts, Failed;
    var p, m := s.program, s.program.environments;
    EnvironmentsFail(p, n, m);
    FailedConcat(adHoc, SetUpParts(p, n, m));
    FailedConcat(AdHocAfterSetUp(s, n, adHoc), TearDownParts(p, n, m));
    FailedConcat(AdHocAfterSetUp(s, n, adHoc), []);
    ResultsMean([]);
    forall x: nat
      ensures SetUp(x) in IterationEvents(s, n, repeat, adHoc) <==> s.hasTests && SetsUp(s, n) && x < m
      ensures TearDown(x) in IterationEvents(s, n, repeat, adHoc) <==> s.hasTests && TearsDown(s, n, repeat) && x < m
    {
      EnvironmentOccurs(s, n, repeat, adHoc, SetUp(x));
      EnvironmentOccurs(s, n, repeat, adHoc, TearDown(x));
    }
  }

  // No call of user code that occurs reports a failure, and no test has the wrong fixture class.
  ghost predicate NothingFails(p: Program, n: nat, events: seq<Event>) {
    && (forall x: nat :: SetUp(x) in events ==> !Failed(p.setUpEnvironment(n, x)))
    && (forall x: nat :: TearDown(x) in events ==> !Failed(p.tearDownEnvironment(n, x)))
    && (forall i: nat, failed :: SuiteSetUp(i, failed) in events ==> !Failed(p.setUpSuite(n, i)))
    && (forall i: nat :: SuiteTearDown(i) in events ==> !Failed(p.tearDownSuite(n, i)))
    && (forall i: nat, j: nat :: TestCreated(i, j) in events ==> !Failed(p.construct(n, i, j)))
    && (forall i: nat, j: nat :: MixedFixtures(i, j) !in events)
    && (forall i: nat, j: nat :: FixtureSetUp(i, j) in events ==> !Failed(p.setUp(n, i, j)))
    && (forall i: nat, j: nat :: TestBody(i, j) in events ==> !Failed(p.body(n, i, j)))
    && (forall i: nat, j: nat :: FixtureTearDown(i, j) in events ==> !Failed(p.tearDown(n, i, j)))
    && (forall i: nat, j: nat :: TestDeleted(i, j) in events ==> !Failed(p.destruct(n, i, j)))
  }

  // The suites that count as failed are those whose end says so.
  lemma SuiteFailsInTrace(s: Settings, n: nat, repeat: int, adHoc: seq<Part>, i: nat)
    requires Invariant(s.registry) && Selects(s) && AllInRange(IterationOf(s, n).registry)
    requires i < |IterationOf(s, n).registry.suites|
    ensures SuiteFailsIn(s, n, adHoc, i) <==> SuiteEnd(i, true) in IterationEvents(s, n, repeat, adHoc)
  {
    hide Invariant, IterationOf, IterationEvents, SuitesUpTo, AdHocAfterSetUp, Skipped, HasFatalFailure, Selects;
    hide SuiteFails, SkippingSuite, InRange;
    IterationIsRunnable(s, n);
    var it, adHoc' := IterationOf(s, n), AdHocAfterSetUp(s, n, adHoc);
    InIteration(s, n, repeat, adHoc, SuiteEnd(i, true));
    assert i in it.registry.indices;
    var k :| 0 <= k < |it.registry.suites| && it.registry.indices[k] == i;
    SuiteOccurs(it, HasFatalFailure(adHoc'), k, SuiteEnd(i, true));
    if !s.hasTests {
      NoSuiteRuns(s, n);
    }
  }

  lemma PlacedInIteration(s: Settings, n: nat, repeat: int, adHoc: seq<Part>, e: Event)
    requires Invariant(s.registry) && Selects(s) && AllInRange(IterationOf(s, n).registry)
    requires HasSuite(e) && e in IterationEvents(s, n, repeat, adHoc)
    ensures var r := IterationOf(s, n).registry;
      exists k :: 0 <= k < |r.suites| && r.indices[k] == e.suite
    ensures var r := IterationOf(s, n).registry;
      OfTest(e) ==> exists a :: 0 <= a < |r.suites[e.suite].tests| && r.suites[e.suite].testIndices[a] == e.test
  {
    hide Invariant, IterationOf, IterationEvents, SuitesUpTo, Skipped, HasFatalFailure, Selects, HasSuite, OfTest;
    InIteration(s, n, repeat, adHoc, e);
    Placed(IterationOf(s, n), HasFatalFailure(AdHocAfterSetUp(s, n, adHoc)), e);
  }

  // In a suite that does not fail no code of a test that occurs reports a failure.
  lemma NoTestFails(s: Settings, n: nat, repeat: int, adHoc: seq<Part>, e: Event)
    requires Invariant(s.registry) && Selects(s) && AllInRange(IterationOf(s, n).registry)
    requires OfTest(e) && !e.TestStart? && !e.TestEnd? && e in IterationEvents(s, n, repeat, adHoc)
    requires SuiteEnd(e.suite, true) !in IterationEvents(s, n, repeat, adHoc)
    ensures !e.MixedFixtures?
    ensures match e
      case TestCreated(i, j) => !Failed(s.program.construct(n, i, j))
      case FixtureSetUp(i, j) => !Failed(s.program.setUp(n, i, j))
      case TestBody(i, j) => !Failed(s.program.body(n, i, j))
      case FixtureTearDown(i, j) => !Failed(s.program.tearDown(n, i, j))
      case TestDeleted(i, j) => !Failed(s.program.destruct(n, i, j))
      case _ => true
  {
    hide Invariant, IterationOf, IterationEvents, AdHocAfterSetUp, Skipped, HasFatalFailure, Selects, Failed;
    PlacedInIteration(s, n, repeat, adHoc, e);
    var r := IterationOf(s, n).registry;
    var k :| 0 <= k < |r.suites| && r.indices[k] == e.suite;
    var a :| 0 <= a < |r.suites[e.suite].tests| && r.suites[e.suite].testIndices[a] == e.test;
    SuiteRunsExactlyWhen(s, n, repeat, adHoc, k);
    TestRunsExactlyWhen(s, n, repeat, adHoc, k, a);
    TestEndsAsReported(s, n, repeat, adHoc, k, a);
    assert TestCreated(e.suite, e.test) in IterationEvents(s, n, repeat, adHoc);
    assert SuiteSetUp(e.suite, false) in IterationEvents(s, n, repeat, adHoc);
  }

  lemma NoSuiteFails(s: Settings, n: nat, repeat: int, adHoc: seq<Part>, i: nat, e: Event)
    requires Invariant(s.registry) && Selects(s) && AllInRange(IterationOf(s, n).registry)
    requires SuiteEnd(i, true) !in IterationEvents(s, n, repeat, adHoc)
    requires e in IterationEvents(s, n, repeat, adHoc)
    ensures e.SuiteSetUp? && e.suite == i ==> !Failed(s.program.setUpSuite(n, i))
    ensures e == SuiteTearDown(i) ==> !Failed(s.program.tearDownSuite(n, i))
  {
    hide Invariant, IterationOf, IterationEvents, AdHocAfterSetUp, Skipped, HasFatalFailure, Selects, Failed, InRange;
    if (e.SuiteSetUp? && e.suite == i) || e == SuiteTearDown(i) {
      PlacedInIteration(s, n, repeat, adHoc, e);
      var r := IterationOf(s, n).registry;
      var k :| 0 <= k < |r.suites| && r.indices[k] == i;
      SuiteRunsExactlyWhen(s, n, repeat, adHoc, k);
    }
  }

  lemma FailsOnlyIfRun(s: Settings, n: nat, repeat: int, adHoc: seq<Part>, i: nat)
    requires Invariant(s.registry) && Selects(s) && AllInRange(IterationOf(s, n).registry)
    requires SuiteEnd(i, true) in IterationEvents(s, n, repeat, adHoc)
    ensures i < |IterationOf(s, n).registry.suites| && IterationOf(s, n).registry.suites[i].shouldRun
  {
    hide Invariant, IterationOf, IterationEvents, AdHocAfterSetUp, Failed, Selects, InRange, Skipped, HasFatalFailure;
    PlacedInIteration(s, n, repeat, adHoc, SuiteEnd(i, true));
    var r := IterationOf(s, n).registry;
    var k :| 0 <= k < |r.suites| && r.indices[k] == i;
    SuiteRunsExactlyWhen(s, n, repeat, adHoc, k);
    IterationIsRunnable(s, n);
    assert ShouldRunFits(r.suites[i]);
  }

  lemma NoSuiteEndsFailed(s: Settings, n: nat, repeat: int, adHoc: seq<Part>, i: nat)
    requires Invariant(s.registry) && Selects(s) && AllInRange(IterationOf(s, n).registry)
    requires IterationPasses(s, n, repeat, adHoc)
    ensures SuiteEnd(i, true) !in IterationEvents(s, n, repeat, adHoc)
  {
    hide Invariant, IterationOf, IterationEvents, AdHocAfter, SuiteFailsIn, Failed, Selects, InRange;
    if SuiteEnd(i, true) in IterationEvents(s, n, repeat, adHoc) {
      FailsOnlyIfRun(s, n, repeat, adHoc, i);
      SuiteFailsInTrace(s, n, repeat, adHoc, i);
    }
  }

  // If no suite failed, nothing that occurs in it did.
  lemma PassingMeans(s: Settings, n: nat, repeat: int, adHoc: seq<Part>)
    requires Invariant(s.registry) && Selects(s) && AllInRange(IterationOf(s, n).registry)
    requires IterationPasses(s, n, repeat, adHoc)
    ensures NothingFails(s.program, n, IterationEvents(s, n, repeat, adHoc))
  {
    hide Invariant, IterationOf, IterationEvents, AdHocAfter, SuiteFailsIn, Failed, Selects, InRange;
    var events := IterationEvents(s, n, repeat, adHoc);
    AdHocFails(s, n, repeat, adHoc);
    forall i: nat
      ensures SuiteEnd(i, true) !in events
    {
      NoSuiteEndsFailed(s, n, repeat, adHoc, i);
    }
    forall e: Event | e in events && OfTest(e) && !e.TestStart? && !e.TestEnd?
      ensures !e.MixedFixtures?
      ensures match e
        case TestCreated(i, j) => !Failed(s.program.construct(n, i, j))
        case FixtureSetUp(i, j) => !Failed(s.program.setUp(n, i, j))
        case TestBody(i, j) => !Failed(s.program.body(n, i, j))
        case FixtureTearDown(i, j) => !Failed(s.program.tearDown(n, i, j))
        case TestDeleted(i, j) => !Failed(s.program.destruct(n, i, j))
        case _ => true
    {
      NoTestFails(s, n, repeat, adHoc, e);
    }
    forall i: nat, e: Event | e in events
      ensures e.SuiteSetUp? && e.suite == i ==> !Failed(s.program.setUpSuite(n, i))
      ensures e == SuiteTearDown(i) ==> !Failed(s.program.tearDownSuite(n, i))
    {
      NoSuiteFails(s, n, repeat, adHoc, i, e);
    }
  }

  lemma NothingFailsMeans(s: Settings, n: nat, repeat: int, adHoc: seq<Part>)
    requires Invariant(s.registry) && Selects(s) && AllInRange(IterationOf(s, n).registry)
    requires !Failed(AdHocAfter(s, n, repeat, adHoc)) && NothingFails(s.program, n, IterationEvents(s, n, repeat, adHoc))
    ensures IterationPasses(s, n, repeat, adHoc)
  {
    hide Invariant, IterationOf, IterationEvents, AdHocAfter, SuiteFailsIn, Failed, Selects, AdHocAfterSetUp, Skipped,
         HasFatalFailure;
    var events, r := IterationEvents(s, n, repeat, adHoc), IterationOf(s, n).registry;
    forall i | 0 <= i < |r.suites| && r.suites[i].shouldRun
      ensures !SuiteFailsIn(s, n, adHoc, i)
    {
      SuiteFailsInTrace(s, n, repeat, adHoc, i);
      if SuiteEnd(i, true) in events {
        PlacedInIteration(s, n, repeat, adHoc, SuiteEnd(i, true));
        var k :| 0 <= k < |r.suites| && r.indices[k] == i;
        SuiteRunsExactlyWhen(s, n, repeat, adHoc, k);
        var j: nat :| TestEnd(i, j, Fail) in events;
        PlacedInIteration(s, n, repeat, adHoc, TestEnd(i, j, Fail));
        var a :| 0 <= a < |r.suites[i].tests| && r.suites[i].testIndices[a] == j;
        TestEndsAsReported(s, n, repeat, adHoc, k, a);
        assert false;
      }
    }
  }

  // An iteration passes if and only if nothing had failed outside the suites before
  // and no call of user code that occurs in it reports a failure.
  lemma PassesExactlyWhen(s: Settings, n: nat, repeat: int, adHoc: seq<Part>)
    requires Invariant(s.registry) && Selects(s) && AllInRange(IterationOf(s, n).registry)
    ensures IterationPasses(s, n, repeat, adHoc) <==>
      !Failed(adHoc) && NothingFails(s.program, n, IterationEvents(s, n, repeat, adHoc))
  {
    hide Invariant, IterationOf, IterationEvents, AdHocAfter, SuiteFailsIn, Failed, Selects, InRange;
    AdHocFails(s, n, repeat, adHoc);
    if IterationPasses(s, n, repeat, adHoc) {
      PassingMeans(s, n, repeat, adHoc);
    }
    if !Failed(AdHocAfter(s, n, repeat, adHoc)) && NothingFails(s.program, n, IterationEvents(s, n, repeat, adHoc)) {
      NothingFailsMeans(s, n, repeat, adHoc);
    }
  }

  // Iteration n of a run passes; no call of user code in it reports a failure.
  ghost predicate PassesIn(s: Settings, n: nat, repeat: int, adHoc: seq<Part>)
    requires Invariant(s.registry)
  {
    IterationPasses(s, n, repeat, AdHocUpTo(s, repeat, adHoc, n))
  }

  ghost predicate NothingFailsIn(s: Settings, n: nat, repeat: int, adHoc: seq<Part>)
    requires Invariant(s.registry)
  {
    IterationInRange(s, n);
    NothingFails(s.program, n, IterationEvents(s, n, repeat, AdHocUpTo(s, repeat, adHoc, n)))
  }

  lemma PassesInIs(s: Settings, n: nat, repeat: int, adHoc: seq<Part>, before: seq<Part>)
    requires Invariant(s.registry) && before == AdHocUpTo(s, repeat, adHoc, n)
    ensures PassesIn(s, n, repeat, adHoc) <==> IterationPasses(s, n, repeat, before)
  {
  }

  lemma {:induction false} NothingReportedUpTo(s: Settings, repeat: int, adHoc: seq<Part>, n: nat)
    requires Invariant(s.registry) && Selects(s) && !Failed(adHoc)
    requires forall m :: 0 <= m < n ==> NothingFailsIn(s, m, repeat, adHoc)
    ensures !Failed(AdHocUpTo(s, repeat, adHoc, n))
  {
    hide Invariant, Failed, IterationEvents, AdHocAfter, IterationOf, Selects;
    if n == 0 {
    } else {
      NothingReportedUpTo(s, repeat, adHoc, n - 1);
      IterationInRange(s, n - 1);
      assert NothingFailsIn(s, n - 1, repeat, adHoc);
      AdHocFails(s, n - 1, repeat, AdHocUpTo(s, repeat, adHoc, n - 1));
    }
  }

  lemma PassesInMeans(s: Settings, n: nat, repeat: int, adHoc: seq<Part>)
    requires Invariant(s.registry) && Selects(s)
    ensures PassesIn(s, n, repeat, adHoc) <==>
      !Failed(AdHocUpTo(s, repeat, adHoc, n)) && NothingFailsIn(s, n, repeat, adHoc)
    ensures AdHocUpTo(s, repeat, adHoc, 0) == adHoc
  {
    hide Invariant, Failed, IterationEvents, AdHocAfter, IterationOf, Selects, IterationPasses, NothingFails;
    IterationInRange(s, n);
    PassesExactlyWhen(s, n, repeat, AdHocUpTo(s, repeat, adHoc, n));
  }

  // A run of at least one iteration passes if and only if nothing had failed before
  // it and no call of user code in any iteration reports a failure.
  lemma RunPassesExactlyWhen(s: Settings, repeat: int, adHoc: seq<Part>, k: nat)
    requires Invariant(s.registry) && Selects(s) && k > 0
    ensures (forall n :: 0 <= n < k ==> PassesIn(s, n, repeat, adHoc)) <==>
      !Failed(adHoc) && forall n :: 0 <= n < k ==> NothingFailsIn(s, n, repeat, adHoc)
  {
    hide Invariant, Failed, Selects, PassesIn, NothingFailsIn;
    if forall n :: 0 <= n < k ==> PassesIn(s, n, repeat, adHoc) {
      forall n | 0 <= n < k
        ensures !Failed(AdHocUpTo(s, repeat, adHoc, n)) && NothingFailsIn(s, n, repeat, adHoc)
      {
        PassesInMeans(s, n, repeat, adHoc);
      }
      assert !Failed(AdHocUpTo(s, repeat, adHoc, 0));
    } else if !Failed(adHoc) && forall n :: 0 <= n < k ==> NothingFailsIn(s, n, repeat, adHoc) {
      forall n | 0 <= n < k
        ensures PassesIn(s, n, repeat, adHoc)
      {
        NothingReportedUpTo(s, repeat, adHoc, n);
        PassesInMeans(s, n, repeat, adHoc);
      }
    }
  }
}
