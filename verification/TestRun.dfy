// Running the selected tests: suites, fail-fast, environments and repetition, as
// the sequence of events the listeners see.
module TestRun {
  import opened TestRegistry
  import opened Shuffle

  // ---------------------------------------------------------------- results

  datatype Part = Success | NonfatalFailure | FatalFailure | SkipPart

  predicate Failed(parts: seq<Part>) {
    exists k :: 0 <= k < |parts| && (parts[k].NonfatalFailure? || parts[k].FatalFailure?)
  }

  predicate HasFatalFailure(parts: seq<Part>) {
    exists k :: 0 <= k < |parts| && parts[k].FatalFailure?
  }

  predicate Skipped(parts: seq<Part>) {
    !Failed(parts) && exists k :: 0 <= k < |parts| && parts[k].SkipPart?
  }

  // What user code reports, in iteration n: any parts at all; and which fixture
  // class test j of suite i is defined with.
  datatype Program = Program(
    environments: nat,
    setUpEnvironment: (nat, nat) -> seq<Part>,
    tearDownEnvironment: (nat, nat) -> seq<Part>,
    setUpSuite: (nat, nat) -> seq<Part>,
    tearDownSuite: (nat, nat) -> seq<Part>,
    fixtureClass: (nat, nat) -> nat,
    construct: (nat, nat, nat) -> seq<Part>,
    setUp: (nat, nat, nat) -> seq<Part>,
    body: (nat, nat, nat) -> seq<Part>,
    tearDown: (nat, nat, nat) -> seq<Part>,
    destruct: (nat, nat, nat) -> seq<Part>)

  // One iteration: its number, whether fail_fast is set, the program and the suites.
  datatype Iteration = Iteration(n: nat, failFast: bool, program: Program, registry: Registry)

  // ---------------------------------------------------------------- events

  datatype Verdict = Pass | Fail | Skip

  datatype Event =
    | IterationStart(n: nat)
    | IterationEnd(n: nat)
    | EnvironmentsSetUpStart
    | SetUp(environment: nat)
    | EnvironmentsSetUpEnd
    | EnvironmentsTearDownStart
    | TearDown(environment: nat)
    | EnvironmentsTearDownEnd
    | SuiteStart(suite: nat)
    | SuiteSetUp(suite: nat, setUpFailed: bool)
    | SuiteTearDown(suite: nat)
    | SuiteEnd(suite: nat, suiteFailed: bool)
    | TestStart(suite: nat, test: nat)
    | TestCreated(suite: nat, test: nat)
    | MixedFixtures(suite: nat, test: nat)
    | FixtureSetUp(suite: nat, test: nat)
    | TestBody(suite: nat, test: nat)
    | FixtureTearDown(suite: nat, test: nat)
    | TestDeleted(suite: nat, test: nat)
    | TestEnd(suite: nat, test: nat, verdict: Verdict)
    | TestDisabled(suite: nat, test: nat)

  function VerdictOf(parts: seq<Part>): Verdict {
    if Failed(parts) then Fail else if Skipped(parts) then Skip else Pass
  }

  // ---------------------------------------------------------------- one test

  // What has been reported lets the test go on.
  predicate MayGoOn(parts: seq<Part>) {
    !HasFatalFailure(parts) && !Skipped(parts)
  }

  // All tests of a suite must use the class of the first one registered.
  predicate SameFixtureClass(it: Iteration, i: nat, j: nat) {
    it.program.fixtureClass(i, j) == it.program.fixtureClass(i, 0)
  }

  // The test object was created.
  predicate Created(it: Iteration, i: nat, j: nat) {
    MayGoOn(it.program.construct(it.n, i, j))
  }

  // The fixture is set up and, whatever happens then, torn down.
  predicate FixtureRuns(it: Iteration, i: nat, j: nat) {
    Created(it, i, j) && SameFixtureClass(it, i, j)
  }

  // The body runs unless what was reported up to the end of set-up forbids it.
  predicate BodyRuns(it: Iteration, i: nat, j: nat) {
    FixtureRuns(it, i, j) && MayGoOn(it.program.construct(it.n, i, j) + it.program.setUp(it.n, i, j))
  }

  // What running a created test reports; a wrong fixture class is a failure.
  function FixtureParts(it: Iteration, i: nat, j: nat): seq<Part> {
    if !SameFixtureClass(it, i, j) then [NonfatalFailure]
    else
      it.program.setUp(it.n, i, j)
      + (if BodyRuns(it, i, j) then it.program.body(it.n, i, j) else [])
      + it.program.tearDown(it.n, i, j)
  }

  function TestParts(it: Iteration, i: nat, j: nat): seq<Part> {
    it.program.construct(it.n, i, j)
    + (if Created(it, i, j) then FixtureParts(it, i, j) else [])
    + it.program.destruct(it.n, i, j)
  }

  function FixtureEvents(it: Iteration, i: nat, j: nat): seq<Event> {
    if !Created(it, i, j) then []
    else if !SameFixtureClass(it, i, j) then [MixedFixtures(i, j)]
    else [FixtureSetUp(i, j)] + (if BodyRuns(it, i, j) then [TestBody(i, j)] else []) + [FixtureTearDown(i, j)]
  }

  function RunTestEvents(it: Iteration, i: nat, j: nat, test: TestInfo): seq<Event> {
    if !test.shouldRun then
      if test.isDisabled && test.matchesFilter then [TestDisabled(i, j)] else []
    else
      [TestStart(i, j), TestCreated(i, j)] + FixtureEvents(it, i, j)
      + [TestDeleted(i, j), TestEnd(i, j, VerdictOf(TestParts(it, i, j)))]
  }

  function SkipTestEvents(i: nat, j: nat, test: TestInfo): seq<Event> {
    if test.shouldRun then [TestStart(i, j), TestEnd(i, j, Skip)] else []
  }

  // ---------------------------------------------------------------- one suite

  // Test indices are in range.
  predicate InRange(suite: TestSuite) {
    |suite.tests| == |suite.testIndices| && forall k :: 0 <= k < |suite.tests| ==> suite.testIndices[k] < |suite.tests|
  }

  function TestAt(suite: TestSuite, k: nat): TestInfo
    requires InRange(suite) && k < |suite.tests|
  {
    suite.tests[suite.testIndices[k]]
  }

  // Whether the test in position k is skipped: the suite's set-up failed, or
  // under fail_fast an earlier test did.
  predicate SkippingTest(it: Iteration, i: nat, suite: TestSuite, k: nat)
    requires InRange(suite) && k <= |suite.tests|
  {
    if k == 0 then Failed(it.program.setUpSuite(it.n, i))
    else
      SkippingTest(it, i, suite, k - 1)
      || (it.failFast && TestAt(suite, k - 1).shouldRun && Failed(TestParts(it, i, suite.testIndices[k - 1])))
  }

  function EventsAt(it: Iteration, i: nat, suite: TestSuite, k: nat): seq<Event>
    requires InRange(suite) && k < |suite.tests|
  {
    if SkippingTest(it, i, suite, k) then SkipTestEvents(i, suite.testIndices[k], TestAt(suite, k))
    else RunTestEvents(it, i, suite.testIndices[k], TestAt(suite, k))
  }

  function EventsUpTo(it: Iteration, i: nat, suite: TestSuite, k: nat): seq<Event>
    requires InRange(suite) && k <= |suite.tests|
  {
    if k == 0 then [] else EventsUpTo(it, i, suite, k - 1) + EventsAt(it, i, suite, k - 1)
  }

  // The suite has failed after its first k tests.
  predicate TestFailedBefore(it: Iteration, i: nat, suite: TestSuite, k: nat)
    requires InRange(suite) && k <= |suite.tests|
  {
    k > 0 && (TestFailedBefore(it, i, suite, k - 1)
              || (!SkippingTest(it, i, suite, k - 1) && TestAt(suite, k - 1).shouldRun
                  && Failed(TestParts(it, i, suite.testIndices[k - 1]))))
  }

  predicate SuiteFails(it: Iteration, i: nat, suite: TestSuite)
    requires InRange(suite)
  {
    Failed(it.program.setUpSuite(it.n, i) + it.program.tearDownSuite(it.n, i))
    || TestFailedBefore(it, i, suite, |suite.tests|)
  }

  function RunSuiteEvents(it: Iteration, i: nat, suite: TestSuite): seq<Event>
    requires InRange(suite)
  {
    if !suite.shouldRun then []
    else
      [SuiteStart(i), SuiteSetUp(i, Failed(it.program.setUpSuite(it.n, i)))]
      + EventsUpTo(it, i, suite, |suite.tests|)
      + [SuiteTearDown(i), SuiteEnd(i, SuiteFails(it, i, suite))]
  }

  function SkipEventsUpTo(i: nat, suite: TestSuite, k: nat): seq<Event>
    requires InRange(suite) && k <= |suite.tests|
  {
    if k == 0 then [] else SkipEventsUpTo(i, suite, k - 1) + SkipTestEvents(i, suite.testIndices[k - 1], TestAt(suite, k - 1))
  }

  function SkipSuiteEvents(i: nat, suite: TestSuite): seq<Event>
    requires InRange(suite)
  {
    if !suite.shouldRun then []
    else [SuiteStart(i)] + SkipEventsUpTo(i, suite, |suite.tests|) + [SuiteEnd(i, false)]
  }

  // ---------------------------------------------------------------- all suites

  ghost predicate AllInRange(r: Registry) {
    && |r.indices| == |r.suites|
    && (forall k :: 0 <= k < |r.suites| ==> r.indices[k] < |r.suites|)
    && forall k :: 0 <= k < |r.suites| ==> InRange(r.suites[k])
  }

  // Whether the suite in position k is skipped: set-up of the environments
  // failed fatally, or under fail_fast an earlier suite failed.
  ghost predicate SkippingSuite(it: Iteration, fatal: bool, k: nat)
    requires AllInRange(it.registry) && k <= |it.registry.suites|
  {
    if k == 0 then fatal
    else
      var i := it.registry.indices[k - 1];
      SkippingSuite(it, fatal, k - 1)
      || (it.failFast && it.registry.suites[i].shouldRun && SuiteFails(it, i, it.registry.suites[i]))
  }

  ghost function SuitesUpTo(it: Iteration, fatal: bool, k: nat): seq<Event>
    requires AllInRange(it.registry) && k <= |it.registry.suites|
  {
    if k == 0 then []
    else
      var i := it.registry.indices[k - 1];
      SuitesUpTo(it, fatal, k - 1)
      + (if SkippingSuite(it, fatal, k - 1) then SkipSuiteEvents(i, it.registry.suites[i])
         else RunSuiteEvents(it, i, it.registry.suites[i]))
  }

  // ---------------------------------------------------------------- every selected test once, in order

  // The tests started, and the tests ended, in the order of the events.
  function Started(events: seq<Event>): seq<(nat, nat)> {
    if events == [] then []
    else
      var e := events[|events| - 1];
      Started(events[..|events| - 1]) + (if e.TestStart? then [(e.suite, e.test)] else [])
  }

  function Ended(events: seq<Event>): seq<(nat, nat)> {
    if events == [] then []
    else
      var e := events[|events| - 1];
      Ended(events[..|events| - 1]) + (if e.TestEnd? then [(e.suite, e.test)] else [])
  }

  lemma {:induction false} StartedAndEndedConcat(a: seq<Event>, b: seq<Event>)
    ensures Started(a + b) == Started(a) + Started(b)
    ensures Ended(a + b) == Ended(a) + Ended(b)
  {
    if b == [] {
      assert a + b == a;
    } else {
      var init, last := b[..|b| - 1], b[|b| - 1];
      StartedAndEndedConcat(a, init);
      assert (a + b)[..|a + b| - 1] == a + init && (a + b)[|a + b| - 1] == last;
    }
  }

  // The selected tests of a suite, and of all suites, in the current order.
  function SelectedIn(i: nat, suite: TestSuite, k: nat): seq<(nat, nat)>
    requires InRange(suite) && k <= |suite.tests|
  {
    if k == 0 then []
    else SelectedIn(i, suite, k - 1) + (if TestAt(suite, k - 1).shouldRun then [(i, suite.testIndices[k - 1])] else [])
  }

  ghost function SelectedInOrder(r: Registry, k: nat): seq<(nat, nat)>
    requires AllInRange(r) && k <= |r.suites|
  {
    if k == 0 then []
    else
      var i := r.indices[k - 1];
      SelectedInOrder(r, k - 1) + SelectedIn(i, r.suites[i], |r.suites[i].tests|)
  }

  lemma OneEvent(e: Event)
    ensures Started([e]) == if e.TestStart? then [(e.suite, e.test)] else []
    ensures Ended([e]) == if e.TestEnd? then [(e.suite, e.test)] else []
  {
    assert [e][..0] == [];
  }

  lemma TwoEvents(e: Event, e': Event)
    ensures Started([e, e']) == Started([e]) + Started([e']) && Ended([e, e']) == Ended([e]) + Ended([e'])
    ensures Started([e]) == if e.TestStart? then [(e.suite, e.test)] else []
    ensures Ended([e]) == if e.TestEnd? then [(e.suite, e.test)] else []
    ensures Started([e']) == if e'.TestStart? then [(e'.suite, e'.test)] else []
    ensures Ended([e']) == if e'.TestEnd? then [(e'.suite, e'.test)] else []
  {
    OneEvent(e);
    OneEvent(e');
    StartedAndEndedConcat([e], [e']);
    assert [e] + [e'] == [e, e'];
  }

  lemma NothingStarted()
    ensures Started([]) == [] && Ended([]) == []
  {
  }

  lemma FixtureStartsNothing(it: Iteration, i: nat, j: nat)
    ensures Started(FixtureEvents(it, i, j)) == Ended(FixtureEvents(it, i, j)) == []
  {
    hide Created, SameFixtureClass, BodyRuns, Started, Ended;
    NothingStarted();
    OneEvent(MixedFixtures(i, j));
    OneEvent(FixtureSetUp(i, j));
    OneEvent(TestBody(i, j));
    OneEvent(FixtureTearDown(i, j));
    StartedAndEndedConcat([FixtureSetUp(i, j)], [TestBody(i, j)]);
    StartedAndEndedConcat([FixtureSetUp(i, j)] + [TestBody(i, j)], [FixtureTearDown(i, j)]);
    StartedAndEndedConcat([FixtureSetUp(i, j)], [FixtureTearDown(i, j)]);
    assert [FixtureSetUp(i, j)] + [] == [FixtureSetUp(i, j)];
  }

  lemma OneTestStartsAndEnds(it: Iteration, i: nat, j: nat, test: TestInfo)
    ensures
      var once := if test.shouldRun then [(i, j)] else [];
      && Started(RunTestEvents(it, i, j, test)) == once && Ended(RunTestEvents(it, i, j, test)) == once
      && Started(SkipTestEvents(i, j, test)) == once && Ended(SkipTestEvents(i, j, test)) == once
  {
    hide FixtureEvents, TestParts, VerdictOf, Started, Ended;
    NothingStarted();
    var end := TestEnd(i, j, VerdictOf(TestParts(it, i, j)));
    TwoEvents(TestStart(i, j), TestCreated(i, j));
    TwoEvents(TestDeleted(i, j), end);
    OneEvent(TestStart(i, j));
    OneEvent(TestEnd(i, j, Skip));
    OneEvent(TestDisabled(i, j));
    StartedAndEndedConcat([TestStart(i, j)], [TestEnd(i, j, Skip)]);
    FixtureStartsNothing(it, i, j);
    StartedAndEndedConcat([TestStart(i, j), TestCreated(i, j)], FixtureEvents(it, i, j));
    StartedAndEndedConcat([TestStart(i, j), TestCreated(i, j)] + FixtureEvents(it, i, j), [TestDeleted(i, j), end]);
    assert SkipTestEvents(i, j, test) == if test.shouldRun then [TestStart(i, j)] + [TestEnd(i, j, Skip)] else [];
  }

  lemma {:induction false} SuiteRunsInOrder(it: Iteration, i: nat, suite: TestSuite, k: nat)
    requires InRange(suite) && k <= |suite.tests|
    ensures Started(EventsUpTo(it, i, suite, k)) == Ended(EventsUpTo(it, i, suite, k)) == SelectedIn(i, suite, k)
    ensures Started(SkipEventsUpTo(i, suite, k)) == Ended(SkipEventsUpTo(i, suite, k)) == SelectedIn(i, suite, k)
  {
    hide RunTestEvents, SkipTestEvents, Started, Ended, SkippingTest;
    if k == 0 {
      NothingStarted();
    } else {
      SuiteRunsInOrder(it, i, suite, k - 1);
      OneTestStartsAndEnds(it, i, suite.testIndices[k - 1], TestAt(suite, k - 1));
      StartedAndEndedConcat(EventsUpTo(it, i, suite, k - 1), EventsAt(it, i, suite, k - 1));
      StartedAndEndedConcat(SkipEventsUpTo(i, suite, k - 1),
                            SkipTestEvents(i, suite.testIndices[k - 1], TestAt(suite, k - 1)));
    }
  }

  lemma {:induction false} NothingSelected(i: nat, suite: TestSuite, k: nat)
    requires InRange(suite) && k <= |suite.tests| && forall j :: 0 <= j < |suite.tests| ==> !suite.tests[j].shouldRun
    ensures SelectedIn(i, suite, k) == []
  {
    if k == 0 {
    } else {
      NothingSelected(i, suite, k - 1);
    }
  }

  lemma SuiteStartsSelected(it: Iteration, i: nat, suite: TestSuite)
    requires InRange(suite) && (!suite.shouldRun ==> forall j :: 0 <= j < |suite.tests| ==> !suite.tests[j].shouldRun)
    ensures
      var all := SelectedIn(i, suite, |suite.tests|);
      && Started(RunSuiteEvents(it, i, suite)) == Ended(RunSuiteEvents(it, i, suite)) == all
      && Started(SkipSuiteEvents(i, suite)) == Ended(SkipSuiteEvents(i, suite)) == all
  {
    hide EventsUpTo, SkipEventsUpTo, SuiteFails, Started, Ended, SelectedIn;
    var n := |suite.tests|;
    NothingStarted();
    SuiteRunsInOrder(it, i, suite, n);
    if !suite.shouldRun {
      NothingSelected(i, suite, n);
    } else {
      var start, setUp := SuiteStart(i), SuiteSetUp(i, Failed(it.program.setUpSuite(it.n, i)));
      var end, skipEnd := SuiteEnd(i, SuiteFails(it, i, suite)), SuiteEnd(i, false);
      TwoEvents(start, setUp);
      TwoEvents(SuiteTearDown(i), end);
      OneEvent(start);
      OneEvent(skipEnd);
      StartedAndEndedConcat([start, setUp], EventsUpTo(it, i, suite, n));
      StartedAndEndedConcat([start, setUp] + EventsUpTo(it, i, suite, n), [SuiteTearDown(i), end]);
      StartedAndEndedConcat([start], SkipEventsUpTo(i, suite, n));
      StartedAndEndedConcat([start] + SkipEventsUpTo(i, suite, n), [skipEnd]);
    }
  }

  // Run or skipped, the selected tests start and end in the current order.
  lemma {:induction false} IterationRunsInOrder(it: Iteration, fatal: bool, k: nat)
    requires AllInRange(it.registry) && k <= |it.registry.suites|
    requires forall i :: 0 <= i < |it.registry.suites| ==> ShouldRunFits(it.registry.suites[i])
    ensures Started(SuitesUpTo(it, fatal, k)) == Ended(SuitesUpTo(it, fatal, k)) == SelectedInOrder(it.registry, k)
  {
    hide RunSuiteEvents, SkipSuiteEvents, SelectedIn, SkippingSuite, Started, Ended;
    if k == 0 {
      NothingStarted();
    } else {
      var i := it.registry.indices[k - 1];
      IterationRunsInOrder(it, fatal, k - 1);
      assert ShouldRunFits(it.registry.suites[i]);
      SuiteStartsSelected(it, i, it.registry.suites[i]);
      StartedAndEndedConcat(SuitesUpTo(it, fatal, k - 1), RunSuiteEvents(it, i, it.registry.suites[i]));
      StartedAndEndedConcat(SuitesUpTo(it, fatal, k - 1), SkipSuiteEvents(i, it.registry.suites[i]));
    }
  }

  lemma SelectedStep(i: nat, suite: TestSuite, k: nat)
    requires InRange(suite) && k <= |suite.tests|
    ensures SelectedIn(i, suite, k) ==
            if k == 0 then []
            else if TestAt(suite, k - 1).shouldRun then SelectedIn(i, suite, k - 1) + [(i, suite.testIndices[k - 1])]
            else SelectedIn(i, suite, k - 1)
  {
  }

  lemma CountAppended(s: seq<(nat, nat)>, x: (nat, nat), y: (nat, nat))
    ensures multiset(s + [x])[y] == multiset(s)[y] + (if x == y then 1 else 0)
  {
  }

  // Registries whose order is a permutation have every selected test exactly once in that order.
  lemma {:induction false} SelectedOnceInSuite(i: nat, suite: TestSuite, k: nat, j: nat)
    requires InRange(suite) && k <= |suite.tests| && j < |suite.tests|
    requires forall a, b :: 0 <= a < b < |suite.tests| ==> suite.testIndices[a] != suite.testIndices[b]
    ensures multiset(SelectedIn(i, suite, k))[(i, j)] == if j in suite.testIndices[..k] && suite.tests[j].shouldRun then 1 else 0
    ensures forall t :: t in SelectedIn(i, suite, k) ==> t.0 == i
  {
    hide SelectedIn;
    SelectedStep(i, suite, k);
    if k == 0 {
    } else {
      var last, before := suite.testIndices[k - 1], SelectedIn(i, suite, k - 1);
      SelectedOnceInSuite(i, suite, k - 1, j);
      CountAppended(before, (i, last), (i, j));
      assert suite.testIndices[..k] == suite.testIndices[..k - 1] + [last];
    }
  }

  ghost predicate TestsOnce(suite: TestSuite) {
    && InRange(suite)
    && (forall a, b :: 0 <= a < b < |suite.tests| ==> suite.testIndices[a] != suite.testIndices[b])
    && forall j :: 0 <= j < |suite.tests| ==> j in suite.testIndices
  }

  lemma PermutationFacts(s: seq<nat>, n: nat)
    requires IsPermutation(s, n)
    ensures |s| == n && (forall k :: 0 <= k < n ==> s[k] < n)
    ensures forall a, b :: 0 <= a < b < n ==> s[a] != s[b]
    ensures forall j :: 0 <= j < n ==> j in s
  {
    assert s[0..n] == s;
    StretchFacts(s, n, 0, n);
  }

  // What the registry's invariant says about its indices.
  lemma RegistryInRange(r: Registry)
    requires Invariant(r)
    ensures AllInRange(r)
    ensures forall a, b :: 0 <= a < b < |r.suites| ==> r.indices[a] != r.indices[b]
    ensures forall i :: 0 <= i < |r.suites| ==> i in r.indices
    ensures forall i :: 0 <= i < |r.suites| ==> TestsOnce(r.suites[i])
  {
    hide IsDeath, PermutesRange;
    DeathSuitesFirst(r);
    forall i | 0 <= i < |r.suites|
      ensures InRange(r.suites[i]) && TestsOnce(r.suites[i])
    {
      assert SuiteFits(r, i);
      PermutationFacts(r.suites[i].testIndices, |r.suites[i].tests|);
    }
  }

  // What the registry's invariant promises about the order.
  ghost predicate Permuted(r: Registry) {
    && AllInRange(r)
    && (forall a, b :: 0 <= a < b < |r.suites| ==> r.indices[a] != r.indices[b])
    && (forall i :: 0 <= i < |r.suites| ==> i in r.indices)
    && forall i :: 0 <= i < |r.suites| ==> TestsOnce(r.suites[i])
  }

  lemma {:induction false} OtherSuite(s: nat, suite: TestSuite, k: nat, i: nat, j: nat)
    requires InRange(suite) && k <= |suite.tests| && s != i
    ensures multiset(SelectedIn(s, suite, k))[(i, j)] == 0
  {
    if k == 0 {
    } else {
      OtherSuite(s, suite, k - 1, i, j);
    }
  }

  lemma {:induction false} SelectedOnceUpTo(r: Registry, k: nat, i: nat, j: nat)
    requires AllInRange(r) && k <= |r.suites| && i < |r.suites| && j < |r.suites[i].tests|
    requires forall a, b :: 0 <= a < b < |r.suites| ==> r.indices[a] != r.indices[b]
    requires forall s :: 0 <= s < |r.suites| ==> TestsOnce(r.suites[s])
    ensures multiset(SelectedInOrder(r, k))[(i, j)] == if i in r.indices[..k] && r.suites[i].tests[j].shouldRun then 1 else 0
  {
    hide SelectedIn;
    if k == 0 {
    } else {
      var s := r.indices[k - 1];
      SelectedOnceUpTo(r, k - 1, i, j);
      assert TestsOnce(r.suites[s]);
      var inSuite := SelectedIn(s, r.suites[s], |r.suites[s].tests|);
      assert r.indices[..k] == r.indices[..k - 1] + [s];
      assert s !in r.indices[..k - 1];
      if s == i {
        SelectedOnceInSuite(i, r.suites[i], |r.suites[i].tests|, j);
        assert r.suites[i].testIndices[..|r.suites[i].tests|] == r.suites[i].testIndices;
      } else {
        OtherSuite(s, r.suites[s], |r.suites[s].tests|, i, j);
      }
    }
  }

  // Each selected test starts exactly once and ends exactly once; no other test does either.
  lemma EachSelectedTestOnce(it: Iteration, fatal: bool, i: nat, j: nat)
    requires Invariant(it.registry) && forall s :: 0 <= s < |it.registry.suites| ==> ShouldRunFits(it.registry.suites[s])
    requires i < |it.registry.suites| && j < |it.registry.suites[i].tests|
    ensures AllInRange(it.registry)
    ensures
      var events := SuitesUpTo(it, fatal, |it.registry.suites|);
      var once := if it.registry.suites[i].tests[j].shouldRun then 1 else 0;
      multiset(Started(events))[(i, j)] == once && multiset(Ended(events))[(i, j)] == once
  {
    hide Invariant, SuitesUpTo, Started, Ended, SelectedInOrder, TestsOnce, ShouldRunFits, InRange;
    var r, n := it.registry, |it.registry.suites|;
    RegistryInRange(r);
    IterationRunsInOrder(it, fatal, n);
    SelectedOnceUpTo(r, n, i, j);
    assert r.indices[..n] == r.indices;
  }

  // ---------------------------------------------------------------- fail-fast

  predicate Failing(e: Event) {
    (e.TestEnd? && e.verdict == Fail) || (e.SuiteSetUp? && e.setUpFailed) || (e.SuiteEnd? && e.suiteFailed)
  }

  // Neither runs code of a test nor ends one other than as skipped.
  predicate Silent(e: Event) {
    && !e.TestCreated? && !e.MixedFixtures? && !e.FixtureSetUp? && !e.TestBody? && !e.FixtureTearDown? && !e.TestDeleted?
    && (e.TestEnd? ==> e.verdict == Skip)
  }

  ghost predicate AllSilent(events: seq<Event>) {
    forall k :: 0 <= k < |events| ==> Silent(events[k])
  }

  ghost predicate SomeFailing(events: seq<Event>) {
    exists k :: 0 <= k < |events| && Failing(events[k])
  }

  // After the first failure of a test or a suite no body runs, and every test that
  // ends is recorded as skipped.
  ghost predicate StopsAtFailure(events: seq<Event>) {
    forall a, b :: 0 <= a < b < |events| && Failing(events[a]) ==> Silent(events[b])
  }

  lemma StopsConcat(x: seq<Event>, y: seq<Event>)
    requires StopsAtFailure(x) && StopsAtFailure(y) && (SomeFailing(x) ==> AllSilent(y))
    ensures StopsAtFailure(x + y)
    ensures SomeFailing(x + y) <==> SomeFailing(x) || SomeFailing(y)
    ensures AllSilent(x + y) <==> AllSilent(x) && AllSilent(y)
  {
    var s := x + y;
    assert forall k :: 0 <= k < |s| ==> s[k] == if k < |x| then x[k] else y[k - |x|];
    if k :| 0 <= k < |y| && Failing(y[k]) {
      assert s[|x| + k] == y[k];
    }
    if k :| 0 <= k < |x| && Failing(x[k]) {
      assert s[k] == x[k];
    }
    if AllSilent(s) {
      assert forall k :: 0 <= k < |x| ==> x[k] == s[k];
      assert forall k :: 0 <= k < |y| ==> y[k] == s[|x| + k];
    }
  }

  lemma TestStops(it: Iteration, i: nat, j: nat, test: TestInfo)
    ensures
      var run, skip := RunTestEvents(it, i, j, test), SkipTestEvents(i, j, test);
      && StopsAtFailure(run) && (SomeFailing(run) ==> test.shouldRun && Failed(TestParts(it, i, j)))
      && StopsAtFailure(skip) && !SomeFailing(skip) && AllSilent(skip)
  {
    hide Created, SameFixtureClass, BodyRuns, TestParts;
  }

  lemma EmptyStops()
    ensures StopsAtFailure([]) && !SomeFailing([]) && AllSilent([])
  {
  }

  // Within a suite, under fail_fast.
  lemma {:induction false} SuiteStopsUpTo(it: Iteration, i: nat, suite: TestSuite, k: nat)
    requires it.failFast && InRange(suite) && k <= |suite.tests|
    ensures
      var events := EventsUpTo(it, i, suite, k);
      && StopsAtFailure(events)
      && (SomeFailing(events) ==> SkippingTest(it, i, suite, k) && TestFailedBefore(it, i, suite, k))
      && (Failed(it.program.setUpSuite(it.n, i)) ==> SkippingTest(it, i, suite, k) && AllSilent(events) && !SomeFailing(events))
  {
    hide RunTestEvents, SkipTestEvents, TestParts, StopsAtFailure, SomeFailing, AllSilent;
    if k == 0 {
      EmptyStops();
    } else {
      var j := suite.testIndices[k - 1];
      SuiteStopsUpTo(it, i, suite, k - 1);
      TestStops(it, i, j, TestAt(suite, k - 1));
      StopsConcat(EventsUpTo(it, i, suite, k - 1), EventsAt(it, i, suite, k - 1));
    }
  }

  lemma SkippedTestStops(i: nat, j: nat, test: TestInfo)
    ensures var skip := SkipTestEvents(i, j, test);
      StopsAtFailure(skip) && !SomeFailing(skip) && AllSilent(skip)
  {
  }

  lemma {:induction false} SkipStops(i: nat, suite: TestSuite, k: nat)
    requires InRange(suite) && k <= |suite.tests|
    ensures var events := SkipEventsUpTo(i, suite, k);
      StopsAtFailure(events) && !SomeFailing(events) && AllSilent(events)
  {
    hide SkipTestEvents, StopsAtFailure, SomeFailing, AllSilent;
    if k == 0 {
      EmptyStops();
    } else {
      SkipStops(i, suite, k - 1);
      SkippedTestStops(i, suite.testIndices[k - 1], TestAt(suite, k - 1));
      StopsConcat(SkipEventsUpTo(i, suite, k - 1), SkipTestEvents(i, suite.testIndices[k - 1], TestAt(suite, k - 1)));
    }
  }

  lemma OneEventStops(e: Event)
    ensures StopsAtFailure([e]) && (SomeFailing([e]) <==> Failing(e)) && (AllSilent([e]) <==> Silent(e))
  {
    assert [e][0] == e;
  }

  lemma FailedPrefix(a: seq<Part>, b: seq<Part>)
    ensures Failed(a) ==> Failed(a + b)
  {
    if k :| 0 <= k < |a| && (a[k].NonfatalFailure? || a[k].FatalFailure?) {
      assert (a + b)[k] == a[k];
    }
  }

  lemma SuiteStops(it: Iteration, i: nat, suite: TestSuite)
    requires it.failFast && InRange(suite)
    ensures
      var run, skip := RunSuiteEvents(it, i, suite), SkipSuiteEvents(i, suite);
      && StopsAtFailure(run) && (SomeFailing(run) ==> suite.shouldRun && SuiteFails(it, i, suite))
      && StopsAtFailure(skip) && !SomeFailing(skip) && AllSilent(skip)
  {
    hide StopsAtFailure, SomeFailing, AllSilent, EventsUpTo, SkipEventsUpTo, SkippingTest, TestFailedBefore;
    EmptyStops();
    if suite.shouldRun {
      var n := |suite.tests|;
      var setUpFailed := Failed(it.program.setUpSuite(it.n, i));
      var start, setUp := SuiteStart(i), SuiteSetUp(i, setUpFailed);
      var end, skipEnd := SuiteEnd(i, SuiteFails(it, i, suite)), SuiteEnd(i, false);
      OneEventStops(start);
      OneEventStops(setUp);
      OneEventStops(end);
      OneEventStops(SuiteTearDown(i));
      OneEventStops(skipEnd);
      SuiteStopsUpTo(it, i, suite, n);
      SkipStops(i, suite, n);
      FailedPrefix(it.program.setUpSuite(it.n, i), it.program.tearDownSuite(it.n, i));
      assert [start, setUp] == [start] + [setUp];
      StopsConcat([start], [setUp]);
      StopsConcat([start, setUp], EventsUpTo(it, i, suite, n));
      assert [SuiteTearDown(i), end] == [SuiteTearDown(i)] + [end];
      StopsConcat([SuiteTearDown(i)], [end]);
      StopsConcat([start, setUp] + EventsUpTo(it, i, suite, n), [SuiteTearDown(i), end]);
      StopsConcat([start], SkipEventsUpTo(i, suite, n));
      StopsConcat([start] + SkipEventsUpTo(i, suite, n), [skipEnd]);
    }
  }

  // Under fail_fast the iteration stops at the first failure of a test or a suite.
  lemma {:induction false} IterationStops(it: Iteration, fatal: bool, k: nat)
    requires it.failFast && AllInRange(it.registry) && k <= |it.registry.suites|
    ensures StopsAtFailure(SuitesUpTo(it, fatal, k))
    ensures SomeFailing(SuitesUpTo(it, fatal, k)) ==> SkippingSuite(it, fatal, k)
  {
    hide StopsAtFailure, SomeFailing, AllSilent, RunSuiteEvents, SkipSuiteEvents, SuiteFails;
    if k == 0 {
      EmptyStops();
    } else {
      var i := it.registry.indices[k - 1];
      var suite := it.registry.suites[i];
      IterationStops(it, fatal, k - 1);
      SuiteStops(it, i, suite);
      StopsConcat(SuitesUpTo(it, fatal, k - 1),
                  if SkippingSuite(it, fatal, k - 1) then SkipSuiteEvents(i, suite) else RunSuiteEvents(it, i, suite));
    }
  }

  lemma SkippedSuiteIsSilent(i: nat, suite: TestSuite)
    requires InRange(suite)
    ensures AllSilent(SkipSuiteEvents(i, suite)) && StopsAtFailure(SkipSuiteEvents(i, suite))
    ensures !SomeFailing(SkipSuiteEvents(i, suite))
  {
    hide StopsAtFailure, SomeFailing, AllSilent, SkipEventsUpTo, InRange;
    EmptyStops();
    var n := |suite.tests|;
    OneEventStops(SuiteStart(i));
    OneEventStops(SuiteEnd(i, false));
    SkipStops(i, suite, n);
    StopsConcat([SuiteStart(i)], SkipEventsUpTo(i, suite, n));
    StopsConcat([SuiteStart(i)] + SkipEventsUpTo(i, suite, n), [SuiteEnd(i, false)]);
  }

  // After a fatal failure of global set-up everything is skipped, fail_fast or not.
  lemma {:induction false} FatalSetUpSkipsAll(it: Iteration, k: nat)
    requires AllInRange(it.registry) && k <= |it.registry.suites|
    ensures SkippingSuite(it, true, k) && AllSilent(SuitesUpTo(it, true, k))
    ensures StopsAtFailure(SuitesUpTo(it, true, k)) && !SomeFailing(SuitesUpTo(it, true, k))
  {
    hide StopsAtFailure, SomeFailing, AllSilent, SkipSuiteEvents, RunSuiteEvents, SuiteFails;
    if k == 0 {
      EmptyStops();
    } else {
      var i := it.registry.indices[k - 1];
      FatalSetUpSkipsAll(it, k - 1);
      SkippedSuiteIsSilent(i, it.registry.suites[i]);
      StopsConcat(SuitesUpTo(it, true, k - 1), SkipSuiteEvents(i, it.registry.suites[i]));
    }
  }

  // ---------------------------------------------------------------- exactly which tests run

  // Test j of suite i is selected and reports a failure when it runs.
  predicate Fails(it: Iteration, i: nat, suite: TestSuite, j: nat)
    requires j < |suite.tests|
  {
    suite.tests[j].shouldRun && Failed(TestParts(it, i, j))
  }

  // Suite i runs and reports a failure: outside its tests or in a selected one.
  ghost predicate SuiteReportsFailure(it: Iteration, i: nat, suite: TestSuite) {
    suite.shouldRun
    && (Failed(it.program.setUpSuite(it.n, i) + it.program.tearDownSuite(it.n, i))
        || exists j :: 0 <= j < |suite.tests| && Fails(it, i, suite, j))
  }

  ghost predicate ReportsFailureAt(it: Iteration, k: nat)
    requires AllInRange(it.registry) && k < |it.registry.suites|
  {
    SuiteReportsFailure(it, it.registry.indices[k], it.registry.suites[it.registry.indices[k]])
  }

  // The test in position a of a suite that runs is not skipped: the suite's set-up
  // did not fail, and under fail_fast no test before it did.
  ghost predicate RunsInSuite(it: Iteration, i: nat, suite: TestSuite, a: nat)
    requires InRange(suite) && a < |suite.tests|
  {
    && TestAt(suite, a).shouldRun
    && !Failed(it.program.setUpSuite(it.n, i))
    && (it.failFast ==> forall b :: 0 <= b < a ==> !Fails(it, i, suite, suite.testIndices[b]))
  }

  // The suite in position k is not skipped: set-up of the environments did not
  // fail fatally, and under fail_fast no suite before it failed.
  ghost predicate SuiteRuns(it: Iteration, fatal: bool, k: nat)
    requires AllInRange(it.registry) && k < |it.registry.suites|
  {
    var r := it.registry;
    && r.suites[r.indices[k]].shouldRun
    && !fatal
    && (it.failFast ==> forall b :: 0 <= b < k ==> !ReportsFailureAt(it, b))
  }

  lemma {:induction false} SkippingTestUnrolled(it: Iteration, i: nat, suite: TestSuite, k: nat)
    requires InRange(suite) && k <= |suite.tests|
    ensures SkippingTest(it, i, suite, k) <==>
      Failed(it.program.setUpSuite(it.n, i))
      || (it.failFast && exists b :: 0 <= b < k && Fails(it, i, suite, suite.testIndices[b]))
  {
    hide Failed, TestParts;
    if k == 0 {
    } else {
      SkippingTestUnrolled(it, i, suite, k - 1);
      assert Fails(it, i, suite, suite.testIndices[k - 1]) <==>
        TestAt(suite, k - 1).shouldRun && Failed(TestParts(it, i, suite.testIndices[k - 1]));
    }
  }

  // The first test to fail is not skipped.
  lemma {:induction false} FirstFailure(it: Iteration, i: nat, suite: TestSuite, b: nat) returns (a: nat)
    requires InRange(suite) && b < |suite.tests| && !Failed(it.program.setUpSuite(it.n, i))
    requires Fails(it, i, suite, suite.testIndices[b])
    ensures a <= b && !SkippingTest(it, i, suite, a) && Fails(it, i, suite, suite.testIndices[a])
  {
    hide Fails, SkippingTest;
    SkippingTestUnrolled(it, i, suite, b);
    if !SkippingTest(it, i, suite, b) {
      a := b;
    } else {
      var c :| 0 <= c < b && Fails(it, i, suite, suite.testIndices[c]);
      a := FirstFailure(it, i, suite, c);
    }
  }

  // Whether a test before position k failed does not depend on which tests after a failure were skipped.
  lemma {:induction false} FailedBeforeUnrolled(it: Iteration, i: nat, suite: TestSuite, k: nat)
    requires InRange(suite) && k <= |suite.tests| && !Failed(it.program.setUpSuite(it.n, i))
    ensures TestFailedBefore(it, i, suite, k) <==> exists b :: 0 <= b < k && Fails(it, i, suite, suite.testIndices[b])
  {
    hide Failed, TestParts, SkippingTest;
    if k == 0 {
    } else {
      FailedBeforeUnrolled(it, i, suite, k - 1);
      SkippingTestUnrolled(it, i, suite, k - 1);
      assert Fails(it, i, suite, suite.testIndices[k - 1]) <==>
        TestAt(suite, k - 1).shouldRun && Failed(TestParts(it, i, suite.testIndices[k - 1]));
    }
  }

  // A suite that runs fails if and only if it or a selected test of it reports a failure.
  lemma SuiteFailsUnrolled(it: Iteration, i: nat, suite: TestSuite)
    requires TestsOnce(suite) && suite.shouldRun
    ensures SuiteFails(it, i, suite) <==> SuiteReportsFailure(it, i, suite)
  {
    hide Failed, Fails, TestFailedBefore;
    var n := |suite.tests|;
    FailedPrefix(it.program.setUpSuite(it.n, i), it.program.tearDownSuite(it.n, i));
    if !Failed(it.program.setUpSuite(it.n, i)) {
      FailedBeforeUnrolled(it, i, suite, n);
      if j :| 0 <= j < n && Fails(it, i, suite, j) {
        assert j in suite.testIndices;
        var b :| 0 <= b < n && suite.testIndices[b] == j;
        assert Fails(it, i, suite, suite.testIndices[b]);
      }
    }
  }

  lemma NothingReported(it: Iteration, i: nat, suite: TestSuite)
    requires !suite.shouldRun
    ensures !SuiteReportsFailure(it, i, suite)
  {
  }

  lemma {:induction false} SkippingSuiteUnrolled(it: Iteration, fatal: bool, k: nat)
    requires AllInRange(it.registry) && k <= |it.registry.suites|
    requires forall i :: 0 <= i < |it.registry.suites| ==> TestsOnce(it.registry.suites[i])
    ensures SkippingSuite(it, fatal, k) <==>
      fatal || (it.failFast && exists b :: 0 <= b < k && ReportsFailureAt(it, b))
  {
    hide SuiteReportsFailure, SuiteFails, TestsOnce;
    if k == 0 {
    } else {
      var i := it.registry.indices[k - 1];
      SkippingSuiteUnrolled(it, fatal, k - 1);
      assert TestsOnce(it.registry.suites[i]);
      if it.registry.suites[i].shouldRun {
        SuiteFailsUnrolled(it, i, it.registry.suites[i]);
      } else {
        NothingReported(it, i, it.registry.suites[i]);
      }
      assert ReportsFailureAt(it, k - 1) <==>
        it.registry.suites[i].shouldRun && SuiteFails(it, i, it.registry.suites[i]);
    }
  }

  // The events of a selected test.
  predicate OfTest(e: Event) {
    e.TestStart? || e.TestCreated? || e.MixedFixtures? || e.FixtureSetUp? || e.TestBody? || e.FixtureTearDown?
    || e.TestDeleted? || e.TestEnd?
  }

  predicate IsOf(e: Event, i: nat, j: nat) {
    OfTest(e) && e.suite == i && e.test == j
  }

  // Which of them must occur, given whether the test runs or is skipped: its start
  // and end, with the verdict on what it reported; its creation and deletion if it
  // runs; set-up and tear-down of its fixture if its constructor lets it go on with
  // the right class, the complaint about the class if with a wrong one; its body if
  // set-up lets it.
  predicate Due(it: Iteration, e: Event, test: TestInfo, runs: bool)
    requires OfTest(e)
  {
    && test.shouldRun
    && match e
       case TestCreated(_, _) => runs
       case MixedFixtures(i, j) => runs && Created(it, i, j) && !SameFixtureClass(it, i, j)
       case FixtureSetUp(i, j) => runs && FixtureRuns(it, i, j)
       case TestBody(i, j) => runs && BodyRuns(it, i, j)
       case FixtureTearDown(i, j) => runs && FixtureRuns(it, i, j)
       case TestDeleted(_, _) => runs
       case TestEnd(i, j, verdict) => verdict == if runs then VerdictOf(TestParts(it, i, j)) else Skip
       case _ => true
  }

  lemma BodyNeedsFixture(it: Iteration, i: nat, j: nat)
    ensures BodyRuns(it, i, j) ==> FixtureRuns(it, i, j)
  {
  }

  // The events of a fixture that runs.
  lemma CountFixture(it: Iteration, e: Event, i: nat, j: nat)
    requires OfTest(e)
    ensures multiset(FixtureEvents(it, i, j))[e] ==
            if (e == MixedFixtures(i, j) && Created(it, i, j) && !SameFixtureClass(it, i, j))
               || (e == FixtureSetUp(i, j) && FixtureRuns(it, i, j)) || (e == TestBody(i, j) && BodyRuns(it, i, j))
               || (e == FixtureTearDown(i, j) && FixtureRuns(it, i, j)) then 1 else 0
  {
    hide Created, SameFixtureClass, BodyRuns;
    BodyNeedsFixture(it, i, j);
  }

  lemma CountRun(it: Iteration, e: Event, i: nat, j: nat, test: TestInfo)
    requires OfTest(e)
    ensures multiset(RunTestEvents(it, i, j, test))[e] == if e.suite == i && e.test == j && Due(it, e, test, true) then 1 else 0
  {
    hide TestParts, FixtureEvents, Created, SameFixtureClass, BodyRuns, VerdictOf;
    CountFixture(it, e, i, j);
  }

  lemma CountSkip(it: Iteration, e: Event, i: nat, j: nat, test: TestInfo)
    requires OfTest(e)
    ensures multiset(SkipTestEvents(i, j, test))[e] == if e.suite == i && e.test == j && Due(it, e, test, false) then 1 else 0
  {
    hide TestParts, FixtureRuns, BodyRuns, VerdictOf;
  }

  lemma CountOneTest(it: Iteration, e: Event, i: nat, j: nat, i': nat, j': nat, test: TestInfo)
    requires IsOf(e, i, j)
    ensures multiset(RunTestEvents(it, i', j', test))[e] == if i' == i && j' == j && Due(it, e, test, true) then 1 else 0
    ensures multiset(SkipTestEvents(i', j', test))[e] == if i' == i && j' == j && Due(it, e, test, false) then 1 else 0
  {
    hide RunTestEvents, SkipTestEvents, Due;
    CountRun(it, e, i', j', test);
    CountSkip(it, e, i', j', test);
  }

  // One test more.
  lemma CountUpTo(it: Iteration, e: Event, i: nat, suite: TestSuite, k: nat)
    requires InRange(suite) && k <= |suite.tests|
    ensures k == 0 ==> multiset(EventsUpTo(it, i, suite, k))[e] == multiset(SkipEventsUpTo(i, suite, k))[e] == 0
    ensures k > 0 ==>
      var j, test := suite.testIndices[k - 1], TestAt(suite, k - 1);
      && multiset(EventsUpTo(it, i, suite, k))[e] == multiset(EventsUpTo(it, i, suite, k - 1))[e]
         + (if SkippingTest(it, i, suite, k - 1) then multiset(SkipTestEvents(i, j, test))[e]
            else multiset(RunTestEvents(it, i, j, test))[e])
      && multiset(SkipEventsUpTo(i, suite, k))[e] == multiset(SkipEventsUpTo(i, suite, k - 1))[e]
         + multiset(SkipTestEvents(i, j, test))[e]
  {
    hide RunTestEvents, SkipTestEvents, SkippingTest;
  }

  lemma {:induction false} CountInSuite(it: Iteration, e: Event, i: nat, suite: TestSuite, k: nat, a: nat)
    requires TestsOnce(suite) && k <= |suite.tests| && a < |suite.tests| && IsOf(e, i, suite.testIndices[a])
    ensures multiset(EventsUpTo(it, i, suite, k))[e] ==
            if a < k && Due(it, e, TestAt(suite, a), !SkippingTest(it, i, suite, a)) then 1 else 0
    ensures multiset(SkipEventsUpTo(i, suite, k))[e] == if a < k && Due(it, e, TestAt(suite, a), false) then 1 else 0
  {
    hide RunTestEvents, SkipTestEvents, SkippingTest, Due, EventsUpTo, SkipEventsUpTo;
    CountUpTo(it, e, i, suite, k);
    if k == 0 {
    } else {
      CountInSuite(it, e, i, suite, k - 1, a);
      CountOneTest(it, e, i, suite.testIndices[a], i, suite.testIndices[k - 1], TestAt(suite, k - 1));
    }
  }

  lemma {:induction false} CountInOther(it: Iteration, e: Event, i: nat, j: nat, i': nat, suite: TestSuite, k: nat)
    requires InRange(suite) && k <= |suite.tests| && IsOf(e, i, j) && i' != i
    ensures multiset(EventsUpTo(it, i', suite, k))[e] == 0 && multiset(SkipEventsUpTo(i', suite, k))[e] == 0
  {
    hide RunTestEvents, SkipTestEvents, SkippingTest, Due, EventsUpTo, SkipEventsUpTo;
    CountUpTo(it, e, i', suite, k);
    if k == 0 {
    } else {
      CountInOther(it, e, i, j, i', suite, k - 1);
      CountOneTest(it, e, i, j, i', suite.testIndices[k - 1], TestAt(suite, k - 1));
    }
  }

  // The frame of a suite adds no event of a test.
  lemma CountSuite(it: Iteration, e: Event, i: nat, suite: TestSuite)
    requires InRange(suite) && OfTest(e)
    ensures multiset(RunSuiteEvents(it, i, suite))[e] ==
            if suite.shouldRun then multiset(EventsUpTo(it, i, suite, |suite.tests|))[e] else 0
    ensures multiset(SkipSuiteEvents(i, suite))[e] ==
            if suite.shouldRun then multiset(SkipEventsUpTo(i, suite, |suite.tests|))[e] else 0
  {
    hide EventsUpTo, SkipEventsUpTo, SuiteFails, Failed;
  }

  ghost function EventsInPosition(it: Iteration, fatal: bool, n: nat): seq<Event>
    requires AllInRange(it.registry) && n < |it.registry.suites|
  {
    var i := it.registry.indices[n];
    if SkippingSuite(it, fatal, n) then SkipSuiteEvents(i, it.registry.suites[i])
    else RunSuiteEvents(it, i, it.registry.suites[i])
  }

  lemma SuitesStep(it: Iteration, fatal: bool, n: nat)
    requires AllInRange(it.registry) && n <= |it.registry.suites|
    ensures SuitesUpTo(it, fatal, n) ==
            if n == 0 then [] else SuitesUpTo(it, fatal, n - 1) + EventsInPosition(it, fatal, n - 1)
  {
    hide SkippingSuite, RunSuiteEvents, SkipSuiteEvents;
  }

  // An event of a test occurs only where its suite stands.
  lemma CountInPosition(it: Iteration, fatal: bool, e: Event, k: nat, n: nat, a: nat)
    requires AllInRange(it.registry) && n < |it.registry.suites| && k < |it.registry.suites|
    requires forall s, s' :: 0 <= s < s' < |it.registry.suites| ==> it.registry.indices[s] != it.registry.indices[s']
    requires forall i :: 0 <= i < |it.registry.suites| ==> TestsOnce(it.registry.suites[i])
    requires var suite := it.registry.suites[it.registry.indices[k]];
      a < |suite.tests| && IsOf(e, it.registry.indices[k], suite.testIndices[a])
    ensures
      var i := it.registry.indices[k];
      var suite := it.registry.suites[i];
      multiset(EventsInPosition(it, fatal, n))[e] ==
      if k == n && suite.shouldRun
         && Due(it, e, TestAt(suite, a), !SkippingSuite(it, fatal, k) && !SkippingTest(it, i, suite, a)) then 1 else 0
  {
    hide RunSuiteEvents, SkipSuiteEvents, SkippingTest, SkippingSuite, Due, EventsUpTo, SkipEventsUpTo, TestsOnce;
    var i, i' := it.registry.indices[k], it.registry.indices[n];
    var suite, suite' := it.registry.suites[i], it.registry.suites[i'];
    assert TestsOnce(suite);
    CountSuite(it, e, i', suite');
    if k == n {
      CountInSuite(it, e, i, suite, |suite.tests|, a);
    } else {
      assert i' != i;
      CountInOther(it, e, i, suite.testIndices[a], i', suite', |suite'.tests|);
    }
  }

  lemma {:induction false} CountInSuites(it: Iteration, fatal: bool, e: Event, k: nat, n: nat, a: nat)
    requires AllInRange(it.registry) && n <= |it.registry.suites| && k < |it.registry.suites|
    requires forall s, s' :: 0 <= s < s' < |it.registry.suites| ==> it.registry.indices[s] != it.registry.indices[s']
    requires forall i :: 0 <= i < |it.registry.suites| ==> TestsOnce(it.registry.suites[i])
    requires var suite := it.registry.suites[it.registry.indices[k]];
      a < |suite.tests| && IsOf(e, it.registry.indices[k], suite.testIndices[a])
    ensures
      var i := it.registry.indices[k];
      var suite := it.registry.suites[i];
      multiset(SuitesUpTo(it, fatal, n))[e] ==
      if k < n && suite.shouldRun
         && Due(it, e, TestAt(suite, a), !SkippingSuite(it, fatal, k) && !SkippingTest(it, i, suite, a)) then 1 else 0
  {
    hide SuitesUpTo, EventsInPosition, SkippingTest, SkippingSuite, Due, EventsUpTo, SkipEventsUpTo, TestsOnce;
    SuitesStep(it, fatal, n);
    if n == 0 {
    } else {
      CountInSuites(it, fatal, e, k, n - 1, a);
      CountInPosition(it, fatal, e, k, n - 1, a);
    }
  }

  lemma SelectedMakesRun(suite: TestSuite, j: nat)
    requires ShouldRunFits(suite) && j < |suite.tests| && suite.tests[j].shouldRun
    ensures suite.shouldRun
  {
  }

  // In an iteration exactly the events of a test that are due occur, each once.
  lemma ExactlyTheseRun(it: Iteration, fatal: bool, e: Event, k: nat, a: nat)
    requires Invariant(it.registry) && AllInRange(it.registry) && k < |it.registry.suites|
    requires forall i :: 0 <= i < |it.registry.suites| ==> ShouldRunFits(it.registry.suites[i])
    requires var suite := it.registry.suites[it.registry.indices[k]];
      a < |suite.tests| && IsOf(e, it.registry.indices[k], suite.testIndices[a])
    ensures
      var i := it.registry.indices[k];
      var suite := it.registry.suites[i];
      multiset(SuitesUpTo(it, fatal, |it.registry.suites|))[e] ==
      if Due(it, e, TestAt(suite, a), SuiteRuns(it, fatal, k) && RunsInSuite(it, i, suite, a)) then 1 else 0
  {
    hide Invariant, TestsOnce, SuitesUpTo, ReportsFailureAt, Fails, Failed, TestParts, SkippingSuite, SkippingTest;
    hide ShouldRunFits, VerdictOf, BodyRuns, FixtureRuns;
    RegistryInRange(it.registry);
    var i := it.registry.indices[k];
    var suite := it.registry.suites[i];
    CountInSuites(it, fatal, e, k, |it.registry.suites|, a);
    SkippingSuiteUnrolled(it, fatal, k);
    SkippingTestUnrolled(it, i, suite, a);
    assert ShouldRunFits(suite);
    if TestAt(suite, a).shouldRun {
      SelectedMakesRun(suite, suite.testIndices[a]);
    }
  }
}
