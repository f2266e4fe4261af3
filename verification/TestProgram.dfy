// A whole run of the program as a sequence of events: iterations, environments,
// and what every iteration does with the tests.
module TestProgram {
  import opened TestRegistry
  import opened TestRun

  // ---------------------------------------------------------------- the run as a function

  // hasTests: some test is selected.  A negative repeat count, below, is an endless run.
  datatype Settings = Settings(program: Program, registry: Registry, hasTests: bool, failFast: bool,
                               shuffle: bool, recreateEnvironments: bool, firstSeed: nat)

  // ---------------------------------------------------------------- random seeds

  const MAX_RANDOM_SEED: nat := 99999

  // rawSeed: the flag, or the clock if the flag is 0, as an unsigned number; 0 wraps around.
  function NormalizedSeed(rawSeed: nat): (seed: nat)
    ensures 1 <= seed <= MAX_RANDOM_SEED
  {
    (rawSeed + 0xFFFF_FFFF) % 0x1_0000_0000 % MAX_RANDOM_SEED + 1
  }

  function NextSeed(seed: nat): nat {
    if seed + 1 > MAX_RANDOM_SEED then 1 else seed + 1
  }

  // The seed of iteration n.
  function SeedAt(s: Settings, n: nat): nat {
    if n == 0 then s.firstSeed else NextSeed(SeedAt(s, n - 1))
  }

  // From a valid seed on all seeds are valid, and they run through all valid ones in a cycle.
  lemma {:induction false} SeedsCycle(s: Settings, n: nat)
    requires 1 <= s.firstSeed <= MAX_RANDOM_SEED
    ensures 1 <= SeedAt(s, n) <= MAX_RANDOM_SEED
    ensures SeedAt(s, n) == (s.firstSeed - 1 + n) % MAX_RANDOM_SEED + 1
  {
    if n == 0 {
    } else {
      SeedsCycle(s, n - 1);
    }
  }

  // The seeds in numbers: from 1 to 99999 and round again; a flag in that range is
  // taken as it is, any other is brought into it, and 0 wraps around.
  lemma SeedsInNumbers(seed: nat, rawSeed: nat)
    ensures seed < 99999 ==> NextSeed(seed) == seed + 1
    ensures seed >= 99999 ==> NextSeed(seed) == 1
    ensures 1 <= rawSeed <= 99999 ==> NormalizedSeed(rawSeed) == rawSeed
    ensures 1 <= rawSeed < 4294967296 ==> NormalizedSeed(rawSeed) == (rawSeed - 1) % 99999 + 1
    ensures NormalizedSeed(0) == 10246
  {
    if 1 <= rawSeed < 4294967296 {
      assert (rawSeed - 1 + 4294967296) % 4294967296 == rawSeed - 1;
    }
  }

  // ---------------------------------------------------------------- iterations

  ghost function IterationOf(s: Settings, n: nat): Iteration
    requires Invariant(s.registry)
  {
    Iteration(n, s.failFast, s.program,
              if s.hasTests && s.shuffle then ShuffleAll(s.registry, SeedAt(s, n)) else s.registry)
  }

  predicate SetsUp(s: Settings, n: nat) { n == 0 || s.recreateEnvironments }

  predicate TearsDown(s: Settings, n: nat, repeat: int) { n + 1 == repeat || s.recreateEnvironments }

  function SetUps(k: nat): seq<Event> {
    if k == 0 then [] else SetUps(k - 1) + [SetUp(k - 1)]
  }

  // In reverse order.
  function TearDowns(k: nat): seq<Event> {
    if k == 0 then [] else [TearDown(k - 1)] + TearDowns(k - 1)
  }

  // What the environments report.
  function SetUpParts(p: Program, n: nat, k: nat): seq<Part> {
    if k == 0 then [] else SetUpParts(p, n, k - 1) + p.setUpEnvironment(n, k - 1)
  }

  function TearDownParts(p: Program, n: nat, k: nat): seq<Part> {
    if k == 0 then [] else p.tearDownEnvironment(n, k - 1) + TearDownParts(p, n, k - 1)
  }

  // The tests of an iteration, given the results reported outside tests so far:
  // not even skipped if set-up asked to skip, skipped if it failed fatally.
  ghost function TestEvents(it: Iteration, adHoc: seq<Part>): seq<Event>
    requires AllInRange(it.registry)
  {
    if Skipped(adHoc) then [] else SuitesUpTo(it, HasFatalFailure(adHoc), |it.registry.suites|)
  }

  function AdHocAfterSetUp(s: Settings, n: nat, adHoc: seq<Part>): seq<Part> {
    if s.hasTests && SetsUp(s, n) then adHoc + SetUpParts(s.program, n, s.program.environments) else adHoc
  }

  function AdHocAfter(s: Settings, n: nat, repeat: int, adHoc: seq<Part>): seq<Part> {
    AdHocAfterSetUp(s, n, adHoc)
    + (if s.hasTests && TearsDown(s, n, repeat) then TearDownParts(s.program, n, s.program.environments) else [])
  }

  function SetUpEvents(s: Settings, n: nat): seq<Event> {
    if s.hasTests && SetsUp(s, n) then
      [EnvironmentsSetUpStart] + SetUps(s.program.environments) + [EnvironmentsSetUpEnd]
    else []
  }

  function TearDownEvents(s: Settings, n: nat, repeat: int): seq<Event> {
    if s.hasTests && TearsDown(s, n, repeat) then
      [EnvironmentsTearDownStart] + TearDowns(s.program.environments) + [EnvironmentsTearDownEnd]
    else []
  }

  ghost function IterationEvents(s: Settings, n: nat, repeat: int, adHoc: seq<Part>): seq<Event>
    requires Invariant(s.registry) && AllInRange(IterationOf(s, n).registry)
  {
    [IterationStart(n)]
    + SetUpEvents(s, n)
    + (if s.hasTests then TestEvents(IterationOf(s, n), AdHocAfterSetUp(s, n, adHoc)) else [])
    + TearDownEvents(s, n, repeat)
    + [IterationEnd(n)]
  }

  lemma SameNumberOfSuites(r: Registry, state: nat)
    requires Invariant(r)
    ensures |ShuffleAll(r, state).suites| == |r.suites|
  {
    SameNamesAfterShuffle(r, state);
    assert |Names(ShuffleAll(r, state).suites)| == |Names(r.suites)|;
  }

  lemma IterationInRange(s: Settings, n: nat)
    requires Invariant(s.registry)
    ensures Invariant(IterationOf(s, n).registry) && AllInRange(IterationOf(s, n).registry)
    ensures |IterationOf(s, n).registry.suites| == |s.registry.suites|
    ensures forall i :: 0 <= i < |s.registry.suites| ==> TestsOnce(IterationOf(s, n).registry.suites[i])
  {
    hide Invariant, ShuffleAll, AllInRange, TestsOnce;
    InvariantBounds(s.registry);
    if s.hasTests && s.shuffle {
      ShuffleAllFits(s.registry, SeedAt(s, n));
      SameNumberOfSuites(s.registry, SeedAt(s, n));
    }
    RegistryInRange(IterationOf(s, n).registry);
  }

  // The first k iterations.
  ghost function AdHocUpTo(s: Settings, repeat: int, adHoc: seq<Part>, k: nat): seq<Part> {
    if k == 0 then adHoc else AdHocAfter(s, k - 1, repeat, AdHocUpTo(s, repeat, adHoc, k - 1))
  }

  ghost function EventsOfRun(s: Settings, repeat: int, adHoc: seq<Part>, k: nat): seq<Event>
    requires Invariant(s.registry)
  {
    if k == 0 then []
    else
      IterationInRange(s, k - 1);
      EventsOfRun(s, repeat, adHoc, k - 1) + IterationEvents(s, k - 1, repeat, AdHocUpTo(s, repeat, adHoc, k - 1))
  }

  lemma NothingForgotten(s: Settings, n: nat, repeat: int, adHoc: seq<Part>)
    ensures adHoc <= AdHocAfterSetUp(s, n, adHoc) <= AdHocAfter(s, n, repeat, adHoc)
  {
  }

  // What was reported outside the suites is never forgotten, not even between iterations.
  lemma {:induction false} OutsideResultsStay(s: Settings, repeat: int, adHoc: seq<Part>, n: nat, m: nat)
    requires n <= m
    ensures adHoc <= AdHocUpTo(s, repeat, adHoc, n) <= AdHocUpTo(s, repeat, adHoc, m)
    decreases m
  {
    hide AdHocAfter;
    if m == 0 {
    } else {
      OutsideResultsStay(s, repeat, adHoc, if n == m then n - 1 else n, m - 1);
      NothingForgotten(s, m - 1, repeat, AdHocUpTo(s, repeat, adHoc, m - 1));
    }
  }

  // ---------------------------------------------------------------- environments balance

  function EnvironmentEvents(events: seq<Event>): seq<Event> {
    if events == [] then []
    else
      var e := events[|events| - 1];
      EnvironmentEvents(events[..|events| - 1]) + (if e.SetUp? || e.TearDown? then [e] else [])
  }

  lemma {:induction false} EnvironmentEventsConcat(a: seq<Event>, b: seq<Event>)
    ensures EnvironmentEvents(a + b) == EnvironmentEvents(a) + EnvironmentEvents(b)
  {
    if b == [] {
      assert a + b == a;
    } else {
      EnvironmentEventsConcat(a, b[..|b| - 1]);
      assert (a + b)[..|a + b| - 1] == a + b[..|b| - 1];
    }
  }

  ghost predicate NoEnvironments(events: seq<Event>) {
    forall k :: 0 <= k < |events| ==> !events[k].SetUp? && !events[k].TearDown?
  }

  lemma {:induction false} NoEnvironmentEvents(events: seq<Event>)
    requires NoEnvironments(events)
    ensures EnvironmentEvents(events) == []
  {
    if events == [] {
    } else {
      NoEnvironmentEvents(events[..|events| - 1]);
    }
  }

  lemma NothingHasNoEnvironments()
    ensures NoEnvironments([])
  {
  }

  lemma OneTestHasNoEnvironments(it: Iteration, i: nat, j: nat, test: TestInfo)
    ensures NoEnvironments(RunTestEvents(it, i, j, test)) && NoEnvironments(SkipTestEvents(i, j, test))
  {
    hide TestParts, Created, SameFixtureClass, BodyRuns, VerdictOf;
  }

  lemma {:induction false} TestsHaveNoEnvironments(it: Iteration, i: nat, suite: TestSuite, k: nat)
    requires InRange(suite) && k <= |suite.tests|
    ensures NoEnvironments(EventsUpTo(it, i, suite, k)) && NoEnvironments(SkipEventsUpTo(i, suite, k))
  {
    hide RunTestEvents, SkipTestEvents, SkippingTest;
    if k == 0 {
    } else {
      TestsHaveNoEnvironments(it, i, suite, k - 1);
      OneTestHasNoEnvironments(it, i, suite.testIndices[k - 1], TestAt(suite, k - 1));
    }
  }

  lemma OneSuiteHasNoEnvironments(it: Iteration, i: nat, suite: TestSuite)
    requires InRange(suite)
    ensures NoEnvironments(RunSuiteEvents(it, i, suite)) && NoEnvironments(SkipSuiteEvents(i, suite))
  {
    hide InRange, SuiteFails, EventsUpTo, SkipEventsUpTo, Failed;
    TestsHaveNoEnvironments(it, i, suite, |suite.tests|);
  }

  lemma NoEnvironmentsConcat(a: seq<Event>, b: seq<Event>)
    requires NoEnvironments(a) && NoEnvironments(b)
    ensures NoEnvironments(a + b)
  {
  }

  lemma {:induction false} SuitesHaveNoEnvironments(it: Iteration, fatal: bool, k: nat)
    requires AllInRange(it.registry) && k <= |it.registry.suites|
    ensures NoEnvironments(SuitesUpTo(it, fatal, k))
  {
    hide SkippingSuite, RunSuiteEvents, SkipSuiteEvents, NoEnvironments, InRange;
    if k == 0 {
      NothingHasNoEnvironments();
    } else {
      var i := it.registry.indices[k - 1];
      SuitesHaveNoEnvironments(it, fatal, k - 1);
      OneSuiteHasNoEnvironments(it, i, it.registry.suites[i]);
      NoEnvironmentsConcat(SuitesUpTo(it, fatal, k - 1), RunSuiteEvents(it, i, it.registry.suites[i]));
      NoEnvironmentsConcat(SuitesUpTo(it, fatal, k - 1), SkipSuiteEvents(i, it.registry.suites[i]));
    }
  }

  lemma SingleEnvironmentEvent(e: Event)
    ensures EnvironmentEvents([e]) == if e.SetUp? || e.TearDown? then [e] else []
  {
    assert [e][..0] == [];
  }

  lemma {:induction false} OnlyEnvironments(k: nat)
    ensures EnvironmentEvents(SetUps(k)) == SetUps(k) && EnvironmentEvents(TearDowns(k)) == TearDowns(k)
  {
    hide EnvironmentEvents;
    if k == 0 {
      NothingHasNoEnvironments();
      NoEnvironmentEvents([]);
    } else {
      OnlyEnvironments(k - 1);
      EnvironmentEventsConcat(SetUps(k - 1), [SetUp(k - 1)]);
      EnvironmentEventsConcat([TearDown(k - 1)], TearDowns(k - 1));
      SingleEnvironmentEvent(SetUp(k - 1));
      SingleEnvironmentEvent(TearDown(k - 1));
    }
  }

  // All environments set up in order, then torn down in reverse order.
  function Round(environments: nat): seq<Event> {
    SetUps(environments) + TearDowns(environments)
  }

  function Rounds(environments: nat, k: nat): seq<Event> {
    if k == 0 then [] else Rounds(environments, k - 1) + Round(environments)
  }

  lemma SetUpEnvironments(s: Settings, n: nat)
    ensures EnvironmentEvents(SetUpEvents(s, n)) ==
            if s.hasTests && SetsUp(s, n) then SetUps(s.program.environments) else []
  {
    hide EnvironmentEvents, SetUps;
    NoEnvironmentEvents([]);
    var m := s.program.environments;
    OnlyEnvironments(m);
    SingleEnvironmentEvent(EnvironmentsSetUpStart);
    SingleEnvironmentEvent(EnvironmentsSetUpEnd);
    EnvironmentEventsConcat([EnvironmentsSetUpStart], SetUps(m));
    EnvironmentEventsConcat([EnvironmentsSetUpStart] + SetUps(m), [EnvironmentsSetUpEnd]);
  }

  lemma TearDownEnvironments(s: Settings, n: nat, repeat: int)
    ensures EnvironmentEvents(TearDownEvents(s, n, repeat)) ==
            if s.hasTests && TearsDown(s, n, repeat) then TearDowns(s.program.environments) else []
  {
    hide EnvironmentEvents, TearDowns;
    NoEnvironmentEvents([]);
    var m := s.program.environments;
    OnlyEnvironments(m);
    SingleEnvironmentEvent(EnvironmentsTearDownStart);
    SingleEnvironmentEvent(EnvironmentsTearDownEnd);
    EnvironmentEventsConcat([EnvironmentsTearDownStart], TearDowns(m));
    EnvironmentEventsConcat([EnvironmentsTearDownStart] + TearDowns(m), [EnvironmentsTearDownEnd]);
  }

  // What one iteration does with the environments.
  lemma IterationEnvironments(s: Settings, n: nat, repeat: int, adHoc: seq<Part>)
    requires Invariant(s.registry)
    ensures AllInRange(IterationOf(s, n).registry)
    ensures EnvironmentEvents(IterationEvents(s, n, repeat, adHoc)) ==
            (if s.hasTests && SetsUp(s, n) then SetUps(s.program.environments) else [])
            + (if s.hasTests && TearsDown(s, n, repeat) then TearDowns(s.program.environments) else [])
  {
    hide Invariant, IterationOf, AllInRange, EnvironmentEvents, SuitesUpTo, SetUps, TearDowns;
    IterationInRange(s, n);
    var m := s.program.environments;
    var tests := if s.hasTests then TestEvents(IterationOf(s, n), AdHocAfterSetUp(s, n, adHoc)) else [];
    SuitesHaveNoEnvironments(IterationOf(s, n), HasFatalFailure(AdHocAfterSetUp(s, n, adHoc)), |IterationOf(s, n).registry.suites|);
    NoEnvironmentEvents(tests);
    NoEnvironmentEvents([]);
    SingleEnvironmentEvent(IterationStart(n));
    SingleEnvironmentEvent(IterationEnd(n));
    SetUpEnvironments(s, n);
    TearDownEnvironments(s, n, repeat);
    var a := [IterationStart(n)];
    EnvironmentEventsConcat(a, SetUpEvents(s, n));
    EnvironmentEventsConcat(a + SetUpEvents(s, n), tests);
    EnvironmentEventsConcat(a + SetUpEvents(s, n) + tests, TearDownEvents(s, n, repeat));
    EnvironmentEventsConcat(a + SetUpEvents(s, n) + tests + TearDownEvents(s, n, repeat), [IterationEnd(n)]);
  }

  // One iteration more.
  lemma RunUpTo(s: Settings, repeat: int, adHoc: seq<Part>, k: nat)
    requires Invariant(s.registry)
    ensures k == 0 ==> EventsOfRun(s, repeat, adHoc, k) == []
    ensures k > 0 ==> AllInRange(IterationOf(s, k - 1).registry)
    ensures k > 0 ==>
      EventsOfRun(s, repeat, adHoc, k) ==
      EventsOfRun(s, repeat, adHoc, k - 1) + IterationEvents(s, k - 1, repeat, AdHocUpTo(s, repeat, adHoc, k - 1))
  {
    hide Invariant, AllInRange, IterationOf, IterationEvents, AdHocUpTo;
    if k > 0 {
      IterationInRange(s, k - 1);
    }
  }

  lemma RoundsUpTo(environments: nat, k: nat)
    ensures Rounds(environments, k) == if k == 0 then [] else Rounds(environments, k - 1) + Round(environments)
  {
  }

  lemma NothingAdded(before: seq<Event>, ups: seq<Event>, downs: seq<Event>)
    ensures before + ([] + []) == before && before + ([] + downs) == before + downs
    ensures [] + (ups + downs) == ups + downs && [] + (ups + []) == ups == ups + [] && ups + [] + downs == ups + downs
  {
  }

  // Over k of `repeat` iterations, or the first k of an endless run: a full round
  // per iteration if environments are recreated; otherwise one set-up at the start
  // and one tear-down at the end.
  lemma {:induction false} EnvironmentsBalance(s: Settings, repeat: int, adHoc: seq<Part>, k: nat)
    requires Invariant(s.registry) && (if repeat < 0 then s.recreateEnvironments else k <= repeat)
    ensures EnvironmentEvents(EventsOfRun(s, repeat, adHoc, k)) ==
            if !s.hasTests || k == 0 then []
            else if s.recreateEnvironments then Rounds(s.program.environments, k)
            else SetUps(s.program.environments) + (if k == repeat then TearDowns(s.program.environments) else [])
  {
    hide Invariant, IterationOf, IterationEvents, EnvironmentEvents, SetUps, TearDowns, AllInRange, AdHocUpTo;
    hide EventsOfRun, Rounds;
    RunUpTo(s, repeat, adHoc, k);
    RoundsUpTo(s.program.environments, k);
    if k == 0 {
      NoEnvironmentEvents([]);
    } else {
      var before := EventsOfRun(s, repeat, adHoc, k - 1);
      var adHoc' := AdHocUpTo(s, repeat, adHoc, k - 1);
      EnvironmentsBalance(s, repeat, adHoc, k - 1);
      RoundsUpTo(s.program.environments, k - 1);
      IterationEnvironments(s, k - 1, repeat, adHoc');
      EnvironmentEventsConcat(before, IterationEvents(s, k - 1, repeat, adHoc'));
      NothingAdded(EnvironmentEvents(before), SetUps(s.program.environments), TearDowns(s.program.environments));
    }
  }

  // A complete run with at least one iteration ends with every environment torn down.
  lemma WholeRunBalances(s: Settings, repeat: int, adHoc: seq<Part>)
    requires Invariant(s.registry) && repeat > 0 && s.hasTests
    ensures EnvironmentEvents(EventsOfRun(s, repeat, adHoc, repeat)) ==
            Rounds(s.program.environments, if s.recreateEnvironments then repeat else 1)
  {
    hide EventsOfRun, EnvironmentEvents, SetUps, TearDowns, Invariant;
    EnvironmentsBalance(s, repeat, adHoc, repeat);
    assert Rounds(s.program.environments, 1) == [] + Round(s.program.environments);
  }

  // ---------------------------------------------------------------- the tests of every iteration

  // What filtering established: suites run exactly for their tests, and there are
  // tests to run exactly if some suite runs.
  ghost predicate Selects(s: Settings) {
    && (forall i :: 0 <= i < |s.registry.suites| ==> ShouldRunFits(s.registry.suites[i]))
    && (s.hasTests <==> exists i :: 0 <= i < |s.registry.suites| && s.registry.suites[i].shouldRun)
  }

  // Neither a test event nor a failure of a test or suite.
  predicate IsFrame(e: Event) {
    e.SetUp? || e.TearDown? || e.EnvironmentsSetUpStart? || e.EnvironmentsSetUpEnd?
    || e.EnvironmentsTearDownStart? || e.EnvironmentsTearDownEnd? || e.IterationStart? || e.IterationEnd?
  }

  ghost predicate AllFrame(events: seq<Event>) {
    forall k :: 0 <= k < |events| ==> IsFrame(events[k])
  }

  lemma {:induction false} FrameFacts(events: seq<Event>)
    requires AllFrame(events)
    ensures Started(events) == Ended(events) == []
    ensures StopsAtFailure(events) && !SomeFailing(events) && AllSilent(events)
  {
    if events == [] {
    } else {
      FrameFacts(events[..|events| - 1]);
    }
  }

  lemma {:induction false} EnvironmentsAreFrame(k: nat)
    ensures AllFrame(SetUps(k)) && AllFrame(TearDowns(k))
  {
    if k == 0 {
    } else {
      EnvironmentsAreFrame(k - 1);
    }
  }

  // An iteration is its tests, with other events before and after.
  lemma IterationParts(s: Settings, n: nat, repeat: int, adHoc: seq<Part>) returns (before: seq<Event>, after: seq<Event>)
    requires Invariant(s.registry) && AllInRange(IterationOf(s, n).registry)
    ensures AllFrame(before) && AllFrame(after)
    ensures IterationEvents(s, n, repeat, adHoc) ==
            before + (if s.hasTests then TestEvents(IterationOf(s, n), AdHocAfterSetUp(s, n, adHoc)) else []) + after
  {
    hide Invariant, IterationOf, AllInRange, TestEvents, AdHocAfterSetUp, SetUps, TearDowns;
    EnvironmentsAreFrame(s.program.environments);
    before, after := [IterationStart(n)] + SetUpEvents(s, n), TearDownEvents(s, n, repeat) + [IterationEnd(n)];
  }

  lemma NothingRuns(suite: TestSuite, j: nat)
    requires ShouldRunFits(suite) && !suite.shouldRun && j < |suite.tests|
    ensures !suite.tests[j].shouldRun
  {
  }

  // Shuffling does not change what is selected.
  lemma IterationKeepsTests(s: Settings, n: nat)
    requires Invariant(s.registry) && Selects(s)
    ensures var r := IterationOf(s, n).registry;
      && |r.suites| == |s.registry.suites|
      && forall k :: 0 <= k < |r.suites| ==> r.suites[k].tests == s.registry.suites[k].tests && ShouldRunFits(r.suites[k])
  {
    hide Invariant, ShuffleAll;
    var r := IterationOf(s, n).registry;
    if s.hasTests && s.shuffle {
      ShuffleKeepsTests(s.registry, SeedAt(s, n));
    }
    forall k | 0 <= k < |r.suites|
      ensures r.suites[k].tests == s.registry.suites[k].tests && ShouldRunFits(r.suites[k])
    {
      assert ShouldRunFits(s.registry.suites[k]);
    }
  }

  // In every iteration, shuffled or not, each selected test starts exactly once and
  // ends exactly once - unless global set-up asked to skip, when none does - and no
  // other test does either.
  lemma EveryIterationRunsEachTestOnce(s: Settings, n: nat, repeat: int, adHoc: seq<Part>, i: nat, j: nat)
    requires Invariant(s.registry) && Selects(s)
    requires i < |s.registry.suites| && j < |s.registry.suites[i].tests|
    ensures AllInRange(IterationOf(s, n).registry)
    ensures
      var events := IterationEvents(s, n, repeat, adHoc);
      var once := if s.registry.suites[i].tests[j].shouldRun && !Skipped(AdHocAfterSetUp(s, n, adHoc)) then 1 else 0;
      multiset(Started(events))[(i, j)] == once && multiset(Ended(events))[(i, j)] == once
  {
    hide Invariant, AllInRange, IterationEvents, Started, Ended, AdHocAfterSetUp, Skipped, ShouldRunFits, ShuffleAll, SuitesUpTo;
    IterationInRange(s, n);
    var it, adHoc' := IterationOf(s, n), AdHocAfterSetUp(s, n, adHoc);
    var tests := if s.hasTests then TestEvents(it, adHoc') else [];
    var before, after := IterationParts(s, n, repeat, adHoc);
    FrameFacts(before);
    FrameFacts(after);
    StartedAndEndedConcat(before, tests);
    StartedAndEndedConcat(before + tests, after);
    assert Started(before + tests + after) == Started(tests) && Ended(before + tests + after) == Ended(tests);
    NothingStarted();
    assert ShouldRunFits(s.registry.suites[i]);
    if s.hasTests {
      IterationKeepsTests(s, n);
      EachSelectedTestOnce(it, HasFatalFailure(adHoc'), i, j);
    } else {
      NothingRuns(s.registry.suites[i], j);
    }
  }

  // Under fail_fast no body runs after a failure of a test or a suite in any
  // iteration, and tests that end after it end as skipped.  After a fatal failure
  // of global set-up no body runs at all, fail_fast or not.
  lemma EveryIterationStopsAtFailure(s: Settings, n: nat, repeat: int, adHoc: seq<Part>)
    requires Invariant(s.registry)
    ensures AllInRange(IterationOf(s, n).registry)
    ensures s.failFast ==> StopsAtFailure(IterationEvents(s, n, repeat, adHoc))
    ensures HasFatalFailure(AdHocAfterSetUp(s, n, adHoc)) ==> AllSilent(IterationEvents(s, n, repeat, adHoc))
  {
    hide Invariant, AllInRange, IterationEvents, AdHocAfterSetUp, Skipped, ShuffleAll, SuitesUpTo;
    hide StopsAtFailure, SomeFailing, AllSilent, HasFatalFailure;
    IterationInRange(s, n);
    var it, adHoc' := IterationOf(s, n), AdHocAfterSetUp(s, n, adHoc);
    var tests := if s.hasTests then TestEvents(it, adHoc') else [];
    var before, after := IterationParts(s, n, repeat, adHoc);
    FrameFacts(before);
    FrameFacts(after);
    EmptyStops();
    if HasFatalFailure(adHoc') {
      FatalSetUpSkipsAll(it, |it.registry.suites|);
    }
    if s.failFast {
      IterationStops(it, HasFatalFailure(adHoc'), |it.registry.suites|);
    }
    if s.failFast || HasFatalFailure(adHoc') {
      StopsConcat(before, tests);
      StopsConcat(before + tests, after);
    }
  }

  lemma FrameHasNoTest(events: seq<Event>, e: Event)
    requires AllFrame(events) && OfTest(e)
    ensures multiset(events)[e] == 0
  {
    assert e !in events;
  }

  // Which tests an iteration runs, exactly: of the events of a test those that are
  // due occur once, and no others.
  lemma EveryIterationRunsExactly(s: Settings, n: nat, repeat: int, adHoc: seq<Part>, e: Event, k: nat, a: nat)
    requires Invariant(s.registry) && Selects(s) && AllInRange(IterationOf(s, n).registry)
    requires k < |IterationOf(s, n).registry.suites|
    requires var r := IterationOf(s, n).registry;
      a < |r.suites[r.indices[k]].tests| && IsOf(e, r.indices[k], r.suites[r.indices[k]].testIndices[a])
    ensures
      var it, adHoc' := IterationOf(s, n), AdHocAfterSetUp(s, n, adHoc);
      var i := it.registry.indices[k];
      var suite := it.registry.suites[i];
      multiset(IterationEvents(s, n, repeat, adHoc))[e] ==
      if !Skipped(adHoc')
         && Due(it, e, TestAt(suite, a), SuiteRuns(it, HasFatalFailure(adHoc'), k) && RunsInSuite(it, i, suite, a))
      then 1 else 0
  {
    hide Invariant, IterationEvents, AdHocAfterSetUp, Skipped, HasFatalFailure, ShouldRunFits, ShuffleAll;
    hide SuitesUpTo, SuiteRuns, RunsInSuite, FixtureRuns, BodyRuns, VerdictOf, TestParts;
    var it, adHoc' := IterationOf(s, n), AdHocAfterSetUp(s, n, adHoc);
    var tests := if s.hasTests then TestEvents(it, adHoc') else [];
    var before, after := IterationParts(s, n, repeat, adHoc);
    IterationInRange(s, n);
    IterationKeepsTests(s, n);
    FrameHasNoTest(before, e);
    FrameHasNoTest(after, e);
    assert multiset(IterationEvents(s, n, repeat, adHoc))[e] == multiset(tests)[e];
    if s.hasTests {
      ExactlyTheseRun(it, HasFatalFailure(adHoc'), e, k, a);
    } else {
      var i := it.registry.indices[k];
      assert ShouldRunFits(it.registry.suites[i]);
      NothingRuns(it.registry.suites[i], it.registry.suites[i].testIndices[a]);
    }
  }

  // The same for the bodies, in full: the body of test j of suite i starts if and
  // only if global set-up neither skipped nor failed fatally, the test is selected,
  // set-up of its suite did not fail, the test object was created without a fatal
  // failure or a skip, with the fixture class of the suite, set-up of the fixture
  // left it without either too, and under fail_fast no selected test before it in
  // its suite and no suite before its suite reports a failure.
  lemma BodyStartsExactlyWhen(s: Settings, n: nat, repeat: int, adHoc: seq<Part>, k: nat, a: nat)
    requires Invariant(s.registry) && Selects(s) && AllInRange(IterationOf(s, n).registry)
    requires k < |IterationOf(s, n).registry.suites|
    requires var r := IterationOf(s, n).registry; a < |r.suites[r.indices[k]].tests|
    ensures
      var it, adHoc' := IterationOf(s, n), AdHocAfterSetUp(s, n, adHoc);
      var i := it.registry.indices[k];
      var suite := it.registry.suites[i];
      var j := suite.testIndices[a];
      var constructed := s.program.construct(n, i, j);
      TestBody(i, j) in IterationEvents(s, n, repeat, adHoc) <==>
        && !Skipped(adHoc') && !HasFatalFailure(adHoc')
        && suite.tests[j].shouldRun
        && !Failed(s.program.setUpSuite(n, i))
        && !HasFatalFailure(constructed) && !Skipped(constructed)
        && s.program.fixtureClass(i, j) == s.program.fixtureClass(i, 0)
        && !HasFatalFailure(constructed + s.program.setUp(n, i, j)) && !Skipped(constructed + s.program.setUp(n, i, j))
        && (s.failFast ==>
              && (forall b :: 0 <= b < a ==> !Fails(it, i, suite, suite.testIndices[b]))
              && (forall b :: 0 <= b < k ==> !ReportsFailureAt(it, b)))
  {
    hide Invariant, IterationEvents, AdHocAfterSetUp, Skipped, HasFatalFailure, ShuffleAll, Failed, Fails;
    hide ReportsFailureAt;
    var r := IterationOf(s, n).registry;
    var i := r.indices[k];
    var j := r.suites[i].testIndices[a];
    EveryIterationRunsExactly(s, n, repeat, adHoc, TestBody(i, j), k, a);
    if r.suites[i].tests[j].shouldRun {
      IterationKeepsTests(s, n);
      SelectedMakesRun(r.suites[i], j);
    }
  }

  lemma SkippingStops()
    ensures MayGoOn([]) && !MayGoOn([SkipPart]) && VerdictOf([SkipPart]) == Skip
  {
    assert [SkipPart][0].SkipPart?;
  }

  // What is due for a test whose set-up skips.
  lemma SkippingSetUpDue(it: Iteration, i: nat, j: nat, test: TestInfo, runs: bool)
    requires it.program.construct(it.n, i, j) == [] && it.program.setUp(it.n, i, j) == [SkipPart]
    ensures !Due(it, TestBody(i, j), test, runs)
    ensures Due(it, FixtureSetUp(i, j), test, runs) <==> Due(it, FixtureTearDown(i, j), test, runs)
    ensures SameFixtureClass(it, i, j) && it.program.tearDown(it.n, i, j) == it.program.destruct(it.n, i, j) == [] ==>
      forall v :: Due(it, TestEnd(i, j, v), test, runs) ==> v == Skip
  {
    assert [] + [SkipPart] == [SkipPart];
    SkippingStops();
    hide MayGoOn, VerdictOf;
    if SameFixtureClass(it, i, j) && it.program.tearDown(it.n, i, j) == it.program.destruct(it.n, i, j) == [] {
      assert TestParts(it, i, j) == [SkipPart];
    }
  }

  lemma OrderOf(s: Settings, n: nat)
    requires Invariant(s.registry)
    ensures IterationOf(s, n).program == s.program && IterationOf(s, n).n == n
  {
  }

  // A set-up that skips: the body of that test never starts, in no iteration and
  // whatever else happens; where its fixture is set up it is torn down, and if
  // nothing else is reported the test ends as skipped.
  lemma SkippingSetUpHasNoBody(s: Settings, n: nat, repeat: int, adHoc: seq<Part>, k: nat, a: nat)
    requires Invariant(s.registry) && Selects(s) && AllInRange(IterationOf(s, n).registry)
    requires k < |IterationOf(s, n).registry.suites|
    requires var r := IterationOf(s, n).registry; a < |r.suites[r.indices[k]].tests|
    requires var r := IterationOf(s, n).registry;
      var i := r.indices[k];
      var j := r.suites[i].testIndices[a];
      s.program.construct(n, i, j) == [] && s.program.setUp(n, i, j) == [SkipPart]
    ensures
      var r, events := IterationOf(s, n).registry, IterationEvents(s, n, repeat, adHoc);
      var i := r.indices[k];
      var j := r.suites[i].testIndices[a];
      && TestBody(i, j) !in events
      && (FixtureSetUp(i, j) in events <==> FixtureTearDown(i, j) in events)
      && (s.program.fixtureClass(i, j) == s.program.fixtureClass(i, 0)
          && s.program.tearDown(n, i, j) == s.program.destruct(n, i, j) == [] ==>
            forall v :: TestEnd(i, j, v) in events ==> v == Skip)
  {
    hide Invariant, IterationEvents, AdHocAfterSetUp, ShuffleAll, IterationOf, SuiteRuns, RunsInSuite;
    hide Due, Skipped, HasFatalFailure;
    var r, it, adHoc' := IterationOf(s, n).registry, IterationOf(s, n), AdHocAfterSetUp(s, n, adHoc);
    var i := r.indices[k];
    var j := r.suites[i].testIndices[a];
    OrderOf(s, n);
    SkippingSetUpDue(it, i, j, TestAt(r.suites[i], a), SuiteRuns(it, HasFatalFailure(adHoc'), k) && RunsInSuite(it, i, r.suites[i], a));
    EveryIterationRunsExactly(s, n, repeat, adHoc, TestBody(i, j), k, a);
    EveryIterationRunsExactly(s, n, repeat, adHoc, FixtureSetUp(i, j), k, a);
    EveryIterationRunsExactly(s, n, repeat, adHoc, FixtureTearDown(i, j), k, a);
    forall v | TestEnd(i, j, v) in IterationEvents(s, n, repeat, adHoc)
      ensures Due(it, TestEnd(i, j, v), TestAt(r.suites[i], a), SuiteRuns(it, HasFatalFailure(adHoc'), k) && RunsInSuite(it, i, r.suites[i], a))
    {
      EveryIterationRunsExactly(s, n, repeat, adHoc, TestEnd(i, j, v), k, a);
    }
  }

  // What is due for a test with the wrong fixture class.
  lemma MixedFixturesDue(it: Iteration, i: nat, j: nat, test: TestInfo, runs: bool)
    requires it.program.construct(it.n, i, j) == [] && !SameFixtureClass(it, i, j)
    ensures !Due(it, TestBody(i, j), test, runs) && !Due(it, FixtureSetUp(i, j), test, runs)
    ensures !Due(it, FixtureTearDown(i, j), test, runs) && !Due(it, TestEnd(i, j, Pass), test, runs)
  {
    assert Created(it, i, j);
    assert TestParts(it, i, j)[0] == NonfatalFailure;
  }

  // A test defined with another fixture class than the first of its suite: neither
  // its set-up nor its body nor its tear-down starts, and if it is run it fails.
  lemma MixedFixturesHaveNoBody(s: Settings, n: nat, repeat: int, adHoc: seq<Part>, k: nat, a: nat)
    requires Invariant(s.registry) && Selects(s) && AllInRange(IterationOf(s, n).registry)
    requires k < |IterationOf(s, n).registry.suites|
    requires var r := IterationOf(s, n).registry; a < |r.suites[r.indices[k]].tests|
    requires var r := IterationOf(s, n).registry;
      var i := r.indices[k];
      var j := r.suites[i].testIndices[a];
      s.program.construct(n, i, j) == [] && s.program.fixtureClass(i, j) != s.program.fixtureClass(i, 0)
    ensures
      var r, events := IterationOf(s, n).registry, IterationEvents(s, n, repeat, adHoc);
      var i := r.indices[k];
      var j := r.suites[i].testIndices[a];
      && FixtureSetUp(i, j) !in events && TestBody(i, j) !in events && FixtureTearDown(i, j) !in events
      && TestEnd(i, j, Pass) !in events
  {
    hide Invariant, IterationEvents, AdHocAfterSetUp, ShuffleAll, IterationOf, SuiteRuns, RunsInSuite;
    hide Due, Skipped, HasFatalFailure;
    var r, it, adHoc' := IterationOf(s, n).registry, IterationOf(s, n), AdHocAfterSetUp(s, n, adHoc);
    var i := r.indices[k];
    var j := r.suites[i].testIndices[a];
    OrderOf(s, n);
    MixedFixturesDue(it, i, j, TestAt(r.suites[i], a), SuiteRuns(it, HasFatalFailure(adHoc'), k) && RunsInSuite(it, i, r.suites[i], a));
    EveryIterationRunsExactly(s, n, repeat, adHoc, TestBody(i, j), k, a);
    EveryIterationRunsExactly(s, n, repeat, adHoc, FixtureSetUp(i, j), k, a);
    EveryIterationRunsExactly(s, n, repeat, adHoc, FixtureTearDown(i, j), k, a);
    EveryIterationRunsExactly(s, n, repeat, adHoc, TestEnd(i, j, Pass), k, a);
  }

  // Suites and tests that report nothing at all, with one fixture class per suite.
  ghost predicate ReportsNothing(p: Program) {
    && (forall n, i :: p.setUpSuite(n, i) == [] && p.tearDownSuite(n, i) == [])
    && (forall i, j :: p.fixtureClass(i, j) == p.fixtureClass(i, 0))
    && (forall n, i, j :: p.construct(n, i, j) == [] && p.destruct(n, i, j) == [])
    && (forall n, i, j :: p.setUp(n, i, j) == [] && p.body(n, i, j) == [] && p.tearDown(n, i, j) == [])
  }

  lemma NothingIsReported(s: Settings, n: nat)
    requires Invariant(s.registry) && AllInRange(IterationOf(s, n).registry) && ReportsNothing(s.program)
    ensures var it := IterationOf(s, n);
      && (forall k :: 0 <= k < |it.registry.suites| ==> !ReportsFailureAt(it, k))
      && forall i, j :: 0 <= i < |it.registry.suites| && 0 <= j < |it.registry.suites[i].tests| ==>
           !Fails(it, i, it.registry.suites[i], j)
  {
    hide Invariant, ShuffleAll;
    var it := IterationOf(s, n);
    assert it.program == s.program;
    assert forall i, j :: TestParts(it, i, j) == [];
  }

  // A failure that global set-up reports stops nothing unless it is fatal: with
  // fail_fast set and one environment whose set-up fails, every selected test runs.
  lemma FailingEnvironmentStopsNothing(s: Settings, repeat: int, k: nat, a: nat)
    requires Invariant(s.registry) && Selects(s) && AllInRange(IterationOf(s, 0).registry)
    requires s.failFast && ReportsNothing(s.program)
    requires s.program.environments == 1 && s.program.setUpEnvironment(0, 0) == [NonfatalFailure]
    requires k < |IterationOf(s, 0).registry.suites|
    requires var r := IterationOf(s, 0).registry;
      var suite := r.suites[r.indices[k]];
      a < |suite.tests| && TestAt(suite, a).shouldRun
    ensures var r := IterationOf(s, 0).registry;
      TestBody(r.indices[k], r.suites[r.indices[k]].testIndices[a]) in IterationEvents(s, 0, repeat, [])
    ensures s.hasTests ==> Failed(AdHocAfterSetUp(s, 0, []))
  {
    hide Invariant, IterationEvents, ShuffleAll, IterationOf, ReportsFailureAt, Fails;
    var parts := AdHocAfterSetUp(s, 0, []);
    assert SetUpParts(s.program, 0, 1) == SetUpParts(s.program, 0, 0) + [NonfatalFailure];
    assert parts == if s.hasTests then [NonfatalFailure] else [];
    assert s.hasTests ==> parts[0] == NonfatalFailure;
    BodyStartsExactlyWhen(s, 0, repeat, [], k, a);
    NothingIsReported(s, 0);
  }
}
