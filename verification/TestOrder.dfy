// What can follow what in the trace of a run: the order of all calls of user code.
module TestOrder {
  import opened TestRegistry
  import opened TestRun
  import opened TestProgram

  // Comes next in suite i, between two of its tests.
  predicate NextInSuite(i: nat, e: Event) {
    (e.TestStart? || e.TestDisabled? || e.SuiteTearDown? || e.SuiteEnd?) && e.suite == i
  }

  // Comes next where no suite is open.
  predicate NextOutside(e: Event) {
    e.SuiteStart? || e == EnvironmentsTearDownStart || e.IterationEnd?
  }

  predicate Follows(e: Event, e': Event) {
    match e
    case IterationStart(_) => e' == EnvironmentsSetUpStart || NextOutside(e')
    case EnvironmentsSetUpStart => e' == SetUp(0) || e' == EnvironmentsSetUpEnd
    case SetUp(x) => e' == SetUp(x + 1) || e' == EnvironmentsSetUpEnd
    case EnvironmentsSetUpEnd => NextOutside(e')
    case SuiteStart(i) => e' == SuiteSetUp(i, true) || e' == SuiteSetUp(i, false) || NextInSuite(i, e')
    case SuiteSetUp(i, _) => NextInSuite(i, e')
    case TestDisabled(i, _) => NextInSuite(i, e')
    case TestStart(i, j) => e' == TestCreated(i, j) || e' == TestEnd(i, j, Skip)
    case TestCreated(i, j) => e' == MixedFixtures(i, j) || e' == FixtureSetUp(i, j) || e' == TestDeleted(i, j)
    case MixedFixtures(i, j) => e' == TestDeleted(i, j)
    case FixtureSetUp(i, j) => e' == TestBody(i, j) || e' == FixtureTearDown(i, j)
    case TestBody(i, j) => e' == FixtureTearDown(i, j)
    case FixtureTearDown(i, j) => e' == TestDeleted(i, j)
    case TestDeleted(i, j) => e' == TestEnd(i, j, Pass) || e' == TestEnd(i, j, Fail) || e' == TestEnd(i, j, Skip)
    case TestEnd(i, _, _) => NextInSuite(i, e')
    case SuiteTearDown(i) => e' == SuiteEnd(i, true) || e' == SuiteEnd(i, false)
    case SuiteEnd(_, _) => NextOutside(e')
    case EnvironmentsTearDownStart => e'.TearDown? || e' == EnvironmentsTearDownEnd
    case TearDown(x) => if x == 0 then e' == EnvironmentsTearDownEnd else e' == TearDown(x - 1)
    case EnvironmentsTearDownEnd => e'.IterationEnd?
    case IterationEnd(n) => e' == IterationStart(n + 1)
  }

  ghost predicate Orderly(events: seq<Event>) {
    forall x :: 0 <= x < |events| - 1 ==> Follows(events[x], events[x + 1])
  }

  // Two orderly stretches that share an event.
  lemma Join(a: seq<Event>, e: Event, b: seq<Event>)
    requires Orderly(a + [e]) && Orderly([e] + b)
    ensures Orderly(a + [e] + b)
  {
    hide Follows;
    var s := a + [e] + b;
    forall x | 0 <= x < |s| - 1
      ensures Follows(s[x], s[x + 1])
    {
      if x < |a| {
        assert (a + [e])[x] == s[x] && (a + [e])[x + 1] == s[x + 1];
      } else {
        assert ([e] + b)[x - |a|] == s[x] && ([e] + b)[x - |a| + 1] == s[x + 1];
      }
    }
  }

  // Between event e and event e'.
  ghost predicate Between(e: Event, events: seq<Event>, e': Event) {
    Orderly([e] + events + [e'])
  }

  lemma FirstBetween(e: Event, events: seq<Event>, e': Event)
    requires Between(e, events, e') && events != []
    ensures Follows(e, events[0])
  {
    hide Follows;
    assert ([e] + events + [e'])[0] == e && ([e] + events + [e'])[1] == events[0];
  }

  lemma JoinBetween(e: Event, a: seq<Event>, b: seq<Event>, e': Event)
    requires b != [] ==> Between(e, a, b[0]) && Orderly(b + [e'])
    requires b == [] ==> Between(e, a, e')
    ensures Between(e, a + b, e')
  {
    if b == [] {
      assert a + b == a;
    } else {
      assert b + [e'] == [b[0]] + (b[1..] + [e']);
      Join([e] + a, b[0], b[1..] + [e']);
      assert [e] + a + [b[0]] + (b[1..] + [e']) == [e] + (a + b) + [e'];
    }
  }

  // Three stretches, the one in the middle possibly empty.
  lemma JoinAll(before: seq<Event>, middle: seq<Event>, after: seq<Event>)
    requires before != [] && after != [] && Orderly(after)
    requires Orderly(before + [(middle + after)[0]]) && Between(before[|before| - 1], middle, after[0])
    ensures Orderly(before + middle + after)
  {
    hide Follows;
    var s := before + middle + after;
    forall x | 0 <= x < |s| - 1
      ensures Follows(s[x], s[x + 1])
    {
      var m := [before[|before| - 1]] + middle + [after[0]];
      if x < |before| {
        var b := before + [(middle + after)[0]];
        assert Follows(b[x], b[x + 1]);
      } else if x < |before| + |middle| {
        assert Follows(m[x - |before| + 1], m[x - |before| + 2]);
      } else {
        assert Follows(after[x - |before| - |middle|], after[x - |before| - |middle| + 1]);
      }
    }
  }

  // ---------------------------------------------------------------- tests and suites

  lemma FixtureIsOrderly(it: Iteration, i: nat, j: nat)
    ensures Between(TestCreated(i, j), FixtureEvents(it, i, j), TestDeleted(i, j))
  {
    hide Created, SameFixtureClass, BodyRuns;
  }

  lemma TestEnds(i: nat, j: nat, verdict: Verdict, e': Event)
    requires NextInSuite(i, e')
    ensures Orderly([TestDeleted(i, j)] + [TestEnd(i, j, verdict), e'])
  {
  }

  lemma TestIsOrderly(it: Iteration, i: nat, j: nat, test: TestInfo, e': Event)
    requires NextInSuite(i, e')
    ensures var run, skip := RunTestEvents(it, i, j, test), SkipTestEvents(i, j, test);
      && (run != [] ==> NextInSuite(i, run[0]) && Orderly(run + [e']))
      && (skip != [] ==> NextInSuite(i, skip[0]) && Orderly(skip + [e']))
  {
    hide FixtureEvents, TestParts, VerdictOf;
    if test.shouldRun {
      var start, created := TestStart(i, j), TestCreated(i, j);
      var deleted, end := TestDeleted(i, j), TestEnd(i, j, VerdictOf(TestParts(it, i, j)));
      FixtureIsOrderly(it, i, j);
      var fixture := FixtureEvents(it, i, j);
      assert [created] + (fixture + [deleted]) == [created] + fixture + [deleted];
      Join([start], created, fixture + [deleted]);
      assert [start] + [created] + (fixture + [deleted]) == [start, created] + fixture + [deleted];
      TestEnds(i, j, end.verdict, e');
      Join([start, created] + fixture, deleted, [end, e']);
      assert [start, created] + fixture + [deleted] + [end, e'] == RunTestEvents(it, i, j, test) + [e'];
    }
  }

  lemma NothingBetween(e: Event, e': Event)
    requires Follows(e, e')
    ensures Between(e, [], e')
  {
  }

  lemma {:induction false} TestsAreOrderly(it: Iteration, i: nat, suite: TestSuite, k: nat, e: Event, e': Event)
    requires InRange(suite) && k <= |suite.tests| && NextInSuite(i, e')
    requires e == SuiteStart(i) || (e.SuiteSetUp? && e.suite == i)
    ensures Between(e, EventsUpTo(it, i, suite, k), e') && Between(e, SkipEventsUpTo(i, suite, k), e')
  {
    hide RunTestEvents, SkipTestEvents, SkippingTest, Between, Orderly;
    if k == 0 {
      NothingBetween(e, e');
    } else {
      var j, test := suite.testIndices[k - 1], TestAt(suite, k - 1);
      var last, skipped := EventsAt(it, i, suite, k - 1), SkipTestEvents(i, j, test);
      TestIsOrderly(it, i, j, test, e');
      TestsAreOrderly(it, i, suite, k - 1, e, if last == [] then e' else last[0]);
      TestsAreOrderly(it, i, suite, k - 1, e, if skipped == [] then e' else skipped[0]);
      JoinBetween(e, EventsUpTo(it, i, suite, k - 1), last, e');
      JoinBetween(e, SkipEventsUpTo(i, suite, k - 1), skipped, e');
    }
  }

  lemma SuiteIsOrderly(it: Iteration, i: nat, suite: TestSuite, e': Event)
    requires InRange(suite) && NextOutside(e')
    ensures var run, skip := RunSuiteEvents(it, i, suite), SkipSuiteEvents(i, suite);
      && (run != [] ==> NextOutside(run[0]) && Orderly(run + [e']))
      && (skip != [] ==> NextOutside(skip[0]) && Orderly(skip + [e']))
  {
    hide EventsUpTo, SkipEventsUpTo, SuiteFails, Failed, InRange;
    if suite.shouldRun {
      var n := |suite.tests|;
      var start, setUp := SuiteStart(i), SuiteSetUp(i, Failed(it.program.setUpSuite(it.n, i)));
      var tearDown, end, skipEnd := SuiteTearDown(i), SuiteEnd(i, SuiteFails(it, i, suite)), SuiteEnd(i, false);
      TestsAreOrderly(it, i, suite, n, setUp, tearDown);
      TestsAreOrderly(it, i, suite, n, start, skipEnd);
      var tests, skips := EventsUpTo(it, i, suite, n), SkipEventsUpTo(i, suite, n);
      assert [setUp] + tests + [tearDown] == [setUp] + (tests + [tearDown]);
      Join([start], setUp, tests + [tearDown]);
      assert [start] + [setUp] + (tests + [tearDown]) == [start, setUp] + tests + [tearDown];
      Join([start, setUp] + tests, tearDown, [end, e']);
      assert [start, setUp] + tests + [tearDown] + [end, e'] == RunSuiteEvents(it, i, suite) + [e'];
      Join([start] + skips, skipEnd, [e']);
    }
  }

  lemma {:induction false} SuitesAreOrderly(it: Iteration, fatal: bool, n: nat, e: Event, e': Event)
    requires AllInRange(it.registry) && n <= |it.registry.suites| && NextOutside(e')
    requires e.IterationStart? || e == EnvironmentsSetUpEnd
    ensures Between(e, SuitesUpTo(it, fatal, n), e')
  {
    hide RunSuiteEvents, SkipSuiteEvents, SkippingSuite, Between, Orderly, SuitesUpTo;
    SuitesStep(it, fatal, n);
    if n == 0 {
      NothingBetween(e, e');
    } else {
      var i := it.registry.indices[n - 1];
      var last := EventsInPosition(it, fatal, n - 1);
      SuiteIsOrderly(it, i, it.registry.suites[i], e');
      SuitesAreOrderly(it, fatal, n - 1, e, if last == [] then e' else last[0]);
      JoinBetween(e, SuitesUpTo(it, fatal, n - 1), last, e');
    }
  }

  // ---------------------------------------------------------------- iterations

  lemma {:induction false} EnvironmentAt(k: nat)
    ensures SetUps(k) == seq(k, x requires 0 <= x < k => SetUp(x))
    ensures TearDowns(k) == seq(k, x requires 0 <= x < k => TearDown(k - 1 - x))
  {
    if k == 0 {
    } else {
      EnvironmentAt(k - 1);
    }
  }

  lemma EnvironmentsAreOrderly(k: nat)
    ensures Between(EnvironmentsSetUpStart, SetUps(k), EnvironmentsSetUpEnd)
    ensures Between(EnvironmentsTearDownStart, TearDowns(k), EnvironmentsTearDownEnd)
  {
    EnvironmentAt(k);
  }

  lemma OneFollows(e: Event, e': Event)
    requires Follows(e, e')
    ensures Orderly([e] + [e'])
  {
  }

  lemma SetUpIsOrderly(s: Settings, n: nat, e: Event)
    requires NextOutside(e)
    ensures var events := [IterationStart(n)] + SetUpEvents(s, n);
      Orderly(events + [e]) && (events[|events| - 1] == EnvironmentsSetUpEnd || events == [IterationStart(n)])
  {
    hide SetUps, Orderly;
    var m := s.program.environments;
    OneFollows(IterationStart(n), e);
    if s.hasTests && SetsUp(s, n) {
      var start, end := EnvironmentsSetUpStart, EnvironmentsSetUpEnd;
      EnvironmentsAreOrderly(m);
      OneFollows(IterationStart(n), start);
      OneFollows(end, e);
      assert [start] + (SetUps(m) + [end]) == [start] + SetUps(m) + [end];
      Join([IterationStart(n)], start, SetUps(m) + [end]);
      assert [IterationStart(n)] + [start] + (SetUps(m) + [end]) == [IterationStart(n), start] + SetUps(m) + [end];
      Join([IterationStart(n), start] + SetUps(m), end, [e]);
      assert [IterationStart(n)] + SetUpEvents(s, n) + [e] == [IterationStart(n), start] + SetUps(m) + [end] + [e];
    } else {
      assert [IterationStart(n)] + SetUpEvents(s, n) + [e] == [IterationStart(n)] + [e];
    }
  }

  lemma OneAlone(e: Event)
    ensures Orderly([e])
  {
  }

  lemma TearDownIsOrderly(s: Settings, n: nat, repeat: int)
    ensures var events := TearDownEvents(s, n, repeat) + [IterationEnd(n)];
      Orderly(events) && NextOutside(events[0])
  {
    hide TearDowns, Orderly;
    var m := s.program.environments;
    if s.hasTests && TearsDown(s, n, repeat) {
      var start, end := EnvironmentsTearDownStart, EnvironmentsTearDownEnd;
      EnvironmentsAreOrderly(m);
      OneFollows(end, IterationEnd(n));
      Join([start] + TearDowns(m), end, [IterationEnd(n)]);
    } else {
      OneAlone(IterationEnd(n));
      assert TearDownEvents(s, n, repeat) + [IterationEnd(n)] == [IterationEnd(n)];
    }
  }

  lemma IterationIsOrderly(s: Settings, n: nat, repeat: int, adHoc: seq<Part>)
    requires Invariant(s.registry) && AllInRange(IterationOf(s, n).registry)
    ensures var events := IterationEvents(s, n, repeat, adHoc);
      Orderly(events) && |events| > 0 && events[0] == IterationStart(n) && events[|events| - 1] == IterationEnd(n)
  {
    hide Invariant, IterationOf, AllInRange, SuitesUpTo, SetUpEvents, TearDownEvents, AdHocAfterSetUp, Skipped,
         HasFatalFailure, Orderly;
    var it, adHoc' := IterationOf(s, n), AdHocAfterSetUp(s, n, adHoc);
    var tests := if s.hasTests then TestEvents(it, adHoc') else [];
    var before, after := [IterationStart(n)] + SetUpEvents(s, n), TearDownEvents(s, n, repeat) + [IterationEnd(n)];
    TearDownIsOrderly(s, n, repeat);
    if tests == [] {
      SetUpIsOrderly(s, n, after[0]);
      NothingBetween(before[|before| - 1], after[0]);
      assert tests + after == after;
    } else {
      SuitesAreOrderly(it, HasFatalFailure(adHoc'), |it.registry.suites|, EnvironmentsSetUpEnd, after[0]);
      FirstBetween(EnvironmentsSetUpEnd, tests, after[0]);
      SetUpIsOrderly(s, n, tests[0]);
      SuitesAreOrderly(it, HasFatalFailure(adHoc'), |it.registry.suites|, before[|before| - 1], after[0]);
    }
    JoinAll(before, tests, after);
    assert before + tests + after == IterationEvents(s, n, repeat, adHoc);
  }

  lemma NothingIsOrderly()
    ensures Orderly([])
  {
  }

  lemma JoinTwo(a: seq<Event>, b: seq<Event>)
    requires Orderly(a) && Orderly(b) && (a != [] && b != [] ==> Follows(a[|a| - 1], b[0]))
    ensures Orderly(a + b)
  {
    hide Follows;
    forall x | 0 <= x < |a + b| - 1
      ensures Follows((a + b)[x], (a + b)[x + 1])
    {
      if x >= |a| {
        assert Follows(b[x - |a|], b[x - |a| + 1]);
      }
    }
  }

  // In the trace of any number of iterations, whatever user code reports, each event
  // is followed by one that may come next; iteration n + 1 begins where iteration n ends.
  lemma {:induction false} RunIsOrderly(s: Settings, repeat: int, adHoc: seq<Part>, k: nat)
    requires Invariant(s.registry)
    ensures
      var events := EventsOfRun(s, repeat, adHoc, k);
      && Orderly(events)
      && (k == 0 <==> events == [])
      && (k > 0 ==> events[0] == IterationStart(0) && events[|events| - 1] == IterationEnd(k - 1))
  {
    hide Invariant, IterationOf, IterationEvents, AdHocUpTo, Orderly, EventsOfRun, AllInRange;
    RunUpTo(s, repeat, adHoc, k);
    if k == 0 {
      NothingIsOrderly();
    } else {
      var before := EventsOfRun(s, repeat, adHoc, k - 1);
      var last := IterationEvents(s, k - 1, repeat, AdHocUpTo(s, repeat, adHoc, k - 1));
      RunIsOrderly(s, repeat, adHoc, k - 1);
      IterationIsOrderly(s, k - 1, repeat, AdHocUpTo(s, repeat, adHoc, k - 1));
      JoinTwo(before, last);
    }
  }
}
