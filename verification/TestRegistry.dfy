// Registered test suites and tests: registration keeps death test suites in
// front, shuffling permutes an index, unshuffling restores it.
module TestRegistry {
  import opened Shuffle
  import opened TestFilter

  datatype TestInfo = TestInfo(name: string, isDisabled: bool, matchesFilter: bool,
                               isInAnotherShard: bool, shouldRun: bool)

  datatype TestSuite = TestSuite(name: string, tests: seq<TestInfo>, testIndices: seq<nat>, shouldRun: bool)

  // The state UnitTestImpl keeps: the suites in registration order, the order
  // to run them in, and the position of the last death test suite (-1 if none).
  datatype Registry = Registry(suites: seq<TestSuite>, indices: seq<nat>, lastDeath: int)

  const EMPTY := Registry([], [], -1)

  // ---------------------------------------------------------------- registration

  ghost predicate IsDeath(name: string) {
    InFilter(DEATH_TEST_SUITE_FILTER, name)
  }

  function NewSuite(name: string): TestSuite {
    TestSuite(name, [], [], false)
  }

  // Searches backwards, as the source does; -1 if there is none.
  function FindSuite(suites: seq<TestSuite>, name: string): (k: int)
    ensures -1 <= k < |suites|
    ensures k >= 0 ==> suites[k].name == name
    ensures k < 0 ==> forall i :: 0 <= i < |suites| ==> suites[i].name != name
  {
    if suites == [] then -1
    else if suites[|suites| - 1].name == name then |suites| - 1
    else FindSuite(suites[..|suites| - 1], name)
  }

  // A new suite goes behind the last death test suite if it is one, else to the end.
  function InsertAt(suites: seq<TestSuite>, k: nat, suite: TestSuite): seq<TestSuite>
    requires k <= |suites|
  {
    suites[..k] + [suite] + suites[k..]
  }

  ghost function WithSuite(r: Registry, name: string): Registry
    requires -1 <= r.lastDeath < |r.suites|
  {
    if FindSuite(r.suites, name) >= 0 then r
    else if IsDeath(name) then
      Registry(InsertAt(r.suites, r.lastDeath + 1, NewSuite(name)), r.indices + [|r.indices|], r.lastDeath + 1)
    else
      Registry(r.suites + [NewSuite(name)], r.indices + [|r.indices|], r.lastDeath)
  }

  function WithTest(suite: TestSuite, test: TestInfo): TestSuite {
    suite.(tests := suite.tests + [test], testIndices := suite.testIndices + [|suite.testIndices|])
  }

  ghost function Register(r: Registry, suiteName: string, test: TestInfo): Registry
    requires -1 <= r.lastDeath < |r.suites|
  {
    var r' := WithSuite(r, suiteName);
    var k := FindSuite(r'.suites, suiteName);
    if k < 0 then r' else r'.(suites := r'.suites[k := WithTest(r'.suites[k], test)])
  }

  // ---------------------------------------------------------------- shuffling

  function Identity(n: nat): (s: seq<nat>)
    ensures |s| == n && forall k :: 0 <= k < n ==> s[k] == k
  {
    seq(n, k => k)
  }

  // Shuffles the tests of each suite in turn.
  function ShuffleSuites(suites: seq<TestSuite>, state: nat): seq<TestSuite> {
    if suites == [] then []
    else
      var n := |suites[0].testIndices|;
      [suites[0].(testIndices := Shuffled(suites[0].testIndices, 0, n, Draws(state, n)))]
      + ShuffleSuites(suites[1..], StateAfter(state, n))
  }

  // The draws go to the front half of the order first, then to the back half, then to each suite.
  function ShuffleAll(r: Registry, state: nat): Registry
    requires -1 <= r.lastDeath < |r.suites| == |r.indices|
  {
    var d, n := r.lastDeath + 1, |r.suites|;
    var once := Shuffled(r.indices, 0, d, Draws(state, d));
    ShufflePermutes(r.indices, 0, d, Draws(state, d));
    var state' := StateAfter(state, d);
    var twice := Shuffled(once, d, n - d, Draws(state', n - d));
    r.(indices := twice, suites := ShuffleSuites(r.suites, StateAfter(state', n - d)))
  }

  function Unshuffled(suite: TestSuite): TestSuite {
    suite.(testIndices := Identity(|suite.testIndices|))
  }

  function UnshuffleAll(r: Registry): Registry {
    r.(suites := seq(|r.suites|, k requires 0 <= k < |r.suites| => Unshuffled(r.suites[k])),
       indices := Identity(|r.suites|))
  }

  // ---------------------------------------------------------------- the invariant

  // A permutation of 0 .. n-1.
  ghost predicate IsPermutation(s: seq<nat>, n: nat) {
    PermutesRange(Identity(n), s, 0, n)
  }

  ghost predicate SuiteFits(r: Registry, k: nat)
    requires k < |r.suites|
  {
    && (k <= r.lastDeath <==> IsDeath(r.suites[k].name))
    && |r.suites[k].tests| == |r.suites[k].testIndices|
    && IsPermutation(r.suites[k].testIndices, |r.suites[k].tests|)
  }

  // A suite should run if and only if one of its tests should.
  ghost predicate ShouldRunFits(suite: TestSuite) {
    suite.shouldRun <==> exists j :: 0 <= j < |suite.tests| && suite.tests[j].shouldRun
  }

  // Names are unique, the death test suites are exactly the first ones, and the
  // order to run them in permutes the death test suites and the others separately.
  ghost predicate Invariant(r: Registry) {
    && -1 <= r.lastDeath < |r.suites| == |r.indices|
    && (forall k :: 0 <= k < |r.suites| ==> SuiteFits(r, k))
    && (forall i, j :: 0 <= i < j < |r.suites| ==> r.suites[i].name != r.suites[j].name)
    && multiset(r.indices[..r.lastDeath + 1]) == multiset(Identity(|r.suites|)[..r.lastDeath + 1])
    && multiset(r.indices[r.lastDeath + 1..]) == multiset(Identity(|r.suites|)[r.lastDeath + 1..])
  }

  // The order of the first registration.
  ghost predicate InOrder(r: Registry) {
    && r.indices == Identity(|r.suites|)
    && forall k :: 0 <= k < |r.suites| ==> r.suites[k].testIndices == Identity(|r.suites[k].tests|)
  }

  // ---------------------------------------------------------------- every operation keeps it

  lemma IdentityGrows(n: nat)
    ensures Identity(n + 1) == Identity(n) + [n]
  {
  }

  lemma {:induction false} PermutationGrows(s: seq<nat>, n: nat)
    requires |s| == n && s == Identity(n)
    ensures s + [n] == Identity(n + 1) && IsPermutation(s + [n], n + 1)
  {
    PermutesItself(Identity(n + 1), 0, n + 1);
  }

  lemma IdentityIsPermutation(n: nat)
    ensures IsPermutation(Identity(n), n)
  {
    PermutesItself(Identity(n), 0, n);
  }

  lemma IdentityHalves(r: Registry)
    requires -1 <= r.lastDeath < |r.suites| && r.indices == Identity(|r.suites|)
    ensures multiset(r.indices[..r.lastDeath + 1]) == multiset(Identity(|r.suites|)[..r.lastDeath + 1])
    ensures multiset(r.indices[r.lastDeath + 1..]) == multiset(Identity(|r.suites|)[r.lastDeath + 1..])
  {
  }

  lemma EmptyFits()
    ensures Invariant(EMPTY) && InOrder(EMPTY)
  {
  }

  // The suites of r with a new one in position `at`.
  ghost predicate Inserted(suites: seq<TestSuite>, suites': seq<TestSuite>, at: nat, suite: TestSuite) {
    && at <= |suites| && |suites'| == |suites| + 1 && suites'[at] == suite
    && (forall k :: 0 <= k < at ==> suites'[k] == suites[k])
    && (forall k :: at < k < |suites'| ==> suites'[k] == suites[k - 1])
  }

  lemma InsertedNames(suites: seq<TestSuite>, suites': seq<TestSuite>, at: nat, name: string)
    requires Inserted(suites, suites', at, NewSuite(name))
    requires forall i :: 0 <= i < |suites| ==> suites[i].name != name
    requires forall i, j :: 0 <= i < j < |suites| ==> suites[i].name != suites[j].name
    ensures forall i, j :: 0 <= i < j < |suites'| ==> suites'[i].name != suites'[j].name
  {
    forall i, j | 0 <= i < j < |suites'|
      ensures suites'[i].name != suites'[j].name
    {
      if i != at && j != at {
        assert suites[if i < at then i else i - 1].name != suites[if j < at then j else j - 1].name;
      }
    }
  }

  lemma SuiteIsFound(suites: seq<TestSuite>, k: nat)
    requires k < |suites|
    ensures FindSuite(suites, suites[k].name) >= 0
  {
    hide FindSuite;
  }

  lemma InsertedSuiteFits(r: Registry, r': Registry, at: nat, name: string, k: nat)
    requires Invariant(r) && InOrder(r)
    requires at == (if IsDeath(name) then r.lastDeath + 1 else |r.suites|) && k < |r'.suites|
    requires Inserted(r.suites, r'.suites, at, NewSuite(name))
    requires r'.lastDeath == r.lastDeath + (if IsDeath(name) then 1 else 0)
    ensures SuiteFits(r', k) && r'.suites[k].testIndices == Identity(|r'.suites[k].tests|)
  {
    hide IsDeath, IsPermutation;
    if k == at {
      IdentityIsPermutation(0);
      assert Identity(0) == [];
    } else {
      var i := if k < at then k else k - 1;
      assert SuiteFits(r, i) && r'.suites[k] == r.suites[i];
    }
  }

  lemma InsertedFits(r: Registry, r': Registry, at: nat, name: string)
    requires Invariant(r) && InOrder(r) && FindSuite(r.suites, name) < 0
    requires at == if IsDeath(name) then r.lastDeath + 1 else |r.suites|
    requires Inserted(r.suites, r'.suites, at, NewSuite(name))
    requires r'.indices == r.indices + [|r.indices|] && r'.lastDeath == r.lastDeath + (if IsDeath(name) then 1 else 0)
    ensures Invariant(r') && InOrder(r') && FindSuite(r'.suites, name) >= 0
  {
    hide IsDeath, IsPermutation, FindSuite;
    InsertedNames(r.suites, r'.suites, at, name);
    SuiteIsFound(r'.suites, at);
    IdentityGrows(|r.suites|);
    forall k | 0 <= k < |r'.suites|
      ensures SuiteFits(r', k) && r'.suites[k].testIndices == Identity(|r'.suites[k].tests|)
    {
      InsertedSuiteFits(r, r', at, name, k);
    }
    IdentityHalves(r');
  }

  lemma InsertedAt(suites: seq<TestSuite>, at: nat, suite: TestSuite)
    requires at <= |suites|
    ensures Inserted(suites, InsertAt(suites, at, suite), at, suite)
    ensures at == |suites| ==> InsertAt(suites, at, suite) == suites + [suite]
  {
  }

  lemma InvariantBounds(r: Registry)
    requires Invariant(r)
    ensures -1 <= r.lastDeath < |r.suites| == |r.indices|
    ensures forall k :: 0 <= k < |r.suites| ==> |r.suites[k].tests| == |r.suites[k].testIndices|
  {
    forall k | 0 <= k < |r.suites|
      ensures |r.suites[k].tests| == |r.suites[k].testIndices|
    {
      assert SuiteFits(r, k);
    }
  }

  // Creating a suite on demand.
  lemma WithSuiteFits(r: Registry, name: string)
    requires Invariant(r) && InOrder(r)
    ensures Invariant(WithSuite(r, name)) && InOrder(WithSuite(r, name))
    ensures FindSuite(WithSuite(r, name).suites, name) >= 0
  {
    hide IsDeath, IsPermutation, Invariant, InOrder, InsertAt, Inserted;
    InvariantBounds(r);
    if FindSuite(r.suites, name) < 0 {
      var at := if IsDeath(name) then r.lastDeath + 1 else |r.suites|;
      InsertedAt(r.suites, at, NewSuite(name));
      InsertedFits(r, WithSuite(r, name), at, name);
    }
  }

  lemma RegisterFits(r: Registry, suiteName: string, test: TestInfo)
    requires Invariant(r) && InOrder(r)
    ensures Invariant(Register(r, suiteName, test)) && InOrder(Register(r, suiteName, test))
  {
    hide IsDeath, IsPermutation, WithSuite;
    WithSuiteFits(r, suiteName);
    var r1 := WithSuite(r, suiteName);
    var k := FindSuite(r1.suites, suiteName);
    var r2 := Register(r, suiteName, test);
    assert SuiteFits(r1, k);
    PermutationGrows(r1.suites[k].testIndices, |r1.suites[k].tests|);
    forall i | 0 <= i < |r2.suites|
      ensures SuiteFits(r2, i)
    {
      assert SuiteFits(r1, i);
    }
  }

  lemma ShuffledIsPermutation(s: seq<nat>, n: nat, choices: seq<nat>)
    requires IsPermutation(s, n) && |s| == n && ValidChoices(choices, n)
    ensures IsPermutation(Shuffled(s, 0, n, choices), n)
  {
    hide PermutesRange, Shuffled;
    ShufflePermutes(s, 0, n, choices);
    PermutesTransitive(Identity(n), s, Shuffled(s, 0, n, choices), 0, n);
  }

  lemma NoSuites(state: nat)
    ensures ShuffleSuites([], state) == []
  {
  }

  lemma ShuffleSuitesStep(suites: seq<TestSuite>, state: nat)
    requires suites != []
    ensures
      var n := |suites[0].testIndices|;
      ShuffleSuites(suites, state) ==
      [suites[0].(testIndices := Shuffled(suites[0].testIndices, 0, n, Draws(state, n)))]
      + ShuffleSuites(suites[1..], StateAfter(state, n))
  {
  }

  lemma {:induction false} ShuffleSuitesFits(suites: seq<TestSuite>, state: nat)
    requires forall k :: 0 <= k < |suites| ==>
      |suites[k].tests| == |suites[k].testIndices| && IsPermutation(suites[k].testIndices, |suites[k].tests|)
    ensures
      var shuffled := ShuffleSuites(suites, state);
      && |shuffled| == |suites|
      && forall k :: 0 <= k < |suites| ==>
        && shuffled[k] == suites[k].(testIndices := shuffled[k].testIndices)
        && IsPermutation(shuffled[k].testIndices, |suites[k].tests|)
    decreases |suites|
  {
    hide IsPermutation, Shuffled, Draws, StateAfter, ShuffleSuites;
    if suites == [] {
      NoSuites(state);
    } else {
      var n := |suites[0].testIndices|;
      ShuffleSuitesStep(suites, state);
      ShuffledIsPermutation(suites[0].testIndices, n, Draws(state, n));
      ShuffleSuitesFits(suites[1..], StateAfter(state, n));
    }
  }

  lemma PermutesFirstHalf(v: seq<nat>, u: seq<nat>, d: nat)
    requires d <= |v| && PermutesRange(v, u, 0, d)
    ensures |u| == |v| && multiset(u[..d]) == multiset(v[..d]) && u[d..] == v[d..]
  {
    assert u[0..d] == u[..d] && v[0..d] == v[..d];
  }

  lemma PermutesSecondHalf(v: seq<nat>, u: seq<nat>, d: nat)
    requires d <= |v| && PermutesRange(v, u, d, |v| - d)
    ensures |u| == |v| && u[..d] == v[..d] && multiset(u[d..]) == multiset(v[d..])
  {
    assert u[d..|v|] == u[d..] && v[d..|v|] == v[d..];
  }

  // The two halves of the order are permuted, each within itself.
  lemma ShuffleIndicesFits(indices: seq<nat>, d: nat, c1: seq<nat>, c2: seq<nat>)
    requires d <= |indices| && ValidChoices(c1, d) && ValidChoices(c2, |indices| - d)
    ensures |Shuffled(indices, 0, d, c1)| == |indices|
    ensures
      var s := Shuffled(Shuffled(indices, 0, d, c1), d, |indices| - d, c2);
      && |s| == |indices|
      && multiset(s[..d]) == multiset(indices[..d]) && multiset(s[d..]) == multiset(indices[d..])
  {
    hide Shuffled, PermutesRange, ValidChoices;
    ShufflePermutes(indices, 0, d, c1);
    var once := Shuffled(indices, 0, d, c1);
    PermutesFirstHalf(indices, once, d);
    ShufflePermutes(once, d, |indices| - d, c2);
    PermutesSecondHalf(once, Shuffled(once, d, |indices| - d, c2), d);
  }

  lemma PermutationLength(s: seq<nat>, n: nat)
    requires IsPermutation(s, n)
    ensures |s| == n
  {
  }

  lemma SameUnshuffled(r: Registry, r': Registry)
    requires |r'.suites| == |r.suites| == |r'.indices| && r'.lastDeath == r.lastDeath
    requires forall k :: 0 <= k < |r.suites| ==>
      && r'.suites[k] == r.suites[k].(testIndices := r'.suites[k].testIndices)
      && |r'.suites[k].testIndices| == |r.suites[k].testIndices|
    ensures UnshuffleAll(r') == UnshuffleAll(r)
  {
    assert forall k :: 0 <= k < |r.suites| ==> Unshuffled(r'.suites[k]) == Unshuffled(r.suites[k]);
  }

  // Only the orders of tests differ.
  lemma SameSuitesFit(r: Registry, r': Registry)
    requires Invariant(r)
    requires |r'.suites| == |r.suites| == |r'.indices| && r'.lastDeath == r.lastDeath
    requires multiset(r'.indices[..r.lastDeath + 1]) == multiset(r.indices[..r.lastDeath + 1])
    requires multiset(r'.indices[r.lastDeath + 1..]) == multiset(r.indices[r.lastDeath + 1..])
    requires forall k :: 0 <= k < |r.suites| ==>
      && r'.suites[k] == r.suites[k].(testIndices := r'.suites[k].testIndices)
      && IsPermutation(r'.suites[k].testIndices, |r.suites[k].tests|)
    ensures Invariant(r') && UnshuffleAll(r') == UnshuffleAll(r)
  {
    hide IsDeath, IsPermutation, UnshuffleAll;
    forall k | 0 <= k < |r'.suites|
      ensures SuiteFits(r', k)
      ensures |r'.suites[k].testIndices| == |r.suites[k].testIndices| && r'.suites[k].name == r.suites[k].name
    {
      assert SuiteFits(r, k);
      PermutationLength(r'.suites[k].testIndices, |r.suites[k].tests|);
    }
    SameUnshuffled(r, r');
  }

  lemma ShuffleAllFits(r: Registry, state: nat)
    requires Invariant(r)
    ensures Invariant(ShuffleAll(r, state))
    ensures UnshuffleAll(ShuffleAll(r, state)) == UnshuffleAll(r)
    ensures forall k :: 0 <= k < |r.suites| ==> ShuffleAll(r, state).suites[k].tests == r.suites[k].tests
  {
    hide IsDeath, IsPermutation, ShuffleSuites, Shuffled, Draws, StateAfter, PermutesRange, ValidChoices;
    var r', d, n := ShuffleAll(r, state), r.lastDeath + 1, |r.suites|;
    forall k | 0 <= k < |r.suites|
      ensures |r.suites[k].tests| == |r.suites[k].testIndices|
      ensures IsPermutation(r.suites[k].testIndices, |r.suites[k].tests|)
    {
      assert SuiteFits(r, k);
    }
    var state' := StateAfter(state, d);
    ShuffleIndicesFits(r.indices, d, Draws(state, d), Draws(state', n - d));
    ShuffleSuitesFits(r.suites, StateAfter(state', n - d));
    SameSuitesFit(r, r');
  }

  // Marking tests and suites as selected or not changes nothing else.
  lemma MarkingFits(r: Registry, r': Registry)
    requires Invariant(r) && r' == r.(suites := r'.suites) && |r'.suites| == |r.suites|
    requires forall k :: 0 <= k < |r.suites| ==>
      && r'.suites[k] == r.suites[k].(tests := r'.suites[k].tests, shouldRun := r'.suites[k].shouldRun)
      && |r'.suites[k].tests| == |r.suites[k].tests|
    ensures Invariant(r') && (InOrder(r) ==> InOrder(r'))
  {
    hide IsDeath, IsPermutation;
    forall k | 0 <= k < |r'.suites|
      ensures SuiteFits(r', k)
    {
      assert SuiteFits(r, k);
    }
  }

  // Shuffling changes nothing about a suite but the order of its tests.
  lemma ShuffleKeepsTests(r: Registry, state: nat)
    requires Invariant(r)
    ensures |ShuffleAll(r, state).suites| == |r.suites|
    ensures forall k :: 0 <= k < |r.suites| ==>
      ShuffleAll(r, state).suites[k] == r.suites[k].(testIndices := ShuffleAll(r, state).suites[k].testIndices)
  {
    ShuffleAllFits(r, state);
    var r' := ShuffleAll(r, state);
    hide Invariant, ShuffleAll;
    assert |UnshuffleAll(r').suites| == |UnshuffleAll(r).suites|;
    forall k | 0 <= k < |r.suites|
      ensures r'.suites[k] == r.suites[k].(testIndices := r'.suites[k].testIndices)
    {
      assert UnshuffleAll(r').suites[k] == UnshuffleAll(r).suites[k];
    }
  }

  // Unshuffling restores the order of registration.
  lemma UnshuffleAllFits(r: Registry)
    requires Invariant(r)
    ensures Invariant(UnshuffleAll(r)) && InOrder(UnshuffleAll(r))
    ensures InOrder(r) ==> UnshuffleAll(r) == r
  {
    hide IsDeath, IsPermutation;
    var r' := UnshuffleAll(r);
    forall k | 0 <= k < |r'.suites|
      ensures SuiteFits(r', k) && r'.suites[k].testIndices == Identity(|r'.suites[k].tests|)
      ensures InOrder(r) ==> r'.suites[k] == r.suites[k]
    {
      assert SuiteFits(r, k);
      IdentityIsPermutation(|r.suites[k].tests|);
    }
    IdentityHalves(r');
  }

  // ---------------------------------------------------------------- every run

  datatype Op =
    | RegisterTest(suiteName: string, test: TestInfo)
    | ShuffleTests(state: nat)
    | UnshuffleTests

  // Tests may be registered only while the order is that of registration.
  ghost predicate Allowed(r: Registry, op: Op) {
    op.RegisterTest? ==> InOrder(r)
  }

  ghost function Apply(r: Registry, op: Op): Registry
    requires Invariant(r)
  {
    match op
    case RegisterTest(suiteName, test) => Register(r, suiteName, test)
    case ShuffleTests(state) => ShuffleAll(r, state)
    case UnshuffleTests => UnshuffleAll(r)
  }

  // Each state follows from the one before; the invariant makes Apply defined, and is proved below.
  ghost predicate Run(states: seq<Registry>, ops: seq<Op>) {
    && |states| == |ops| + 1 && states[0] == EMPTY
    && forall k :: 0 <= k < |ops| ==>
      Allowed(states[k], ops[k]) && (Invariant(states[k]) ==> states[k + 1] == Apply(states[k], ops[k]))
  }

  lemma RunStep(states: seq<Registry>, ops: seq<Op>, k: nat)
    requires Run(states, ops) && k < |ops| && Invariant(states[k])
    ensures Allowed(states[k], ops[k]) && states[k + 1] == Apply(states[k], ops[k])
  {
  }

  lemma {:induction false} RunFits(states: seq<Registry>, ops: seq<Op>, k: nat)
    requires Run(states, ops) && k < |states|
    ensures Invariant(states[k])
  {
    hide Invariant, InOrder, Register, ShuffleAll, UnshuffleAll;
    if k == 0 {
      EmptyFits();
    } else {
      RunFits(states, ops, k - 1);
      RunStep(states, ops, k - 1);
      var r := states[k - 1];
      match ops[k - 1] {
        case RegisterTest(suiteName, test) => RegisterFits(r, suiteName, test);
        case ShuffleTests(state) => ShuffleAllFits(r, state);
        case UnshuffleTests => UnshuffleAllFits(r);
      }
    }
  }

  // ---------------------------------------------------------------- what it means for running

  lemma {:induction false} CountInIdentity(n: nat, lo: nat, hi: nat, x: nat)
    requires lo <= hi <= n
    ensures multiset(Identity(n)[lo..hi])[x] == if lo <= x < hi then 1 else 0
    decreases hi
  {
    if lo == hi {
    } else {
      CountInIdentity(n, lo, hi - 1, x);
      assert Identity(n)[lo..hi] == Identity(n)[lo..hi - 1] + [hi - 1];
    }
  }

  lemma CountTwice(s: seq<nat>, i: nat, j: nat)
    requires i < j < |s| && s[i] == s[j]
    ensures multiset(s)[s[i]] >= 2
  {
    assert s == s[..j] + ([s[j]] + s[j + 1..]);
    assert s[i] in multiset(s[..j]) by {
      assert s[..j][i] == s[i];
    }
  }

  // A stretch with the elements lo .. hi-1 has each of them exactly once.
  lemma StretchFacts(s: seq<nat>, n: nat, lo: nat, hi: nat)
    requires lo <= hi <= n && multiset(s) == multiset(Identity(n)[lo..hi])
    ensures forall k :: 0 <= k < |s| ==> lo <= s[k] < hi
    ensures forall i, j :: 0 <= i < j < |s| ==> s[i] != s[j]
    ensures forall x :: lo <= x < hi ==> x in s
  {
    forall k | 0 <= k < |s|
      ensures lo <= s[k] < hi
    {
      CountInIdentity(n, lo, hi, s[k]);
      assert s[k] in multiset(s);
    }
    forall i, j | 0 <= i < j < |s|
      ensures s[i] != s[j]
    {
      CountInIdentity(n, lo, hi, s[i]);
      if s[i] == s[j] {
        CountTwice(s, i, j);
      }
    }
    forall x | lo <= x < hi
      ensures x in s
    {
      CountInIdentity(n, lo, hi, x);
      assert x in multiset(s);
    }
  }

  // In the order of execution the death test suites come first, and every suite
  // comes exactly once.
  lemma DeathSuitesFirst(r: Registry)
    requires Invariant(r)
    ensures forall k :: 0 <= k < |r.indices| ==>
      r.indices[k] < |r.suites| && (k <= r.lastDeath <==> IsDeath(r.suites[r.indices[k]].name))
    ensures forall i, j :: 0 <= i < j < |r.indices| ==> r.indices[i] != r.indices[j]
    ensures forall x :: 0 <= x < |r.suites| ==> x in r.indices
  {
    hide IsDeath, IsPermutation;
    var n, d := |r.suites|, r.lastDeath + 1;
    assert Identity(n)[..d] == Identity(n)[0..d] && Identity(n)[d..] == Identity(n)[d..n];
    StretchFacts(r.indices[..d], n, 0, d);
    StretchFacts(r.indices[d..], n, d, n);
    assert r.indices == r.indices[..d] + r.indices[d..];
    forall k | 0 <= k < n
      ensures r.indices[k] < n && (k <= r.lastDeath <==> IsDeath(r.suites[r.indices[k]].name))
    {
      assert r.indices[k] == if k < d then r.indices[..d][k] else r.indices[d..][k - d];
      assert SuiteFits(r, r.indices[k]);
    }
    forall i, j | 0 <= i < j < n
      ensures r.indices[i] != r.indices[j]
    {
      assert r.indices[i] == if i < d then r.indices[..d][i] else r.indices[d..][i - d];
      assert r.indices[j] == if j < d then r.indices[..d][j] else r.indices[d..][j - d];
    }
  }

  // ---------------------------------------------------------------- registration order

  function Names(suites: seq<TestSuite>): seq<string> {
    seq(|suites|, k requires 0 <= k < |suites| => suites[k].name)
  }

  // The names in the order of their first registration.
  ghost function FirstRegistered(ops: seq<Op>): seq<string> {
    if ops == [] then []
    else
      var names, last := FirstRegistered(ops[..|ops| - 1]), ops[|ops| - 1];
      if last.RegisterTest? && last.suiteName !in names then names + [last.suiteName] else names
  }

  ghost function DeathNames(names: seq<string>, death: bool): seq<string> {
    if names == [] then []
    else
      var last := names[|names| - 1];
      DeathNames(names[..|names| - 1], death) + (if IsDeath(last) == death then [last] else [])
  }

  lemma {:induction false} DeathNamesHold(names: seq<string>, name: string)
    ensures name in names <==> name in DeathNames(names, true) || name in DeathNames(names, false)
  {
    hide IsDeath;
    if names == [] {
    } else {
      DeathNamesHold(names[..|names| - 1], name);
      assert names == names[..|names| - 1] + [names[|names| - 1]];
    }
  }

  lemma RegisterAddsToSuite(r: Registry, suiteName: string, test: TestInfo)
    requires -1 <= r.lastDeath < |r.suites|
    ensures Names(Register(r, suiteName, test).suites) == Names(WithSuite(r, suiteName).suites)
    ensures Register(r, suiteName, test).lastDeath == WithSuite(r, suiteName).lastDeath
  {
    hide WithSuite;
  }

  lemma WithSuiteNames(r: Registry, name: string)
    requires -1 <= r.lastDeath < |r.suites|
    ensures
      var names, names' := Names(r.suites), Names(WithSuite(r, name).suites);
      if name in names then names' == names
      else if IsDeath(name) then names' == names[..r.lastDeath + 1] + [name] + names[r.lastDeath + 1..]
      else names' == names + [name]
    ensures WithSuite(r, name).lastDeath == r.lastDeath + (if name !in Names(r.suites) && IsDeath(name) then 1 else 0)
  {
    hide IsDeath;
    var k := FindSuite(r.suites, name);
    if k >= 0 {
      assert Names(r.suites)[k] == name;
    } else {
      InsertedAt(r.suites, r.lastDeath + 1, NewSuite(name));
      hide InsertAt;
    }
  }

  lemma RegisterNames(r: Registry, suiteName: string, test: TestInfo)
    requires Invariant(r) && InOrder(r)
    ensures
      var names, names' := Names(r.suites), Names(Register(r, suiteName, test).suites);
      if suiteName in names then names' == names
      else if IsDeath(suiteName) then
        names' == names[..r.lastDeath + 1] + [suiteName] + names[r.lastDeath + 1..]
      else names' == names + [suiteName]
    ensures Register(r, suiteName, test).lastDeath ==
            r.lastDeath + (if suiteName !in Names(r.suites) && IsDeath(suiteName) then 1 else 0)
  {
    hide Invariant, InOrder, WithSuite, Register, IsDeath;
    InvariantBounds(r);
    WithSuiteFits(r, suiteName);
    WithSuiteNames(r, suiteName);
    RegisterAddsToSuite(r, suiteName, test);
  }

  // The names of a registry whose suites were first registered in the given order.
  ghost predicate Lists(r: Registry, names: seq<string>) {
    && Names(r.suites) == DeathNames(names, true) + DeathNames(names, false)
    && r.lastDeath + 1 == |DeathNames(names, true)|
  }

  lemma DeathNamesStep(names: seq<string>, name: string)
    ensures DeathNames(names + [name], true) == DeathNames(names, true) + (if IsDeath(name) then [name] else [])
    ensures DeathNames(names + [name], false) == DeathNames(names, false) + (if IsDeath(name) then [] else [name])
  {
    assert (names + [name])[..|names|] == names;
  }

  lemma RegisterLists(r: Registry, names: seq<string>, suiteName: string, test: TestInfo)
    requires Invariant(r) && InOrder(r) && Lists(r, names)
    ensures Lists(Register(r, suiteName, test), if suiteName in names then names else names + [suiteName])
  {
    hide IsDeath, Invariant, InOrder, Register;
    RegisterNames(r, suiteName, test);
    DeathNamesHold(names, suiteName);
    DeathNamesStep(names, suiteName);
  }

  lemma NoNames()
    ensures Lists(EMPTY, [])
  {
  }

  lemma SameNamesAfterShuffle(r: Registry, state: nat)
    requires Invariant(r)
    ensures Names(ShuffleAll(r, state).suites) == Names(r.suites) && ShuffleAll(r, state).lastDeath == r.lastDeath
  {
    ShuffleAllFits(r, state);
    var r' := ShuffleAll(r, state);
    forall k | 0 <= k < |r.suites|
      ensures r'.suites[k].name == r.suites[k].name
    {
      assert UnshuffleAll(r').suites[k].name == UnshuffleAll(r).suites[k].name;
    }
  }

  // The suites are listed death test suites first, each kind in the order of
  // first registration, whatever was shuffled in between.
  lemma {:induction false} RegistrationOrder(states: seq<Registry>, ops: seq<Op>, k: nat)
    requires Run(states, ops) && k <= |ops|
    ensures Lists(states[k], FirstRegistered(ops[..k]))
  {
    hide IsDeath, Invariant, InOrder, Register, ShuffleAll, DeathNames;
    if k == 0 {
      NoNames();
    } else {
      RegistrationOrder(states, ops, k - 1);
      RunFits(states, ops, k - 1);
      RunStep(states, ops, k - 1);
      assert ops[..k][..k - 1] == ops[..k - 1];
      var r, names := states[k - 1], FirstRegistered(ops[..k - 1]);
      match ops[k - 1] {
        case RegisterTest(suiteName, test) => RegisterLists(r, names, suiteName, test);
        case ShuffleTests(state) => SameNamesAfterShuffle(r, state);
        case UnshuffleTests => assert Names(UnshuffleAll(r).suites) == Names(r.suites);
      }
    }
  }

  // ---------------------------------------------------------------- the tests of each suite

  // The tests registered for a suite, in the order of registration.
  function TestsOf(ops: seq<Op>, suiteName: string): seq<TestInfo> {
    if ops == [] then []
    else
      var tests, last := TestsOf(ops[..|ops| - 1], suiteName), ops[|ops| - 1];
      if last.RegisterTest? && last.suiteName == suiteName then tests + [last.test] else tests
  }

  lemma TestsOfStep(ops: seq<Op>, op: Op, suiteName: string)
    ensures TestsOf(ops + [op], suiteName) ==
            if op.RegisterTest? && op.suiteName == suiteName then TestsOf(ops, suiteName) + [op.test]
            else TestsOf(ops, suiteName)
  {
    assert (ops + [op])[..|ops|] == ops;
  }

  // Only suites that were registered have tests.
  lemma {:induction false} NoTestsUnlessRegistered(ops: seq<Op>, suiteName: string)
    ensures suiteName !in FirstRegistered(ops) ==> TestsOf(ops, suiteName) == []
  {
    if ops == [] {
    } else {
      NoTestsUnlessRegistered(ops[..|ops| - 1], suiteName);
    }
  }

  // Every suite has exactly the tests registered for it, in that order.
  ghost predicate HasTests(r: Registry, ops: seq<Op>) {
    forall i :: 0 <= i < |r.suites| ==> r.suites[i].tests == TestsOf(ops, r.suites[i].name)
  }

  lemma FoundSuiteStays(r: Registry, suiteName: string)
    requires -1 <= r.lastDeath < |r.suites| && FindSuite(r.suites, suiteName) >= 0
    ensures WithSuite(r, suiteName) == r
  {
    hide FindSuite;
  }

  lemma UniqueName(r: Registry, i: nat, k: nat)
    requires Invariant(r) && i < |r.suites| && k < |r.suites| && r.suites[i].name == r.suites[k].name
    ensures i == k
  {
    hide SuiteFits, IsPermutation;
  }

  // Creating a suite on demand adds one without tests.
  lemma WithSuiteTests(r: Registry, suiteName: string, i: nat)
    requires -1 <= r.lastDeath < |r.suites| && i < |WithSuite(r, suiteName).suites|
    requires FindSuite(r.suites, suiteName) < 0
    ensures
      var suite := WithSuite(r, suiteName).suites[i];
      suite == NewSuite(suiteName) || exists h :: 0 <= h < |r.suites| && r.suites[h] == suite
  {
    hide IsDeath, FindSuite, InsertAt, NewSuite;
    var at := if IsDeath(suiteName) then r.lastDeath + 1 else |r.suites|;
    InsertedAt(r.suites, at, NewSuite(suiteName));
    var r' := WithSuite(r, suiteName);
    assert Inserted(r.suites, r'.suites, at, NewSuite(suiteName));
    if i < at {
      assert r'.suites[i] == r.suites[i];
    } else if at < i {
      assert r'.suites[i] == r.suites[i - 1];
    }
  }

  // What registering a test does to the suites and their tests.
  lemma RegisterTests(r: Registry, suiteName: string, test: TestInfo, i: nat)
    requires Invariant(r) && InOrder(r) && i < |Register(r, suiteName, test).suites|
    ensures
      var suite := Register(r, suiteName, test).suites[i];
      if suite.name != suiteName then
        exists h :: 0 <= h < |r.suites| && r.suites[h].name == suite.name && r.suites[h].tests == suite.tests
      else if FindSuite(r.suites, suiteName) < 0 then suite.tests == [test]
      else suite.tests == r.suites[FindSuite(r.suites, suiteName)].tests + [test]
  {
    hide Invariant, InOrder, IsDeath, IsPermutation, WithSuite, FindSuite;
    InvariantBounds(r);
    WithSuiteFits(r, suiteName);
    var r1 := WithSuite(r, suiteName);
    var k := FindSuite(r1.suites, suiteName);
    if FindSuite(r.suites, suiteName) >= 0 {
      FoundSuiteStays(r, suiteName);
      assert r.suites[i].name == r1.suites[i].name;
    } else {
      WithSuiteTests(r, suiteName, i);
    }
    if r1.suites[i].name == suiteName {
      UniqueName(r1, i, k);
    }
  }

  lemma NewSuiteHasNoTests(r: Registry, ops: seq<Op>, suiteName: string)
    requires Lists(r, FirstRegistered(ops)) && FindSuite(r.suites, suiteName) < 0
    ensures TestsOf(ops, suiteName) == []
  {
    var names := FirstRegistered(ops);
    NoTestsUnlessRegistered(ops, suiteName);
    DeathNamesHold(names, suiteName);
    hide TestsOf, FirstRegistered, DeathNames, FindSuite, IsDeath;
    assert suiteName !in Names(r.suites);
    assert forall x :: x in DeathNames(names, true) || x in DeathNames(names, false) ==>
      x in DeathNames(names, true) + DeathNames(names, false);
  }

  lemma RegisterKeepsTests(r: Registry, ops: seq<Op>, suiteName: string, test: TestInfo)
    requires Invariant(r) && InOrder(r) && HasTests(r, ops) && Lists(r, FirstRegistered(ops))
    ensures HasTests(Register(r, suiteName, test), ops + [RegisterTest(suiteName, test)])
  {
    hide Invariant, InOrder, Register, IsDeath, TestsOf, FirstRegistered, DeathNames;
    var r' := Register(r, suiteName, test);
    var op := RegisterTest(suiteName, test);
    forall i | 0 <= i < |r'.suites|
      ensures r'.suites[i].tests == TestsOf(ops + [op], r'.suites[i].name)
    {
      RegisterTests(r, suiteName, test, i);
      TestsOfStep(ops, op, r'.suites[i].name);
      if r'.suites[i].name == suiteName && FindSuite(r.suites, suiteName) < 0 {
        NewSuiteHasNoTests(r, ops, suiteName);
      }
    }
  }

  lemma SameTests(r: Registry, r': Registry, ops: seq<Op>, op: Op)
    requires HasTests(r, ops) && !op.RegisterTest? && |r'.suites| == |r.suites|
    requires forall i :: 0 <= i < |r.suites| ==>
      r'.suites[i].name == r.suites[i].name && r'.suites[i].tests == r.suites[i].tests
    ensures HasTests(r', ops + [op])
  {
    hide TestsOf;
    forall i | 0 <= i < |r'.suites|
      ensures r'.suites[i].tests == TestsOf(ops + [op], r'.suites[i].name)
    {
      TestsOfStep(ops, op, r'.suites[i].name);
    }
  }

  // In every reachable state every suite has exactly the tests registered for its
  // name, in the order of registration.
  lemma {:induction false} RegisteredTests(states: seq<Registry>, ops: seq<Op>, k: nat)
    requires Run(states, ops) && k <= |ops|
    ensures HasTests(states[k], ops[..k])
  {
    hide Invariant, InOrder, Register, ShuffleAll, Lists, TestsOf;
    if k == 0 {
    } else {
      var r, op := states[k - 1], ops[k - 1];
      RegisteredTests(states, ops, k - 1);
      RegistrationOrder(states, ops, k - 1);
      RunFits(states, ops, k - 1);
      RunStep(states, ops, k - 1);
      assert ops[..k] == ops[..k - 1] + [op];
      match op {
        case RegisterTest(suiteName, test) => RegisterKeepsTests(r, ops[..k - 1], suiteName, test);
        case ShuffleTests(state) =>
          InvariantBounds(r);
          ShuffleKeepsTests(r, state);
          SameTests(r, ShuffleAll(r, state), ops[..k - 1], op);
        case UnshuffleTests => SameTests(r, UnshuffleAll(r), ops[..k - 1], op);
      }
    }
  }

  // ---------------------------------------------------------------- the class

  lemma DeathByFilter(name: string)
    ensures IsDeath(name) <==> InFilter(DEATH_TEST_SUITE_FILTER, name)
  {
  }

  // ---------------------------------------------------------------- names and parts

  lemma EndsIn(name: string, text: string)
    ensures |text| <= |name| && name[|name| - |text|..] == text <==> exists a: string :: name == a + text
  {
    if |text| <= |name| && name[|name| - |text|..] == text {
      assert name == name[..|name| - |text|] + text;
    }
    forall a: string | name == a + text
      ensures |text| <= |name| && name[|name| - |text|..] == text
    {
      assert name[|a|..] == text;
    }
  }

  lemma ContainsMeans(name: string, text: string)
    ensures Contains(name, text) <==> exists a: string, b: string :: name == a + text + b
  {
    if k :| 0 <= k <= |name| && text <= name[k..] {
      assert name == name[..k] + text + name[k + |text|..];
    }
    forall a: string, b: string | name == a + text + b
      ensures Contains(name, text)
    {
      assert name[|a|..] == text + b;
    }
  }

  // Registering a test puts it last in its suite, which is new and empty if there was
  // none of that name, and leaves the other suites alone.
  lemma RegisteredLast(r: Registry, suiteName: string, test: TestInfo, k: nat)
    requires -1 <= r.lastDeath < |r.suites| && k < |WithSuite(r, suiteName).suites|
    requires FindSuite(WithSuite(r, suiteName).suites, suiteName) >= 0
    ensures
      var suites, suites' := WithSuite(r, suiteName).suites, Register(r, suiteName, test).suites;
      && |suites'| == |suites| && suites'[k].name == suites[k].name
      && suites'[k].tests == suites[k].tests + (if k == FindSuite(suites, suiteName) then [test] else [])
    ensures NewSuite(suiteName) == TestSuite(suiteName, [], [], false)
  {
    hide IsDeath, FindSuite;
  }

  // A death test suite by its name.
  lemma DeathTestName(name: string)
    ensures IsDeath(name) <==>
      (exists a: string :: name == a + "DeathTest") || (exists a: string, b: string :: name == a + "DeathTest/" + b)
  {
    hide InFilter, Contains;
    DeathTestSuiteNames(name);
    EndsIn(name, "DeathTest");
    ContainsMeans(name, "DeathTest/");
  }

  lemma ShuffledKeepsLength(v: seq<nat>, begin: nat, width: nat, choices: seq<nat>)
    requires begin + width <= |v| && ValidChoices(choices, width)
    ensures |Shuffled(v, begin, width, choices)| == |v|
  {
    ShufflePermutes(v, begin, width, choices);
  }

  // The order of the suites after a shuffle: each part shuffled by itself.
  lemma OrderInParts(indices: seq<nat>, d: nat, first: seq<nat>, second: seq<nat>)
    requires d <= |indices| && ValidChoices(first, d) && ValidChoices(second, |indices| - d)
    ensures
      var once := Shuffled(indices, 0, d, first);
      && |once| == |indices|
      && Shuffled(once, d, |indices| - d, second) ==
         Shuffled(indices[..d], 0, d, first) + Shuffled(indices[d..], 0, |indices| - d, second)
  {
    hide Shuffled, PermutesRange, ValidChoices;
    var n := |indices|;
    var once := Shuffled(indices, 0, d, first);
    ShuffledKeepsLength(indices, 0, d, first);
    ShuffledKeepsLength(indices[..d], 0, d, first);
    ShuffledWithin(indices, 0, d, first);
    assert indices[0..0 + d] == indices[..d] && indices[..0] == [];
    assert once == Shuffled(indices[..d], 0, d, first) + indices[d..];
    ShuffledWithin(once, d, n - d, second);
    assert once[d..d + (n - d)] == indices[d..] && once[..d] == Shuffled(indices[..d], 0, d, first);
    assert once[d + (n - d)..] == [];
  }

  // A shuffle draws first for the death test suites, then for the others, then for
  // the tests of the suites, one suite after the other.
  lemma ShuffleInParts(r: Registry, state: nat)
    requires -1 <= r.lastDeath < |r.suites| == |r.indices|
    ensures
      var d, n := r.lastDeath + 1, |r.suites|;
      && ShuffleAll(r, state).indices ==
         Shuffled(r.indices[..d], 0, d, Draws(state, d))
         + Shuffled(r.indices[d..], 0, n - d, Draws(StateAfter(state, d), n - d))
      && ShuffleAll(r, state).suites == ShuffleSuites(r.suites, StateAfter(StateAfter(state, d), n - d))
  {
    hide Shuffled, Draws, StateAfter, ShuffleSuites;
    var d, n := r.lastDeath + 1, |r.suites|;
    OrderInParts(r.indices, d, Draws(state, d), Draws(StateAfter(state, d), n - d));
  }

  lemma {:induction false} TestsInTurn(suites: seq<TestSuite>, state: nat)
    requires suites != []
    ensures
      var n := |suites[0].testIndices|;
      && ShuffleSuites(suites, state)[0].testIndices == Shuffled(suites[0].testIndices, 0, n, Draws(state, n))
      && ShuffleSuites(suites, state)[1..] == ShuffleSuites(suites[1..], StateAfter(state, n))
  {
  }

  class UnitTestImpl {
    var testSuites: seq<TestSuite>
    var testSuiteIndices: seq<nat>
    var lastDeathTestSuite: int
    const random: Random

    function View(): Registry
      reads this
    {
      Registry(testSuites, testSuiteIndices, lastDeathTestSuite)
    }

    ghost predicate Valid()
      reads this
    {
      Invariant(View()) && |testSuites| < MAX_RANGE
      && forall k :: 0 <= k < |testSuites| ==> |testSuites[k].tests| < MAX_RANGE
    }

    constructor (seed: nat)
      ensures Valid() && View() == EMPTY && fresh(random)
    {
      hide Invariant;
      EmptyFits();
      testSuites, testSuiteIndices, lastDeathTestSuite := [], [], -1;
      random := new Random(seed);
    }

    // Finds the suite with the given name, or creates it; returns its position.
    method GetTestSuite(testSuiteName: string) returns (k: nat)
      requires Invariant(View()) && InOrder(View())
      modifies this
      ensures View() == WithSuite(old(View()), testSuiteName)
      ensures k < |testSuites| && k == FindSuite(testSuites, testSuiteName)
      ensures Invariant(View()) && InOrder(View())
    {
      hide Invariant, InOrder, IsDeath;
      ghost var r := View();
      InvariantBounds(r);
      WithSuiteFits(r, testSuiteName);
      var found := FindSuite(testSuites, testSuiteName);
      if found >= 0 {
        return found;
      }
      var deathTestSuiteFilter := MakeFilter(DEATH_TEST_SUITE_FILTER);
      var newTestSuite := NewSuite(testSuiteName);
      var isDeath := deathTestSuiteFilter.MatchesName(testSuiteName);
      DeathByFilter(testSuiteName);
      if isDeath {
        lastDeathTestSuite := lastDeathTestSuite + 1;
        testSuites := InsertAt(testSuites, lastDeathTestSuite, newTestSuite);
      } else {
        testSuites := testSuites + [newTestSuite];
      }
      testSuiteIndices := testSuiteIndices + [|testSuiteIndices|];
      assert View() == WithSuite(r, testSuiteName);
      k := FindSuite(testSuites, testSuiteName);
    }

    method AddTestInfo(testSuiteName: string, testInfo: TestInfo)
      requires Invariant(View()) && InOrder(View())
      modifies this
      ensures View() == Register(old(View()), testSuiteName, testInfo)
      ensures Invariant(View()) && InOrder(View())
    {
      hide Invariant, InOrder, IsDeath;
      InvariantBounds(View());
      RegisterFits(View(), testSuiteName, testInfo);
      var k := GetTestSuite(testSuiteName);
      testSuites := testSuites[k := WithTest(testSuites[k], testInfo)];
    }

    // Shuffles the order of a vector in place.
    method ShuffleVector(indices: seq<nat>, begin: nat, end: nat) returns (result: seq<nat>)
      requires begin <= end <= |indices| < MAX_RANGE
      modifies random
      ensures result == Shuffled(indices, begin, end - begin, Draws(old(random.state), end - begin))
      ensures |result| == |indices|
      ensures random.state == StateAfter(old(random.state), end - begin)
    {
      var v := new nat[|indices|](i requires 0 <= i < |indices| => indices[i]);
      assert v[..] == indices;
      ShuffleRange(random, begin, end, v);
      result := v[..];
    }

    method ShuffleTests()
      requires Valid()
      modifies this, random
      ensures Valid() && View() == ShuffleAll(old(View()), old(random.state))
    {
      hide Shuffled, Draws, StateAfter, Invariant;
      InvariantBounds(View());
      ghost var r, state := View(), random.state;
      ghost var d := lastDeathTestSuite + 1;
      ShuffleAllFits(r, state);
      testSuiteIndices := ShuffleVector(testSuiteIndices, 0, lastDeathTestSuite + 1);
      testSuiteIndices := ShuffleVector(testSuiteIndices, lastDeathTestSuite + 1, |testSuites|);
      ShuffleTestsOfSuites();
    }

    // The part of a shuffle that leaves the order of the suites alone.
    method ShuffleTestsOfSuites()
      requires forall k :: 0 <= k < |testSuites| ==> |testSuites[k].testIndices| < MAX_RANGE
      modifies `testSuites, random
      ensures testSuites == ShuffleSuites(old(testSuites), old(random.state))
    {
      hide Shuffled, Draws, StateAfter, ShuffleSuites;
      ghost var suites, state := testSuites, random.state;
      assert testSuites[..0] == [] && suites[0..] == suites;
      for i := 0 to |testSuites|
        invariant |testSuites| == |suites| && testSuites[i..] == suites[i..]
        invariant testSuites[..i] + ShuffleSuites(suites[i..], random.state) == ShuffleSuites(suites, state)
      {
        ghost var done := testSuites[..i];
        ShuffleSuitesStep(suites[i..], random.state);
        assert suites[i..][1..] == suites[i + 1..] && suites[i..][0] == suites[i] == testSuites[i..][0];
        var indices := testSuites[i].testIndices;
        var shuffled := ShuffleVector(indices, 0, |indices|);
        testSuites := testSuites[i := testSuites[i].(testIndices := shuffled)];
        assert testSuites[..i + 1] == done + [testSuites[i]];
        assert testSuites[i + 1..] == suites[i + 1..];
      }
      NoSuites(random.state);
      assert suites[|suites|..] == [] && testSuites[..|testSuites|] == testSuites;
    }

    method UnshuffleTests()
      requires Valid()
      modifies this
      ensures Valid() && View() == UnshuffleAll(old(View())) && InOrder(View())
    {
      UnshuffleAllFits(View());
      for i := 0 to |testSuites|
        invariant |testSuites| == old(|testSuites|) && lastDeathTestSuite == old(lastDeathTestSuite)
        invariant |testSuiteIndices| == |testSuites|
        invariant forall k :: 0 <= k < |testSuites| ==>
          testSuites[k] == if k < i then Unshuffled(old(testSuites)[k]) else old(testSuites)[k]
        invariant forall k :: 0 <= k < i ==> testSuiteIndices[k] == k
      {
        testSuites := testSuites[i := Unshuffled(testSuites[i])];
        testSuiteIndices := testSuiteIndices[i := i];
      }
      assert testSuiteIndices == Identity(|testSuites|);
      assert View() == UnshuffleAll(old(View()));
    }
  }
}
