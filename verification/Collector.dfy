/**
 The duration-budget collector (`end2end/durationBudgetManifest.ts`): a mutable object fed
 by reporter events, which yields a manifest only from a complete run.

 `State` and its transitions specify the object; the class is proved against them, and the
 laws over whole call sequences are proved about them in `CollectorLaws`.
 */
module Collector {
  import opened Wrappers
  import opened Sorting

  /** A JavaScript number, as far as the collector looks at it. */
  datatype Number = NaN | Infinite(negative: bool) | Finite(value: real)

  /** `Number.isInteger` */
  predicate IsInteger(n: Number) {
    n.Finite? && n.value == n.value.Floor as real
  }

  predicate IsNegative(n: Number) {
    (n.Finite? && n.value < 0.0) || (n.Infinite? && n.negative)
  }

  /** `Number.isFinite(n) && n > 0` */
  predicate IsBudget(n: Number) {
    n.Finite? && n.value > 0.0
  }

  predicate IsRetry(n: Number) {
    IsInteger(n) && !IsNegative(n)
  }

  datatype Discovered = Discovered(
    testId: string, projectId: string, projectName: string, title: string, file: string, line: int)

  datatype Attempt = Attempt(retry: Number, effectiveTimeoutMs: Number)

  datatype TestReport = TestReport(test: Discovered, attempts: seq<Attempt>)

  /** Everything held about one test. */
  datatype TestState = TestState(
    test: Discovered, attempts: seq<Attempt>, observed: set<Number>, recorded: set<Number>)

  /** Tests in discovery order, by id. */
  datatype State = State(order: seq<string>, tests: map<string, TestState>, complete: bool)

  const EmptyState := State([], map[], true)

  function Discover(s: State, d: Discovered): State {
    if d.testId in s.tests then s.(complete := false)
    else s.(order := s.order + [d.testId], tests := s.tests[d.testId := TestState(d, [], {}, {})])
  }

  function Initial(discovered: seq<Discovered>): State {
    if discovered == [] then EmptyState
    else Discover(Initial(discovered[..|discovered| - 1]), discovered[|discovered| - 1])
  }

  function Invalidated(s: State): State {
    s.(complete := false)
  }

  function Observed(s: State, testId: string, retry: Number): State {
    if testId !in s.tests || !IsRetry(retry) || retry in s.tests[testId].observed then Invalidated(s)
    else WithObserved(s, testId, retry)
  }

  function WithObserved(s: State, testId: string, retry: Number): State
    requires testId in s.tests
  {
    var t := s.tests[testId];
    s.(tests := s.tests[testId := t.(observed := t.observed + {retry})])
  }

  function Recorded(s: State, testId: string, attempt: Attempt): State {
    if || testId !in s.tests
       || attempt.retry !in s.tests[testId].observed
       || attempt.retry in s.tests[testId].recorded
       || !IsRetry(attempt.retry)
       || !IsBudget(attempt.effectiveTimeoutMs)
    then Invalidated(s)
    else WithAttempt(s, testId, attempt)
  }

  function WithAttempt(s: State, testId: string, attempt: Attempt): State
    requires testId in s.tests
  {
    var t := s.tests[testId];
    s.(tests := s.tests[testId := t.(recorded := t.recorded + {attempt.retry}, attempts := t.attempts + [attempt])])
  }

  function RetryRank(a: Attempt): real {
    if a.retry.Finite? then a.retry.value else 0.0
  }

  /** `left.retry - right.retry < 0`, on the integers the collector keeps. */
  predicate EarlierRetry(a: Attempt, b: Attempt) {
    RetryRank(a) < RetryRank(b)
  }

  /** The sizes the program compares before it lists a test. */
  predicate SizesMatch(t: TestState) {
    |t.observed| != 0 && |t.observed| == |t.recorded|
  }

  function SortedTest(t: TestState): TestState {
    t.(attempts := Sort(EarlierRetry, t.attempts))
  }

  /** How many leading tests pass the size check: the loop sorts these and no others. */
  function Passing(s: State, ids: seq<string>): (n: nat)
    ensures n <= |ids|
    ensures forall i :: 0 <= i < n ==> ids[i] in s.tests && SizesMatch(s.tests[ids[i]])
    ensures n < |ids| ==> ids[n] !in s.tests || !SizesMatch(s.tests[ids[n]])
  {
    if ids == [] || ids[0] !in s.tests || !SizesMatch(s.tests[ids[0]]) then 0
    else 1 + Passing(s, ids[1..])
  }

  /** Sorts the attempts of the listed tests in place. */
  function SortTests(tests: map<string, TestState>, ids: seq<string>): map<string, TestState> {
    map id | id in tests :: if id in ids then SortedTest(tests[id]) else tests[id]
  }

  /** The state `manifest()` leaves behind, whatever it returns. */
  function AfterManifest(s: State): State {
    if !s.complete then s else s.(tests := SortTests(s.tests, s.order[..Passing(s, s.order)]))
  }

  function Reports(tests: map<string, TestState>, ids: seq<string>): (r: seq<TestReport>)
    requires forall i :: 0 <= i < |ids| ==> ids[i] in tests
    ensures |r| == |ids|
    ensures forall i :: 0 <= i < |ids| ==> r[i] == TestReport(tests[ids[i]].test, tests[ids[i]].attempts)
  {
    seq(|ids|, i requires 0 <= i < |ids| => TestReport(tests[ids[i]].test, tests[ids[i]].attempts))
  }

  function Manifest(s: State): Option<seq<TestReport>> {
    if s.complete && Passing(s, s.order) == |s.order| then
      Some(Reports(AfterManifest(s).tests, s.order))
    else
      None
  }

  // The object

  /** One entry of the `tests` map: its attempts are pushed and sorted in place. */
  class DurationBudgetTest {
    const test: Discovered
    var attempts: seq<Attempt>

    constructor (test: Discovered)
      ensures this.test == test && attempts == []
    {
      this.test := test;
      attempts := [];
    }
  }

  /** Every test object is in the footprint, and no two tests share one. */
  ghost predicate Owned(tests: map<string, DurationBudgetTest>, repr: set<object>) {
    && (forall id :: id in tests ==> tests[id] in repr)
    && (forall i, j :: i in tests && j in tests && i != j ==> tests[i] != tests[j])
  }

  ghost predicate Holds(test: DurationBudgetTest, t: TestState)
    reads test
  {
    test.test == t.test && test.attempts == t.attempts
  }

  lemma OwnedAdd(tests: map<string, DurationBudgetTest>, repr: set<object>, id: string, test: DurationBudgetTest)
    requires Owned(tests, repr) && id !in tests && test !in repr
    ensures Owned(tests[id := test], repr + {test})
  {
  }

  function RetryRecorded(s: State, testId: string, retry: Number): State
    requires testId in s.tests
  {
    var t := s.tests[testId];
    s.(tests := s.tests[testId := t.(recorded := t.recorded + {retry})])
  }

  function AttemptsSet(s: State, testId: string, attempts: seq<Attempt>): State
    requires testId in s.tests
  {
    s.(tests := s.tests[testId := s.tests[testId].(attempts := attempts)])
  }

  lemma AttemptInTwoSteps(s: State, testId: string, attempt: Attempt)
    requires testId in s.tests
    ensures var attempts := s.tests[testId].attempts + [attempt];
            AttemptsSet(RetryRecorded(s, testId, attempt.retry), testId, attempts) == WithAttempt(s, testId, attempt)
  {
  }

  class DurationBudgetManifestCollector {
    var order: seq<string>
    var tests: map<string, DurationBudgetTest>
    var observedRetries: map<string, set<Number>>
    var recordedRetries: map<string, set<Number>>
    var complete: bool
    ghost var state: State
    ghost var repr: set<object>

    /** The fields hold exactly what `state` says, and no two tests share an object. */
    ghost predicate Valid()
      reads this, repr
    {
      && this in repr
      && Owned(tests, repr)
      && tests.Keys == state.tests.Keys
      && observedRetries == ObservedOf(state.tests) && recordedRetries == RecordedOf(state.tests)
      && order == state.order && complete == state.complete
      && (forall id :: id in tests ==> Holds(tests[id], state.tests[id]))
      && Ordered(state)
    }

    constructor (discoveredTests: seq<Discovered>)
      ensures Valid() && fresh(repr)
      ensures state == Initial(discoveredTests)
    {
      order, tests, observedRetries, recordedRetries, complete := [], map[], map[], map[], true;
      state := EmptyState;
      repr := {this};
      new;
      var i := 0;
      while i < |discoveredTests|
        invariant 0 <= i <= |discoveredTests|
        invariant Valid() && fresh(repr)
        invariant state == Initial(discoveredTests[..i])
      {
        assert discoveredTests[..i + 1][..i] == discoveredTests[..i];
        Add(discoveredTests[i]);
        i := i + 1;
      }
      assert discoveredTests[..i] == discoveredTests;
    }

    /** The body of the constructor's loop. */
    method Add(discovered: Discovered)
      requires Valid()
      modifies this
      ensures Valid() && fresh(repr - old(repr))
      ensures state == Discover(old(state), discovered)
    {
      if discovered.testId in tests {
        Invalidate();
      } else {
        var test := new DurationBudgetTest(discovered);
        Install(test);
      }
    }

    /** Enters a new test into all three maps. */
    method Install(test: DurationBudgetTest)
      requires Valid() && test !in repr && test.test.testId !in tests && test.attempts == []
      modifies this
      ensures Valid() && repr == old(repr) + {test}
      ensures state == Discover(old(state), test.test)
    {
      OrderedDiscover(state, test.test);
      var id := test.test.testId;
      OwnedAdd(tests, repr, id, test);
      Projections(state.tests, id, TestState(test.test, [], {}, {}));
      order := order + [id];
      tests := tests[id := test];
      observedRetries := observedRetries[id := {}];
      recordedRetries := recordedRetries[id := {}];
      state := Discover(state, test.test);
      repr := repr + {test};
    }

    method Invalidate()
      requires Valid()
      modifies this
      ensures Valid() && repr == old(repr) && state == Invalidated(old(state))
    {
      complete := false;
      state := Invalidated(state);
    }

    method ObserveAttempt(testId: string, retry: Number)
      requires Valid()
      modifies this
      ensures Valid() && repr == old(repr) && state == Observed(old(state), testId, retry)
    {
      if testId !in observedRetries || !IsInteger(retry) || IsNegative(retry) {
        Invalidate();
        return;
      }
      if retry in observedRetries[testId] {
        Invalidate();
        return;
      }
      AddObserved(testId, retry);
    }

    /** The accepting half of `observeAttempt`. */
    method AddObserved(testId: string, retry: Number)
      requires Valid() && testId in observedRetries
      modifies this`observedRetries, this`state
      ensures Valid() && state == WithObserved(old(state), testId, retry)
    {
      ghost var t := state.tests[testId];
      Projections(state.tests, testId, t.(observed := t.observed + {retry}));
      observedRetries := observedRetries[testId := observedRetries[testId] + {retry}];
      state := WithObserved(state, testId, retry);
    }

    method RecordBudget(testId: string, attempt: Attempt)
      requires Valid()
      modifies repr
      ensures Valid() && repr == old(repr) && state == Recorded(old(state), testId, attempt)
    {
      if || testId !in tests || testId !in observedRetries || testId !in recordedRetries
         || attempt.retry !in observedRetries[testId]
         || attempt.retry in recordedRetries[testId]
         || !IsInteger(attempt.retry)
         || IsNegative(attempt.retry)
         || !attempt.effectiveTimeoutMs.Finite?
         || attempt.effectiveTimeoutMs.value <= 0.0
      {
        Invalidate();
        return;
      }
      AddAttempt(testId, attempt);
    }

    /** The accepting half of `recordBudget`. */
    method AddAttempt(testId: string, attempt: Attempt)
      requires Valid() && testId in tests
      modifies repr
      ensures Valid() && repr == old(repr) && state == WithAttempt(old(state), testId, attempt)
    {
      AttemptInTwoSteps(state, testId, attempt);
      var test := tests[testId];
      assert Holds(test, state.tests[testId]);
      var attempts := test.attempts + [attempt];
      AddRecorded(testId, attempt.retry);
      SetAttempts(testId, attempts);
    }

    method AddRecorded(testId: string, retry: Number)
      requires Valid() && testId in tests
      modifies this`recordedRetries, this`state
      ensures Valid()
      ensures state == RetryRecorded(old(state), testId, retry)
    {
      Projections(state.tests, testId, RetryRecorded(state, testId, retry).tests[testId]);
      recordedRetries := recordedRetries[testId := recordedRetries[testId] + {retry}];
      state := RetryRecorded(state, testId, retry);
    }

    /** Updates the attempts of one test in place. */
    method SetAttempts(id: string, attempts: seq<Attempt>)
      requires Valid() && id in tests
      modifies this`state, tests[id]
      ensures Valid()
      ensures state == AttemptsSet(old(state), id, attempts)
    {
      var test := tests[id];
      Projections(state.tests, id, AttemptsSet(state, id, attempts).tests[id]);
      test.attempts := attempts;
      state := AttemptsSet(state, id, attempts);
    }

    /** One step of the manifest's loop: sort the attempts of one test. */
    method SortAttempts(id: string)
      requires Valid() && id in tests
      modifies this`state, tests[id]
      ensures Valid()
      ensures state == old(state).(tests := old(state).tests[id := SortedTest(old(state).tests[id])])
    {
      assert Holds(tests[id], state.tests[id]);
      SetAttempts(id, Sort(EarlierRetry, tests[id].attempts));
    }

    /** The loop of `manifest()`: sorts test after test until one fails the size check. */
    method SortPassing() returns (passed: bool)
      requires Valid() && complete
      modifies this`state, repr - {this}
      ensures Valid() && state == AfterManifest(old(state))
      ensures passed <==> Passing(old(state), old(state).order) == |old(state).order|
    {
      ghost var before := state;
      ghost var n := Passing(before, before.order);
      SortNone(before.tests);
      assert before.order[..0] == [];
      var i := 0;
      while i < |order|
        invariant 0 <= i <= n
        invariant Valid()
        invariant state == before.(tests := SortTests(before.tests, before.order[..i]))
      {
        var id := order[i];
        SortOneMore(before, i);
        if |observedRetries[id]| == 0 || |observedRetries[id]| != |recordedRetries[id]| {
          assert i == n;
          return false;
        }
        assert i < n;
        SortAttempts(id);
        i := i + 1;
      }
      return true;
    }

    method ManifestOf() returns (r: Option<seq<TestReport>>)
      requires Valid()
      modifies repr
      ensures Valid() && repr == old(repr)
      ensures r == Manifest(old(state)) && state == AfterManifest(old(state))
    {
      if !complete {
        return None;
      }
      var passed := SortPassing();
      if !passed {
        return None;
      }
      var reports := ListTests();
      r := Some(reports);
    }

    /** `[...this.tests.values()]` */
    method ListTests() returns (reports: seq<TestReport>)
      requires Valid()
      ensures reports == Reports(state.tests, order)
    {
      reports := [];
      var i := 0;
      while i < |order|
        invariant 0 <= i <= |order| && |reports| == i
        invariant forall k :: 0 <= k < i ==>
                    reports[k] == TestReport(state.tests[order[k]].test, state.tests[order[k]].attempts)
      {
        var test := tests[order[i]];
        assert Holds(test, state.tests[order[i]]);
        reports := reports + [TestReport(test.test, test.attempts)];
        i := i + 1;
      }
    }
  }

  function ObservedOf(tests: map<string, TestState>): map<string, set<Number>> {
    map id | id in tests :: tests[id].observed
  }

  function RecordedOf(tests: map<string, TestState>): map<string, set<Number>> {
    map id | id in tests :: tests[id].recorded
  }

  lemma Projections(tests: map<string, TestState>, id: string, t: TestState)
    ensures ObservedOf(tests[id := t]) == ObservedOf(tests)[id := t.observed]
    ensures RecordedOf(tests[id := t]) == RecordedOf(tests)[id := t.recorded]
    ensures id in tests ==> ObservedOf(tests)[id := tests[id].observed] == ObservedOf(tests)
    ensures id in tests ==> RecordedOf(tests)[id := tests[id].recorded] == RecordedOf(tests)
  {
  }

  /** Each discovered test has one place in the order. */
  predicate Ordered(s: State) {
    && (forall i :: 0 <= i < |s.order| ==> s.order[i] in s.tests)
    && (forall i, j :: 0 <= i < j < |s.order| ==> s.order[i] != s.order[j])
  }

  lemma OrderedDiscover(s: State, d: Discovered)
    requires Ordered(s)
    ensures Ordered(Discover(s, d))
  {
  }

  lemma SortNone(tests: map<string, TestState>)
    ensures SortTests(tests, []) == tests
  {
  }

  lemma SortOneMore(s: State, i: nat)
    requires Ordered(s) && i < |s.order|
    ensures var sorted := SortTests(s.tests, s.order[..i]);
            var id := s.order[i];
            && sorted[id] == s.tests[id]
            && SortTests(s.tests, s.order[..i + 1]) == sorted[id := SortedTest(s.tests[id])]
  {
    assert s.order[..i + 1] == s.order[..i] + [s.order[i]];
  }
}
