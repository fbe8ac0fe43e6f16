/**
 What a manifest says about the calls that led to it, for every sequence of calls, and
 exactly which reporter runs yield one.
 */
module CollectorLaws {
  import opened Wrappers
  import opened Sorting
  import opened Collector

  datatype Call =
    | Observe(testId: string, retry: Number)
    | Record(testId: string, attempt: Attempt)
    | Invalidate
    | TakeManifest

  function Step(s: State, call: Call): State {
    match call
    case Observe(id, retry) => Observed(s, id, retry)
    case Record(id, attempt) => Recorded(s, id, attempt)
    case Invalidate => Invalidated(s)
    case TakeManifest => AfterManifest(s)
  }

  function Run(s: State, calls: seq<Call>): State {
    if calls == [] then s else Step(Run(s, calls[..|calls| - 1]), calls[|calls| - 1])
  }

  // What every call keeps

  function Retries(attempts: seq<Attempt>): set<Number> {
    set a | a in attempts :: a.retry
  }

  /** Recorded retries are observed, and are the retries of the attempts, each once. */
  ghost predicate TestInvariant(t: TestState) {
    && t.recorded <= t.observed
    && Retries(t.attempts) == t.recorded
    && |t.attempts| == |t.recorded|
    && forall a :: a in t.attempts ==> IsRetry(a.retry) && IsBudget(a.effectiveTimeoutMs)
  }

  lemma RetriesAppend(attempts: seq<Attempt>, a: Attempt)
    ensures Retries(attempts + [a]) == Retries(attempts) + {a.retry}
  {
  }

  lemma SortedKeepsInvariant(t: TestState)
    requires TestInvariant(t)
    ensures TestInvariant(SortedTest(t))
    ensures forall a :: a in SortedTest(t).attempts <==> a in t.attempts
  {
    RanksByRetry();
    SortSorts(EarlierRetry, t.attempts);
    var sorted := Sort(EarlierRetry, t.attempts);
    assert forall a :: a in sorted <==> a in multiset(sorted);
    assert forall a :: a in t.attempts <==> a in multiset(t.attempts);
    assert Retries(sorted) == Retries(t.attempts);
  }

  lemma RanksByRetry()
    ensures RanksBy(EarlierRetry)
  {
  }

  /** What the calls so far say about one discovered test. */
  ghost predicate Explained(id: string, t: TestState, calls: seq<Call>) {
    && TestInvariant(t)
    && (forall r :: r in t.observed <==> IsRetry(r) && Observe(id, r) in calls)
    && (forall a :: a in t.attempts ==> Record(id, a) in calls)
  }

  lemma ExplainedMore(id: string, t: TestState, calls: seq<Call>, call: Call)
    requires Explained(id, t, calls)
    requires call.Observe? && call.testId == id && IsRetry(call.retry) ==> call.retry in t.observed
    ensures Explained(id, t, calls + [call])
  {
  }

  ghost predicate AllExplained(s: State, calls: seq<Call>) {
    forall id :: id in s.tests ==> Explained(id, s.tests[id], calls)
  }

  // The initial state

  function IdsOf(discovered: seq<Discovered>): set<string> {
    set d | d in discovered :: d.testId
  }

  lemma IdsOfAppend(discovered: seq<Discovered>, d: Discovered)
    ensures IdsOf(discovered + [d]) == IdsOf(discovered) + {d.testId}
  {
  }

  lemma {:induction false} InitialIds(discovered: seq<Discovered>)
    ensures Initial(discovered).tests.Keys == IdsOf(discovered)
    ensures Ordered(Initial(discovered))
  {
    if discovered != [] {
      var n := |discovered| - 1;
      InitialIds(discovered[..n]);
      assert discovered == discovered[..n] + [discovered[n]];
      IdsOfAppend(discovered[..n], discovered[n]);
      OrderedDiscover(Initial(discovered[..n]), discovered[n]);
    }
  }

  lemma {:induction false} InitialIsExplained(discovered: seq<Discovered>)
    ensures AllExplained(Initial(discovered), [])
  {
    if discovered != [] {
      InitialIsExplained(discovered[..|discovered| - 1]);
    }
  }

  predicate DistinctIds(discovered: seq<Discovered>) {
    discovered == [] ||
    var front, last := discovered[..|discovered| - 1], discovered[|discovered| - 1];
    DistinctIds(front) && last.testId !in IdsOf(front)
  }

  /** The recursive definition says what it should: no two positions share an id. */
  lemma {:induction false} DistinctIdsLaw(discovered: seq<Discovered>)
    ensures DistinctIds(discovered) <==>
            forall i, j :: 0 <= i < j < |discovered| ==> discovered[i].testId != discovered[j].testId
  {
    if discovered != [] {
      var n := |discovered| - 1;
      var front := discovered[..n];
      DistinctIdsLaw(front);
      if discovered[n].testId in IdsOf(front) {
        var i :| 0 <= i < n && front[i].testId == discovered[n].testId;
        assert discovered[i].testId == discovered[n].testId;
      }
      assert forall i :: 0 <= i < n ==> front[i] == discovered[i] && front[i].testId in IdsOf(front);
    }
  }

  /** The state lists the discovered tests in order. */
  predicate Lists(s: State, discovered: seq<Discovered>) {
    && |s.order| == |discovered|
    && forall i :: 0 <= i < |discovered| ==>
         s.order[i] == discovered[i].testId && s.order[i] in s.tests && s.tests[s.order[i]].test == discovered[i]
  }

  lemma {:induction false} CompleteIfDistinct(discovered: seq<Discovered>)
    ensures Initial(discovered).complete <==> DistinctIds(discovered)
  {
    if discovered != [] {
      var n := |discovered| - 1;
      CompleteIfDistinct(discovered[..n]);
      InitialIds(discovered[..n]);
    }
  }

  lemma {:induction false} DistinctAreListed(discovered: seq<Discovered>)
    requires DistinctIds(discovered)
    ensures Lists(Initial(discovered), discovered)
  {
    if discovered != [] {
      var n := |discovered| - 1;
      DistinctAreListed(discovered[..n]);
      InitialIds(discovered[..n]);
      assert discovered == discovered[..n] + [discovered[n]];
      ListsStep(Initial(discovered[..n]), discovered[..n], discovered[n]);
    }
  }

  lemma ListsStep(s: State, discovered: seq<Discovered>, d: Discovered)
    requires Lists(s, discovered) && d.testId !in s.tests
    ensures Lists(Discover(s, d), discovered + [d])
  {
  }

  /** The collector starts complete exactly when no id was discovered twice; then it lists every test. */
  lemma InitialComplete(discovered: seq<Discovered>)
    ensures Initial(discovered).complete <==> DistinctIds(discovered)
    ensures DistinctIds(discovered) ==> Lists(Initial(discovered), discovered)
  {
    CompleteIfDistinct(discovered);
    if DistinctIds(discovered) {
      DistinctAreListed(discovered);
    }
  }

  /** No call changes which tests are listed or what they are. */
  lemma {:induction false} RunKeepsTests(s: State, calls: seq<Call>)
    ensures var r := Run(s, calls);
            && r.order == s.order && r.tests.Keys == s.tests.Keys
            && (forall id :: id in s.tests ==> r.tests[id].test == s.tests[id].test)
            && (r.complete ==> s.complete)
  {
    if calls != [] {
      RunKeepsTests(s, calls[..|calls| - 1]);
    }
  }

  /** Once incomplete, no further calls ever yield a manifest. */
  lemma IncompleteForever(s: State, calls: seq<Call>)
    requires !s.complete
    ensures Manifest(Run(s, calls)) == None
  {
    RunKeepsTests(s, calls);
  }

  // Soundness of a manifest

  /** Each step keeps every test explained by the calls. */
  lemma StepExplained(s: State, calls: seq<Call>, call: Call)
    requires AllExplained(s, calls) && Ordered(s)
    ensures AllExplained(Step(s, call), calls + [call])
  {
    var r := Step(s, call);
    forall id | id in r.tests
      ensures Explained(id, r.tests[id], calls + [call])
    {
      assert Explained(id, s.tests[id], calls);
      if r.tests[id] == s.tests[id] {
        ExplainedMore(id, s.tests[id], calls, call);
      } else {
        match call {
          case Observe(_, retry) => ObserveExplained(id, s.tests[id], calls, retry);
          case Record(_, attempt) => RecordExplained(id, s.tests[id], calls, attempt);
          case TakeManifest =>
            SortedKeepsInvariant(s.tests[id]);
            ExplainedMore(id, SortedTest(s.tests[id]), calls, call);
        }
      }
    }
  }

  lemma ObserveExplained(id: string, t: TestState, calls: seq<Call>, retry: Number)
    requires Explained(id, t, calls) && IsRetry(retry)
    ensures Explained(id, t.(observed := t.observed + {retry}), calls + [Observe(id, retry)])
  {
  }

  lemma RecordExplained(id: string, t: TestState, calls: seq<Call>, attempt: Attempt)
    requires Explained(id, t, calls) && attempt.retry in t.observed && attempt.retry !in t.recorded
    requires IsRetry(attempt.retry) && IsBudget(attempt.effectiveTimeoutMs)
    ensures Explained(id, t.(recorded := t.recorded + {attempt.retry}, attempts := t.attempts + [attempt]),
                      calls + [Record(id, attempt)])
  {
    RetriesAppend(t.attempts, attempt);
  }

  lemma {:induction false} RunExplained(discovered: seq<Discovered>, calls: seq<Call>)
    ensures AllExplained(Run(Initial(discovered), calls), calls) && Ordered(Run(Initial(discovered), calls))
  {
    InitialIds(discovered);
    RunKeepsTests(Initial(discovered), calls);
    if calls == [] {
      InitialIsExplained(discovered);
    } else {
      var front := calls[..|calls| - 1];
      RunExplained(discovered, front);
      StepExplained(Run(Initial(discovered), front), front, calls[|calls| - 1]);
      assert calls == front + [calls[|calls| - 1]];
    }
  }

  /** A complete state has seen no invalidation, and no observation twice. */
  ghost predicate CleanHistory(calls: seq<Call>) {
    && Invalidate !in calls
    && forall id, r :: multiset(calls)[Observe(id, r)] <= 1
  }

  lemma {:induction false} CompleteMeansClean(discovered: seq<Discovered>, calls: seq<Call>)
    requires Run(Initial(discovered), calls).complete
    ensures CleanHistory(calls)
    ensures forall id, r :: Observe(id, r) in calls ==> id in Initial(discovered).tests && IsRetry(r)
    ensures forall id, a :: Record(id, a) in calls ==> id in Initial(discovered).tests
  {
    if calls != [] {
      var front, last := calls[..|calls| - 1], calls[|calls| - 1];
      assert calls == front + [last];
      var s := Run(Initial(discovered), front);
      CompleteMeansClean(discovered, front);
      RunExplained(discovered, front);
      RunKeepsTests(Initial(discovered), front);
      if last.Observe? {
        assert Explained(last.testId, s.tests[last.testId], front);
        assert multiset(front)[last] == 0;
      }
      assert multiset(calls) == multiset(front) + multiset{last};
    }
  }

  /** Attempts in strictly ascending retry order. */
  predicate Ascending(attempts: seq<Attempt>) {
    forall i, j :: 0 <= i < j < |attempts| ==> RetryRank(attempts[i]) < RetryRank(attempts[j])
  }

  lemma DistinctRetries(attempts: seq<Attempt>, i: nat, j: nat)
    requires |Retries(attempts)| == |attempts| && i < j < |attempts|
    ensures attempts[i].retry != attempts[j].retry
  {
    if attempts[i].retry == attempts[j].retry {
      var rest := attempts[..j] + attempts[j + 1..];
      assert attempts == attempts[..j] + [attempts[j]] + attempts[j + 1..];
      assert rest[i] == attempts[i];
      assert Retries(attempts) == Retries(rest);
      RetriesSize(rest);
    }
  }

  lemma {:induction false} RetriesSize(attempts: seq<Attempt>)
    ensures |Retries(attempts)| <= |attempts|
  {
    if attempts != [] {
      var n := |attempts| - 1;
      RetriesSize(attempts[..n]);
      assert attempts == attempts[..n] + [attempts[n]];
      RetriesAppend(attempts[..n], attempts[n]);
    }
  }

  lemma SortedIsAscending(t: TestState)
    requires TestInvariant(t)
    ensures Ascending(SortedTest(t).attempts)
  {
    RanksByRetry();
    SortSorts(EarlierRetry, t.attempts);
    SortedKeepsInvariant(t);
    var sorted := SortedTest(t).attempts;
    forall i, j | 0 <= i < j < |sorted|
      ensures RetryRank(sorted[i]) < RetryRank(sorted[j])
    {
      SortedRange(EarlierRetry, sorted, i, j);
      DistinctRetries(sorted, i, j);
      assert IsRetry(sorted[i].retry) && IsRetry(sorted[j].retry);
    }
  }

  /** Comparing sizes is enough: a subset of the same size is the whole set. */
  lemma SameSizeSubset(recorded: set<Number>, observed: set<Number>)
    requires recorded <= observed && |recorded| == |observed|
    ensures recorded == observed
  {
    assert observed == recorded + (observed - recorded);
  }

  /** What a manifest line says about the calls. */
  ghost predicate TrueReport(report: TestReport, calls: seq<Call>) {
    var id := report.test.testId;
    && report.attempts != [] && Ascending(report.attempts)
    && (forall r :: r in Retries(report.attempts) <==> Observe(id, r) in calls)
    && (forall a :: a in report.attempts ==>
          Record(id, a) in calls && IsRetry(a.retry) && IsBudget(a.effectiveTimeoutMs))
  }

  lemma SortedReportIsTrue(id: string, t: TestState, calls: seq<Call>)
    requires Explained(id, t, calls) && SizesMatch(t) && id == t.test.testId
    requires forall r :: Observe(id, r) in calls ==> IsRetry(r)
    ensures TrueReport(TestReport(t.test, SortedTest(t).attempts), calls)
  {
    SameSizeSubset(t.recorded, t.observed);
    SortedKeepsInvariant(t);
    SortedIsAscending(t);
    var sorted := SortedTest(t).attempts;
    assert Retries(sorted) == t.observed;
  }

  lemma ManifestShape(s: State)
    requires Ordered(s) && Manifest(s).Some?
    ensures |Manifest(s).value| == |s.order|
    ensures forall i :: 0 <= i < |s.order| ==>
              && SizesMatch(s.tests[s.order[i]])
              && Manifest(s).value[i] == TestReport(s.tests[s.order[i]].test, SortedTest(s.tests[s.order[i]]).attempts)
  {
    assert s.order[..Passing(s, s.order)] == s.order;
  }

  lemma ListedReportIsTrue(discovered: seq<Discovered>, calls: seq<Call>, i: nat)
    requires DistinctIds(discovered) && i < |discovered|
    requires forall id, r :: Observe(id, r) in calls ==> IsRetry(r)
    ensures var s := Run(Initial(discovered), calls);
            && |s.order| == |discovered| && s.order[i] in s.tests
            && s.tests[s.order[i]].test == discovered[i]
            && (SizesMatch(s.tests[s.order[i]]) ==>
                  TrueReport(TestReport(discovered[i], SortedTest(s.tests[s.order[i]]).attempts), calls))
  {
    RunKeepsTests(Initial(discovered), calls);
    InitialComplete(discovered);
    RunExplained(discovered, calls);
    var s := Run(Initial(discovered), calls);
    var t := s.tests[s.order[i]];
    if SizesMatch(t) {
      SortedReportIsTrue(s.order[i], t, calls);
    }
  }

  /**
   Over every sequence of calls: a manifest lists exactly the discovered tests, which have
   distinct ids, in discovery order, and for each test exactly the observed retries, each
   once, ascending, with the finite positive timeouts that were recorded. No call before it
   was an invalidation or a repeated observation.
   */
  lemma ManifestIsSound(discovered: seq<Discovered>, calls: seq<Call>)
    ensures match Manifest(Run(Initial(discovered), calls))
            case None => true
            case Some(reports) =>
              && DistinctIds(discovered) && CleanHistory(calls)
              && |reports| == |discovered|
              && forall i :: 0 <= i < |reports| ==> reports[i].test == discovered[i] && TrueReport(reports[i], calls)
  {
    var s := Run(Initial(discovered), calls);
    if Manifest(s).Some? {
      RunKeepsTests(Initial(discovered), calls);
      RunExplained(discovered, calls);
      InitialComplete(discovered);
      CompleteMeansClean(discovered, calls);
      ManifestShape(s);
      forall i | 0 <= i < |discovered|
        ensures Manifest(s).value[i].test == discovered[i] && TrueReport(Manifest(s).value[i], calls)
      {
        ListedReportIsTrue(discovered, calls, i);
      }
    }
  }

  // Reporter runs

  datatype Payload = Payload(testId: string, attempt: Attempt)

  /** A finished attempt with its duration-budget attachments, parsed or not. */
  datatype TestEnd = TestEnd(testId: string, retry: Number, attachments: seq<Option<Payload>>)

  /** `===` on numbers. */
  predicate StrictEqual(m: Number, n: Number) {
    m == n && !m.NaN?
  }

  predicate Matches(e: TestEnd) {
    |e.attachments| == 1 && e.attachments[0].Some? &&
    var p := e.attachments[0].value;
    p.testId == e.testId && StrictEqual(p.attempt.retry, e.retry)
  }

  /** The budget `onTestEnd` records: a zero timeout stands for a missing or wrong attachment. */
  function BudgetOf(e: TestEnd): Payload {
    if Matches(e) then e.attachments[0].value else Payload(e.testId, Attempt(e.retry, Finite(0.0)))
  }

  function Ended(s: State, e: TestEnd): State {
    var p := BudgetOf(e);
    Recorded(Observed(s, e.testId, e.retry), p.testId, p.attempt)
  }

  method OnTestEnd(collector: DurationBudgetManifestCollector, e: TestEnd)
    requires collector.Valid()
    modifies collector.repr
    ensures collector.Valid() && collector.repr == old(collector.repr)
    ensures collector.state == Ended(old(collector.state), e)
  {
    collector.ObserveAttempt(e.testId, e.retry);
    if |e.attachments| != 1 {
      collector.RecordBudget(e.testId, Attempt(e.retry, Finite(0.0)));
      return;
    }
    var parsed := e.attachments[0];
    if parsed.None? || parsed.value.testId != e.testId || !StrictEqual(parsed.value.attempt.retry, e.retry) {
      collector.RecordBudget(e.testId, Attempt(e.retry, Finite(0.0)));
      return;
    }
    collector.RecordBudget(parsed.value.testId, parsed.value.attempt);
  }

  /** A run: discovery, complete or not, then one event per finished attempt. */
  function Session(discovered: seq<Discovered>, discoveryComplete: bool, ends: seq<TestEnd>): State {
    if ends == [] then
      if discoveryComplete then Initial(discovered) else Invalidated(Initial(discovered))
    else
      Ended(Session(discovered, discoveryComplete, ends[..|ends| - 1]), ends[|ends| - 1])
  }

  /** The event of a discovered test, carrying exactly its own attachment with a usable timeout. */
  predicate Good(e: TestEnd, ids: set<string>) {
    e.testId in ids && IsRetry(e.retry) && Matches(e) && IsBudget(e.attachments[0].value.attempt.effectiveTimeoutMs)
  }

  predicate SeenBefore(ends: seq<TestEnd>, testId: string, retry: Number) {
    exists i :: 0 <= i < |ends| && ends[i].testId == testId && ends[i].retry == retry
  }

  /** Every event is good and none repeats an attempt. */
  predicate GoodRun(ends: seq<TestEnd>, ids: set<string>) {
    ends == [] ||
    var front, e := ends[..|ends| - 1], ends[|ends| - 1];
    GoodRun(front, ids) && Good(e, ids) && !SeenBefore(front, e.testId, e.retry)
  }

  lemma SeenBeforeAppend(ends: seq<TestEnd>, e: TestEnd, testId: string, retry: Number)
    ensures SeenBefore(ends + [e], testId, retry) <==>
            SeenBefore(ends, testId, retry) || (e.testId == testId && e.retry == retry)
  {
    var all := ends + [e];
    assert all[|ends|] == e;
    if SeenBefore(ends, testId, retry) {
      var i :| 0 <= i < |ends| && ends[i].testId == testId && ends[i].retry == retry;
      assert all[i] == ends[i];
    }
  }

  /** In a good run, each test has observed and recorded exactly the attempts seen. */
  ghost predicate InStep(s: State, ends: seq<TestEnd>) {
    forall id :: id in s.tests ==>
      && s.tests[id].observed == s.tests[id].recorded
      && forall r :: r in s.tests[id].observed <==> SeenBefore(ends, id, r)
  }

  lemma EndedKeepsTests(s: State, e: TestEnd)
    ensures var r := Ended(s, e);
            r.order == s.order && r.tests.Keys == s.tests.Keys && (r.complete ==> s.complete)
  {
  }

  lemma GoodEnd(s: State, ends: seq<TestEnd>, e: TestEnd)
    requires s.complete && InStep(s, ends)
    ensures var ok := Good(e, s.tests.Keys) && !SeenBefore(ends, e.testId, e.retry);
            && (Ended(s, e).complete <==> ok)
            && (ok ==> InStep(Ended(s, e), ends + [e]))
  {
    var p := BudgetOf(e);
    var r := Ended(s, e);
    if Good(e, s.tests.Keys) && !SeenBefore(ends, e.testId, e.retry) {
      var t := s.tests[e.testId];
      assert r.tests[e.testId].observed == t.observed + {e.retry} == r.tests[e.testId].recorded;
      forall id, n | id in r.tests
        ensures n in r.tests[id].observed <==> SeenBefore(ends + [e], id, n)
      {
        SeenBeforeAppend(ends, e, id, n);
        assert id in s.tests;
      }
    }
  }

  lemma {:induction false} SessionInStep(discovered: seq<Discovered>, discoveryComplete: bool, ends: seq<TestEnd>)
    ensures var s := Session(discovered, discoveryComplete, ends);
            && s.order == Initial(discovered).order && s.tests.Keys == IdsOf(discovered)
            && (s.complete <==> discoveryComplete && DistinctIds(discovered) && GoodRun(ends, IdsOf(discovered)))
            && (s.complete ==> InStep(s, ends))
  {
    InitialIds(discovered);
    if ends == [] {
      InitialComplete(discovered);
      InitialIsEmpty(discovered);
    } else {
      var front, e := ends[..|ends| - 1], ends[|ends| - 1];
      SessionInStep(discovered, discoveryComplete, front);
      var s := Session(discovered, discoveryComplete, front);
      EndedKeepsTests(s, e);
      assert ends == front + [e];
      if s.complete {
        GoodEnd(s, front, e);
      }
    }
  }

  lemma {:induction false} InitialIsEmpty(discovered: seq<Discovered>)
    ensures InStep(Initial(discovered), [])
    ensures forall id :: id in Initial(discovered).tests ==> Initial(discovered).tests[id].observed == {}
  {
    if discovered != [] {
      InitialIsEmpty(discovered[..|discovered| - 1]);
    }
  }

  /**
   A reporter run yields a manifest exactly when discovery was complete, no id was
   discovered twice, every event is good, no attempt ended twice, and every discovered test
   ended at least once.
   */
  lemma ManifestIff(discovered: seq<Discovered>, discoveryComplete: bool, ends: seq<TestEnd>)
    ensures Manifest(Session(discovered, discoveryComplete, ends)).Some? <==>
            && discoveryComplete && DistinctIds(discovered)
            && GoodRun(ends, IdsOf(discovered))
            && forall id :: id in IdsOf(discovered) ==> exists r :: SeenBefore(ends, id, r)
  {
    var s := Session(discovered, discoveryComplete, ends);
    SessionInStep(discovered, discoveryComplete, ends);
    if s.complete {
      OrderCovers(discovered);
      forall id | id in s.tests
        ensures SizesMatch(s.tests[id]) <==> exists r :: SeenBefore(ends, id, r)
      {
        SizesMatchIff(s, ends, id);
      }
      AllPass(s, s.order);
    }
  }

  lemma SizesMatchIff(s: State, ends: seq<TestEnd>, id: string)
    requires InStep(s, ends) && id in s.tests
    ensures SizesMatch(s.tests[id]) <==> exists r :: SeenBefore(ends, id, r)
  {
    var observed := s.tests[id].observed;
    if |observed| != 0 {
      var r :| r in observed;
      assert SeenBefore(ends, id, r);
    }
  }

  lemma AllPass(s: State, ids: seq<string>)
    ensures Passing(s, ids) == |ids| <==> forall id :: id in ids ==> id in s.tests && SizesMatch(s.tests[id])
  {
    if Passing(s, ids) < |ids| {
      assert ids[Passing(s, ids)] in ids;
    }
  }

  lemma {:induction false} OrderCovers(discovered: seq<Discovered>)
    ensures forall id :: id in IdsOf(discovered) ==> id in Initial(discovered).order
    ensures forall id :: id in Initial(discovered).order ==> id in IdsOf(discovered)
  {
    if discovered != [] {
      var n := |discovered| - 1;
      OrderCovers(discovered[..n]);
      InitialIds(discovered[..n]);
      assert discovered == discovered[..n] + [discovered[n]];
      IdsOfAppend(discovered[..n], discovered[n]);
    }
  }

  // What the manifest of a run lists

  /** The event carries exactly one attachment, this attempt of this test. */
  predicate Carries(e: TestEnd, id: string, a: Attempt) {
    e.testId == id && e.retry == a.retry && e.attachments == [Some(Payload(id, a))]
  }

  predicate Carried(ends: seq<TestEnd>, id: string, a: Attempt) {
    exists i :: 0 <= i < |ends| && Carries(ends[i], id, a)
  }

  /** The collector calls of a run. */
  function CallsOf(discoveryComplete: bool, ends: seq<TestEnd>): seq<Call> {
    if ends == [] then if discoveryComplete then [] else [Invalidate]
    else
      var e := ends[|ends| - 1];
      var p := BudgetOf(e);
      CallsOf(discoveryComplete, ends[..|ends| - 1]) + [Observe(e.testId, e.retry)] + [Record(p.testId, p.attempt)]
  }

  lemma RunSnoc(s: State, calls: seq<Call>, call: Call)
    ensures Run(s, calls + [call]) == Step(Run(s, calls), call)
  {
    assert (calls + [call])[..|calls|] == calls;
  }

  lemma {:induction false} SessionIsRun(discovered: seq<Discovered>, discoveryComplete: bool, ends: seq<TestEnd>)
    ensures Session(discovered, discoveryComplete, ends) == Run(Initial(discovered), CallsOf(discoveryComplete, ends))
  {
    var start := Initial(discovered);
    if ends == [] {
      RunSnoc(start, [], Invalidate);
      assert [] + [Invalidate] == [Invalidate];
    } else {
      var front, e := ends[..|ends| - 1], ends[|ends| - 1];
      var calls, p := CallsOf(discoveryComplete, front), BudgetOf(e);
      SessionIsRun(discovered, discoveryComplete, front);
      RunSnoc(start, calls, Observe(e.testId, e.retry));
      RunSnoc(start, calls + [Observe(e.testId, e.retry)], Record(p.testId, p.attempt));
    }
  }

  lemma {:induction false} EndsAreObserved(discoveryComplete: bool, ends: seq<TestEnd>, i: nat)
    requires i < |ends|
    ensures Observe(ends[i].testId, ends[i].retry) in CallsOf(discoveryComplete, ends)
  {
    if i < |ends| - 1 {
      EndsAreObserved(discoveryComplete, ends[..|ends| - 1], i);
    }
  }

  /** A usable timeout is recorded only for an event that carries it. */
  lemma {:induction false} RecordsAreCarried(discoveryComplete: bool, ends: seq<TestEnd>, id: string, a: Attempt)
    requires Record(id, a) in CallsOf(discoveryComplete, ends) && IsBudget(a.effectiveTimeoutMs)
    ensures Carried(ends, id, a)
  {
    if ends != [] {
      var front, e := ends[..|ends| - 1], ends[|ends| - 1];
      if Record(id, a) in CallsOf(discoveryComplete, front) {
        RecordsAreCarried(discoveryComplete, front, id, a);
        var i :| 0 <= i < |front| && Carries(front[i], id, a);
        assert Carries(ends[i], id, a);
      } else {
        assert BudgetOf(e) == Payload(id, a);
        assert Carries(e, id, a);
      }
    }
  }

  /** In a good run each attempt ends once. */
  lemma {:induction false} EndsAreDistinct(ends: seq<TestEnd>, ids: set<string>, i: nat, j: nat)
    requires GoodRun(ends, ids) && i < j < |ends|
    ensures ends[i].testId != ends[j].testId || ends[i].retry != ends[j].retry
  {
    var front := ends[..|ends| - 1];
    if j < |front| {
      EndsAreDistinct(front, ids, i, j);
    } else {
      assert front[i] == ends[i];
    }
  }

  /** Of the attempts a run carries for a test, all that were observed are listed. */
  lemma CarriedIsListed(discoveryComplete: bool, ends: seq<TestEnd>, ids: set<string>, report: TestReport, a: Attempt)
    requires GoodRun(ends, ids) && TrueReport(report, CallsOf(discoveryComplete, ends))
    requires Carried(ends, report.test.testId, a)
    ensures a in report.attempts
  {
    var id := report.test.testId;
    var i: nat :| i < |ends| && Carries(ends[i], id, a);
    EndsAreObserved(discoveryComplete, ends, i);
    assert a.retry in Retries(report.attempts);
    var b :| b in report.attempts && b.retry == a.retry;
    RecordsAreCarried(discoveryComplete, ends, id, b);
    var j: nat :| j < |ends| && Carries(ends[j], id, b);
    if i < j {
      EndsAreDistinct(ends, ids, i, j);
    } else if j < i {
      EndsAreDistinct(ends, ids, j, i);
    }
  }

  /** A report lists exactly the attempts the run carries for its test, once each and ascending. */
  ghost predicate ListsCarried(report: TestReport, ends: seq<TestEnd>) {
    && Ascending(report.attempts)
    && forall a :: a in report.attempts <==> Carried(ends, report.test.testId, a)
  }

  lemma ReportListsCarried(discoveryComplete: bool, ends: seq<TestEnd>, ids: set<string>, report: TestReport)
    requires GoodRun(ends, ids) && TrueReport(report, CallsOf(discoveryComplete, ends))
    ensures ListsCarried(report, ends)
  {
    forall a
      ensures a in report.attempts <==> Carried(ends, report.test.testId, a)
    {
      if a in report.attempts {
        RecordsAreCarried(discoveryComplete, ends, report.test.testId, a);
      } else if Carried(ends, report.test.testId, a) {
        CarriedIsListed(discoveryComplete, ends, ids, report, a);
      }
    }
  }

  /**
   The manifest of a run lists the discovered tests in order. A test has an attempt with a
   retry and a timeout exactly when an event of that test and retry carried one attachment
   with exactly that timeout; retries are listed once each, ascending.
   */
  lemma SessionReports(discovered: seq<Discovered>, discoveryComplete: bool, ends: seq<TestEnd>)
    ensures match Manifest(Session(discovered, discoveryComplete, ends))
            case None => true
            case Some(reports) =>
              && |reports| == |discovered|
              && forall i :: 0 <= i < |reports| ==> reports[i].test == discovered[i] && ListsCarried(reports[i], ends)
  {
    var calls := CallsOf(discoveryComplete, ends);
    SessionIsRun(discovered, discoveryComplete, ends);
    ManifestIsSound(discovered, calls);
    ManifestIff(discovered, discoveryComplete, ends);
    match Manifest(Session(discovered, discoveryComplete, ends))
    case None =>
    case Some(reports) =>
      forall i | 0 <= i < |reports|
        ensures ListsCarried(reports[i], ends)
      {
        assert TrueReport(reports[i], calls);
        ReportListsCarried(discoveryComplete, ends, IdsOf(discovered), reports[i]);
      }
  }
}
