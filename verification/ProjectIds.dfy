/**
 Collision-free project ids (`resolvedProjectIds` in `end2end/durationBudgetManifest.ts`):
 each project takes the first unassigned id among its name and its name with a suffix.
 */
module ProjectIds {
  import opened Decimal

  /** The name itself, then the name with 1, 2, and so on. */
  function Candidate(name: string, suffix: nat): string {
    if suffix == 0 then name else name + Digits(suffix)
  }

  lemma CandidatesDiffer(name: string, i: nat, j: nat)
    requires Candidate(name, i) == Candidate(name, j)
    ensures i == j
  {
    assert name + Digits(i) == Candidate(name, i) || i == 0;
    if i > 0 && j > 0 {
      assert Digits(i) == (name + Digits(i))[|name|..];
      assert Digits(j) == (name + Digits(j))[|name|..];
      DigitsInjective(i, j);
    } else {
      assert |name + Digits(i)| > |name| && |name + Digits(j)| > |name|;
    }
  }

  function FirstCandidates(name: string, n: nat): (r: set<string>) {
    if n == 0 then {} else FirstCandidates(name, n - 1) + {Candidate(name, n - 1)}
  }

  lemma {:induction false} LaterCandidateIsNew(name: string, n: nat, m: nat)
    requires n <= m
    ensures Candidate(name, m) !in FirstCandidates(name, n)
  {
    if n > 0 {
      LaterCandidateIsNew(name, n - 1, m);
      if Candidate(name, m) == Candidate(name, n - 1) {
        CandidatesDiffer(name, m, n - 1);
      }
    }
  }

  lemma {:induction false} FirstCandidatesSize(name: string, n: nat)
    ensures |FirstCandidates(name, n)| == n
  {
    if n > 0 {
      FirstCandidatesSize(name, n - 1);
      LaterCandidateIsNew(name, n - 1, n - 1);
    }
  }

  lemma {:induction false} FirstCandidatesTaken(name: string, n: nat, taken: set<string>)
    requires forall k :: 0 <= k < n ==> Candidate(name, k) in taken
    ensures FirstCandidates(name, n) <= taken
  {
    if n > 0 {
      FirstCandidatesTaken(name, n - 1, taken);
    }
  }

  lemma SubsetSize<T>(a: set<T>, b: set<T>)
    requires a <= b
    ensures |a| <= |b|
  {
    assert b == a + (b - a);
  }

  /** Pigeonhole: more distinct candidates than taken ids cannot all be taken. */
  lemma SearchIsBounded(name: string, suffix: nat, taken: set<string>)
    requires forall k :: 0 <= k < suffix ==> Candidate(name, k) in taken
    ensures suffix <= |taken|
  {
    FirstCandidatesSize(name, suffix);
    FirstCandidatesTaken(name, suffix, taken);
    SubsetSize(FirstCandidates(name, suffix), taken);
  }

  predicate Distinct(ids: seq<string>) {
    forall i, j :: 0 <= i < j < |ids| ==> ids[i] != ids[j]
  }

  function IdSet(ids: seq<string>): set<string> {
    set id | id in ids
  }

  /** The id is the first candidate of the name that is not taken; its suffix counts the tries before it. */
  ghost predicate FirstFree(name: string, id: string, suffix: nat, taken: set<string>) {
    && id == Candidate(name, suffix) && id !in taken
    && suffix <= |taken|
    && forall j :: 0 <= j < suffix ==> Candidate(name, j) in taken
  }

  ghost predicate TakesFirstFree(name: string, id: string, earlier: seq<string>) {
    exists k :: 0 <= k <= |earlier| && FirstFree(name, id, k, IdSet(earlier))
  }

  lemma {:induction false} IdSetSize(ids: seq<string>)
    ensures |IdSet(ids)| <= |ids|
  {
    if ids != [] {
      var front := ids[..|ids| - 1];
      IdSetSize(front);
      assert ids == front + [ids[|ids| - 1]];
      assert IdSet(ids) == IdSet(front) + {ids[|ids| - 1]};
    }
  }

  method FindFreeId(name: string, taken: set<string>) returns (id: string, ghost suffix: nat)
    ensures FirstFree(name, id, suffix, taken)
  {
    var k := 0;
    id := Candidate(name, k);
    while id in taken
      invariant id == Candidate(name, k) && k <= |taken|
      invariant forall j :: 0 <= j < k ==> Candidate(name, j) in taken
      decreases |taken| - k
    {
      SearchIsBounded(name, k + 1, taken);
      k := k + 1;
      id := Candidate(name, k);
    }
    suffix := k;
  }

  /** Each id is the first free candidate of its project, given the ids before it. */
  ghost predicate AllTakeFirstFree(names: seq<string>, ids: seq<string>)
    requires |ids| <= |names|
  {
    forall k :: 0 <= k < |ids| ==> TakesFirstFree(names[k], ids[k], ids[..k])
  }

  lemma OneMoreId(names: seq<string>, ids: seq<string>, id: string, suffix: nat)
    requires |ids| < |names| && Distinct(ids) && AllTakeFirstFree(names, ids)
    requires FirstFree(names[|ids|], id, suffix, IdSet(ids))
    ensures Distinct(ids + [id]) && IdSet(ids + [id]) == IdSet(ids) + {id}
    ensures AllTakeFirstFree(names, ids + [id])
  {
    var n := |ids|;
    IdSetSize(ids);
    assert TakesFirstFree(names[n], id, ids);
    forall k | 0 <= k < n + 1
      ensures TakesFirstFree(names[k], (ids + [id])[k], (ids + [id])[..k])
    {
      assert (ids + [id])[..k] == if k < n then ids[..k] else ids;
    }
  }

  method ResolvedProjectIds(names: seq<string>) returns (ids: seq<string>)
    ensures |ids| == |names| && Distinct(ids)
    ensures AllTakeFirstFree(names, ids)
  {
    ids := [];
    var taken: set<string> := {};
    for i := 0 to |names|
      invariant |ids| == i && Distinct(ids) && taken == IdSet(ids)
      invariant AllTakeFirstFree(names, ids)
    {
      var id, suffix := FindFreeId(names[i], taken);
      OneMoreId(names, ids, id, suffix);
      taken := taken + {id};
      ids := ids + [id];
    }
  }
}
