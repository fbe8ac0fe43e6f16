/**
 Grapheme clusters and the shared cluster-wise truncation (`common/src/text.rs`).

 The segmentation rule is a parameter: whether the cluster read so far takes in the next
 scalar. Every rule for extended grapheme clusters of Unicode Standard Annex 29 (GB3 to
 GB13) looks back no further than the start of the cluster, so this form covers them all:
 combining and prepended marks, Hangul syllables, conjuncts, emoji sequences and flags.
 */
module Graphemes {
  import opened Text

  datatype Unicode = Unicode(
    alphanumeric: char -> bool,
    takesIn: (string, char) -> bool,
    normalize: string -> string)

  /** Where the cluster that holds the first `n` scalars ends. */
  function ClusterEnd(u: Unicode, s: string, n: nat): (e: nat)
    requires 1 <= n <= |s|
    ensures n <= e <= |s|
    decreases |s| - n
  {
    if n < |s| && u.takesIn(s[..n], s[n]) then ClusterEnd(u, s, n + 1) else n
  }

  /** `s.graphemes(true)` */
  function Clusters(u: Unicode, s: string): (gs: seq<string>)
    ensures Concat(gs) == s
    decreases |s|
  {
    if s == [] then []
    else
      var n := ClusterEnd(u, s, 1);
      assert s == s[..n] + s[n..];
      [s[..n]] + Clusters(u, s[n..])
  }

  /** One cluster: each scalar is taken in by those before it. */
  predicate IsCluster(u: Unicode, g: string) {
    g != [] && forall i :: 1 <= i < |g| ==> u.takesIn(g[..i], g[i])
  }

  /** No cluster takes in the first scalar of the next. */
  predicate Apart(u: Unicode, gs: seq<string>, g: string)
    requires g != []
  {
    gs != [] ==> !u.takesIn(gs[|gs| - 1], g[0])
  }

  /** Clusters that end where they should. */
  predicate Segmented(u: Unicode, gs: seq<string>) {
    gs == [] ||
    var front, g := gs[..|gs| - 1], gs[|gs| - 1];
    Segmented(u, front) && IsCluster(u, g) && Apart(u, front, g)
  }

  lemma {:induction false} ConcatAppend(a: seq<string>, b: seq<string>)
    ensures Concat(a + b) == Concat(a) + Concat(b)
  {
    if a == [] {
      assert a + b == b;
    } else {
      assert (a + b)[1..] == a[1..] + b;
      ConcatAppend(a[1..], b);
    }
  }

  lemma ConcatSnoc(gs: seq<string>, g: string)
    ensures Concat(gs + [g]) == Concat(gs) + g
  {
    ConcatAppend(gs, [g]);
  }

  lemma ConcatLast(gs: seq<string>)
    requires gs != []
    ensures Concat(gs) == Concat(gs[..|gs| - 1]) + gs[|gs| - 1]
  {
    assert gs == gs[..|gs| - 1] + [gs[|gs| - 1]];
    ConcatSnoc(gs[..|gs| - 1], gs[|gs| - 1]);
  }

  lemma SegmentedSnoc(u: Unicode, gs: seq<string>, g: string)
    requires Segmented(u, gs) && IsCluster(u, g) && Apart(u, gs, g)
    ensures Segmented(u, gs + [g]) && Concat(gs + [g]) == Concat(gs) + g
  {
    assert (gs + [g])[..|gs|] == gs;
    ConcatSnoc(gs, g);
  }

  lemma {:induction false} SegmentedPrefix(u: Unicode, gs: seq<string>, n: nat)
    requires Segmented(u, gs) && n <= |gs|
    ensures Segmented(u, gs[..n])
  {
    if n == |gs| {
      assert gs[..n] == gs;
    } else {
      SegmentedPrefix(u, gs[..|gs| - 1], n);
      assert gs[..|gs| - 1][..n] == gs[..n];
    }
  }

  lemma SegmentedAt(u: Unicode, gs: seq<string>, i: nat)
    requires Segmented(u, gs) && i < |gs|
    ensures IsCluster(u, gs[i]) && Apart(u, gs[..i], gs[i])
  {
    SegmentedPrefix(u, gs, i + 1);
    assert gs[..i + 1][..i] == gs[..i];
  }

  lemma {:induction false} ClusterEndIsCluster(u: Unicode, s: string, n: nat)
    requires 1 <= n <= |s| && IsCluster(u, s[..n])
    ensures var e := ClusterEnd(u, s, n);
            IsCluster(u, s[..e]) && (e < |s| ==> !u.takesIn(s[..e], s[e]))
    decreases |s| - n
  {
    if n < |s| && u.takesIn(s[..n], s[n]) {
      OneMoreScalar(u, s, n);
      ClusterEndIsCluster(u, s, n + 1);
    }
  }

  lemma OneMoreScalar(u: Unicode, s: string, n: nat)
    requires n < |s| && IsCluster(u, s[..n]) && u.takesIn(s[..n], s[n])
    ensures IsCluster(u, s[..n + 1])
  {
    var g := s[..n + 1];
    forall i | 1 <= i < |g|
      ensures u.takesIn(g[..i], g[i])
    {
      assert g[..i] == s[..i];
      if i < n {
        assert s[..n][..i] == s[..i];
      }
    }
  }

  /** A cluster in front of something it does not take in is found first. */
  lemma {:induction false} ClusterEndAt(u: Unicode, g: string, rest: string, n: nat)
    requires IsCluster(u, g) && 1 <= n <= |g| && (rest != [] ==> !u.takesIn(g, rest[0]))
    ensures ClusterEnd(u, g + rest, n) == |g|
    decreases |g| - n
  {
    var s := g + rest;
    assert s[..n] == g[..n];
    if n < |g| {
      assert s[n] == g[n];
      ClusterEndAt(u, g, rest, n + 1);
    } else {
      assert g[..n] == g;
    }
  }

  lemma ClustersCons(u: Unicode, g: string, rest: string)
    requires IsCluster(u, g) && (rest != [] ==> !u.takesIn(g, rest[0]))
    ensures Clusters(u, g + rest) == [g] + Clusters(u, rest)
  {
    ClusterEndAt(u, g, rest, 1);
    assert (g + rest)[..|g|] == g && (g + rest)[|g|..] == rest;
  }

  lemma {:induction false} SegmentedAppend(u: Unicode, a: seq<string>, b: seq<string>)
    requires Segmented(u, a) && Segmented(u, b)
    requires a != [] && b != [] ==> b[0] != [] && !u.takesIn(a[|a| - 1], b[0][0])
    ensures Segmented(u, a + b)
  {
    if b == [] {
      assert a + b == a;
    } else {
      var front, g := b[..|b| - 1], b[|b| - 1];
      SegmentedAppend(u, a, front);
      assert a + b == a + front + [g];
      assert Apart(u, a + front, g);
      SegmentedSnoc(u, a + front, g);
    }
  }

  /** Segmentation yields clusters that end where they should. */
  lemma {:induction false} ClustersAreSegmented(u: Unicode, s: string)
    ensures Segmented(u, Clusters(u, s))
    ensures s != [] ==> Clusters(u, s) != [] && Clusters(u, s)[0] != [] && Clusters(u, s)[0][0] == s[0]
    decreases |s|
  {
    if s != [] {
      var n := ClusterEnd(u, s, 1);
      ClusterEndIsCluster(u, s, 1);
      ClustersAreSegmented(u, s[n..]);
      var g := s[..n];
      assert [g][..0] == [];
      SegmentedAppend(u, [g], Clusters(u, s[n..]));
    }
  }

  lemma SegmentedTail(u: Unicode, gs: seq<string>)
    requires Segmented(u, gs) && gs != []
    ensures Segmented(u, gs[1..]) && IsCluster(u, gs[0])
    ensures |gs| > 1 ==> gs[1] != [] && !u.takesIn(gs[0], gs[1][0])
  {
    SegmentedAt(u, gs, 0);
    if |gs| > 1 {
      SegmentedAt(u, gs, 1);
    }
    SuffixIsSegmented(u, gs);
  }

  lemma {:induction false} SuffixIsSegmented(u: Unicode, gs: seq<string>)
    requires Segmented(u, gs) && gs != []
    ensures Segmented(u, gs[1..])
  {
    if |gs| > 1 {
      var front, g := gs[..|gs| - 1], gs[|gs| - 1];
      SuffixIsSegmented(u, front);
      assert gs[1..] == front[1..] + [g];
      assert Apart(u, front[1..], g);
      SegmentedSnoc(u, front[1..], g);
    }
  }

  /** Clusters that end where they should are the segmentation of their text, and the only one. */
  lemma {:induction false} SegmentedIsClusters(u: Unicode, gs: seq<string>)
    requires Segmented(u, gs)
    ensures Clusters(u, Concat(gs)) == gs
  {
    if gs != [] {
      SegmentedTail(u, gs);
      SegmentedIsClusters(u, gs[1..]);
      var rest := Concat(gs[1..]);
      assert |gs| > 1 ==> rest[0] == gs[1][0];
      ClustersCons(u, gs[0], rest);
      assert gs == [gs[0]] + gs[1..];
    }
  }

  // Truncation

  function TotalCost(gs: seq<string>, cost: string -> nat): nat {
    if gs == [] then 0 else cost(gs[0]) + TotalCost(gs[1..], cost)
  }

  lemma {:induction false} TotalCostAppend(a: seq<string>, b: seq<string>, cost: string -> nat)
    ensures TotalCost(a + b, cost) == TotalCost(a, cost) + TotalCost(b, cost)
  {
    if a == [] {
      assert a + b == b;
    } else {
      assert (a + b)[1..] == a[1..] + b;
      TotalCostAppend(a[1..], b, cost);
    }
  }

  /** How many leading clusters fit within the budget. */
  function Fitting(gs: seq<string>, budget: nat, cost: string -> nat): nat {
    if gs == [] || cost(gs[0]) > budget then 0
    else 1 + Fitting(gs[1..], budget - cost(gs[0]), cost)
  }

  /** The clusters that fit are the longest whole-cluster prefix within the budget. */
  lemma {:induction false} FittingIsLongest(gs: seq<string>, budget: nat, cost: string -> nat)
    ensures var n := Fitting(gs, budget, cost);
            && n <= |gs|
            && TotalCost(gs[..n], cost) <= budget
            && forall m :: n < m <= |gs| ==> TotalCost(gs[..m], cost) > budget
  {
    if gs != [] {
      var head, tail := gs[0], gs[1..];
      if cost(head) <= budget {
        FittingIsLongest(tail, budget - cost(head), cost);
        var n := Fitting(tail, budget - cost(head), cost);
        assert gs[..n + 1][1..] == tail[..n];
      }
      forall m | Fitting(gs, budget, cost) < m <= |gs|
        ensures TotalCost(gs[..m], cost) > budget
      {
        assert gs[..m][1..] == tail[..m - 1];
      }
    }
  }

  function Truncated(u: Unicode, s: string, budget: nat, cost: string -> nat): string {
    var gs := Clusters(u, s);
    FittingIsLongest(gs, budget, cost);
    Concat(gs[..Fitting(gs, budget, cost)])
  }

  method TruncateByGraphemes(u: Unicode, s: string, budget: nat, cost: string -> nat) returns (out: string)
    ensures out == Truncated(u, s, budget, cost)
  {
    out := [];
    var used := 0;
    var gs := Clusters(u, s);
    var i := 0;
    FittingIsLongest(gs, budget, cost);
    while i < |gs|
      invariant 0 <= i <= Fitting(gs, budget, cost) <= |gs|
      invariant out == Concat(gs[..i])
      invariant used == TotalCost(gs[..i], cost) <= budget
    {
      var price := cost(gs[i]);
      assert gs[..i + 1] == gs[..i] + [gs[i]];
      TotalCostAppend(gs[..i], [gs[i]], cost);
      ConcatAppend(gs[..i], [gs[i]]);
      if i < Fitting(gs, budget, cost) {
        TotalCostMonotone(gs, i + 1, Fitting(gs, budget, cost), cost);
      }
      if used + price > budget {
        break;
      }
      out := out + gs[i];
      used := used + price;
      i := i + 1;
    }
  }

  lemma TotalCostMonotone(gs: seq<string>, i: nat, j: nat, cost: string -> nat)
    requires i <= j <= |gs|
    ensures TotalCost(gs[..i], cost) <= TotalCost(gs[..j], cost)
  {
    assert gs[..j] == gs[..i] + gs[i..j];
    TotalCostAppend(gs[..i], gs[i..j], cost);
  }

  function ScalarCount(g: string): nat {
    |g|
  }

  /** Counting scalars, the cost of a cluster list is the length of its text. */
  lemma {:induction false} ScalarCost(gs: seq<string>)
    ensures TotalCost(gs, ScalarCount) == |Concat(gs)|
  {
    if gs != [] {
      ScalarCost(gs[1..]);
    }
  }
}
