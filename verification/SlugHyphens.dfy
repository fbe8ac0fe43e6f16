/**
 Hyphens in a row in generated slugs (`common/src/slug.rs`): a letter that takes in a hyphen and
 has something else behind it doubles one, and whether that survives the cap is decided by
 where the cluster of the next letter or digit ends.
 */
module SlugHyphens {
  import opened Text
  import opened Graphemes
  import opened Slug
  import opened SlugLaws

  // What the title says

  /** The letter or digit `k` ends with a hyphen of its own, and something else follows. */
  predicate DoublesHyphen(u: Unicode, gs: seq<string>, k: nat) {
    k + 1 < |gs| && Base(u, gs[k]) && EndsWithDash(gs[k]) && !Base(u, gs[k + 1])
  }

  /** The next letter or digit from `i` on. */
  function NextBase(u: Unicode, gs: seq<string>, i: nat): (j: nat)
    requires i <= |gs|
    ensures i <= j <= |gs| && (j < |gs| ==> Base(u, gs[j]))
    ensures forall k :: i <= k < j ==> !Base(u, gs[k])
    decreases |gs| - i
  {
    if i == |gs| || Base(u, gs[i]) then i else NextBase(u, gs, i + 1)
  }

  /**
   Where the cluster of the letter or digit `m` ends in the slug text: the letter may take in
   the hyphen behind it, and that hyphen the marks of the next letter. At the end of the
   title, a hyphen of its own is trimmed off.
   */
  function KeptEnd(u: Unicode, gs: seq<string>, m: nat): int
    requires m < |gs|
  {
    var end, next := |SlugText(u, gs[..m + 1])|, NextBase(u, gs, m + 1);
    if next == |gs| then if EndsWithDash(gs[m]) then end - 1 else end
    else if next == m + 1 || !u.takesIn(gs[m], '-') then end
    else if LedByMark(u, gs[next]) then |SlugText(u, gs[..next + 1])|
    else end + 1
  }

  /** The letter or digit `m` is within the cap, with all its cluster takes in. */
  predicate Kept(u: Unicode, gs: seq<string>, m: nat) {
    m < |gs| && Base(u, gs[m]) && KeptEnd(u, gs, m) <= MAX_SLUG_CHARS
  }

  /** Some hyphen is doubled in front of a letter or digit that is kept. */
  predicate DoublesKept(u: Unicode, gs: seq<string>) {
    exists k, m :: 0 <= k < m < |gs| && DoublesHyphen(u, gs, k) && Kept(u, gs, m)
  }

  // What the cap keeps

  /** The cluster that holds position `p` ends at `e`; `fs` are the clusters up to there. */
  ghost predicate EndsCluster(u: Unicode, s: string, fs: seq<string>, p: nat, e: nat) {
    && Segmented(u, fs) && fs != [] && e <= |s| && Concat(fs) == s[..e]
    && |Concat(fs[..|fs| - 1])| <= p < e
    && (e < |s| ==> !u.takesIn(fs[|fs| - 1], s[e]))
  }

  lemma ClustersFrom(u: Unicode, s: string, fs: seq<string>, p: nat, e: nat) returns (more: seq<string>)
    requires EndsCluster(u, s, fs, p, e)
    ensures Clusters(u, s) == fs + more
  {
    more := Clusters(u, s[e..]);
    ClustersAreSegmented(u, s[e..]);
    SegmentedAppend(u, fs, more);
    ConcatAppend(fs, more);
    assert s == s[..e] + s[e..];
    SegmentedIsClusters(u, fs + more);
  }

  /** Truncation keeps a scalar exactly when its cluster ends within the cap. */
  lemma TruncationKeeps(u: Unicode, s: string, fs: seq<string>, p: nat, e: nat)
    requires EndsCluster(u, s, fs, p, e)
    ensures p < |Truncated(u, s, MAX_SLUG_CHARS, ScalarCount)| <==> e <= MAX_SLUG_CHARS
  {
    var more := ClustersFrom(u, s, fs, p, e);
    var gs, q := fs + more, |fs|;
    var n := Fitting(gs, MAX_SLUG_CHARS, ScalarCount);
    FittingIsLongest(gs, MAX_SLUG_CHARS, ScalarCount);
    assert gs[..q] == fs && gs[..q - 1] == fs[..q - 1];
    ScalarCost(fs);
    ScalarCost(fs[..q - 1]);
    ScalarCost(gs[..n]);
    if n < q {
      TotalCostMonotone(gs, n, q - 1, ScalarCount);
    } else {
      TotalCostMonotone(gs, q, n, ScalarCount);
    }
  }

  /** Trimming hyphens, truncating and trimming again keeps a letter exactly then. */
  lemma CapKeeps(u: Unicode, s: string, fs: seq<string>, p: nat, e: nat)
    requires EndsCluster(u, TrimDashes(s), fs, p, e) && p < |s| && s[p] != '-'
    ensures p < |Capped(u, s)| <==> e <= MAX_SLUG_CHARS
  {
    var t := TrimDashes(s);
    var kept := Truncated(u, t, MAX_SLUG_CHARS, ScalarCount);
    TrimDashesPrefix(s);
    TruncationKeeps(u, t, fs, p, e);
    TruncatedIsPrefix(u, t);
    TrimDashesPrefix(kept);
    if p < |kept| {
      assert kept[p] == t[p] == s[p];
    }
  }

  // The slug text around a letter

  lemma {:induction false} SlugTextPrefix(u: Unicode, gs: seq<string>, i: nat)
    requires i <= |gs|
    ensures SlugText(u, gs[..i]) <= SlugText(u, gs)
  {
    if i == |gs| {
      assert gs[..i] == gs;
    } else {
      SlugTextPrefix(u, gs[..|gs| - 1], i);
      assert gs[..|gs| - 1][..i] == gs[..i];
    }
  }

  lemma SlugTextPrefixes(u: Unicode, gs: seq<string>, i: nat, j: nat)
    requires i <= j <= |gs|
    ensures SlugText(u, gs[..i]) <= SlugText(u, gs[..j])
  {
    SlugTextPrefix(u, gs[..j], i);
    assert gs[..j][..i] == gs[..i];
  }

  /** Behind a letter, whatever is no letter or digit adds one hyphen. */
  lemma {:induction false} GapText(u: Unicode, gs: seq<string>, m: nat, j: nat)
    requires m < j <= |gs| && Base(u, gs[m]) && forall k :: m < k < j ==> !Base(u, gs[k])
    ensures SlugDraft(u, gs[..j]) ==
            Draft(SlugText(u, gs[..m + 1]) + if j == m + 1 then "" else "-", j > m + 1)
  {
    DraftStep(u, gs, j - 1);
    if j == m + 1 {
      assert SlugText(u, gs[..m + 1]) + "" == SlugText(u, gs[..m + 1]);
    } else {
      GapText(u, gs, m, j - 1);
      DraftStep(u, gs, m);
    }
  }

  /** From the letter or digit `m` on: each letter, and one hyphen wherever something else stands behind it. */
  function LettersFrom(u: Unicode, gs: seq<string>, m: nat): string
    requires m < |gs|
    decreases |gs| - m
  {
    var next := NextBase(u, gs, m + 1);
    gs[m] + (if next > m + 1 then "-" else "") + if next < |gs| then LettersFrom(u, gs, next) else ""
  }

  lemma {:induction false} LettersFollow(u: Unicode, gs: seq<string>, m: nat)
    requires m < |gs| && Base(u, gs[m])
    ensures SlugText(u, gs) == SlugText(u, gs[..m]) + LettersFrom(u, gs, m)
    decreases |gs| - m
  {
    var next := NextBase(u, gs, m + 1);
    var dash := if next > m + 1 then "-" else "";
    DraftStep(u, gs, m);
    GapText(u, gs, m, next);
    if next < |gs| {
      LettersFollow(u, gs, next);
      Grouped(SlugText(u, gs[..m]), gs[m], dash, LettersFrom(u, gs, next));
    } else {
      assert gs[..next] == gs;
      Grouped(SlugText(u, gs[..m]), gs[m], dash, "");
    }
  }

  lemma Grouped(a: string, b: string, c: string, d: string)
    ensures a + b + c + d == a + (b + c + d)
    ensures d == "" ==> a + b + c == a + b + c + d
  {
  }

  /** The slug text is the letters and digits in order, from the first on; without any it is empty. */
  lemma SlugTextIsLetters(u: Unicode, gs: seq<string>)
    ensures var first := NextBase(u, gs, 0);
            SlugText(u, gs) == if first == |gs| then "" else LettersFrom(u, gs, first)
  {
    var first := NextBase(u, gs, 0);
    NoLetterNoText(u, gs[..first]);
    if first < |gs| {
      LettersFollow(u, gs, first);
      assert "" + LettersFrom(u, gs, first) == LettersFrom(u, gs, first);
    } else {
      assert gs[..first] == gs;
    }
  }

  lemma {:induction false} NoLetterNoText(u: Unicode, gs: seq<string>)
    requires forall i :: 0 <= i < |gs| ==> !Base(u, gs[i])
    ensures SlugText(u, gs) == ""
  {
    if gs != [] {
      NoLetterNoText(u, gs[..|gs| - 1]);
    }
  }

  /** The text of a letter, and its first scalar. */
  lemma LetterText(u: Unicode, gs: seq<string>, m: nat)
    requires WellFormed(u) && m < |gs| && Base(u, gs[m])
    ensures SlugText(u, gs[..m + 1]) == SlugText(u, gs[..m]) + gs[m]
    ensures var p := |SlugText(u, gs[..m])|;
            p < |SlugText(u, gs)| && SlugText(u, gs)[p] == gs[m][0] && gs[m][0] != '-'
  {
    DraftStep(u, gs, m);
    SlugTextPrefix(u, gs, m + 1);
  }

  lemma TrimReaches(u: Unicode, gs: seq<string>, m: nat)
    requires WellFormed(u) && m < |gs| && Base(u, gs[m])
    ensures |SlugText(u, gs[..m])| < |TrimDashes(SlugText(u, gs))|
    ensures TrimDashes(SlugText(u, gs)) <= SlugText(u, gs)
  {
    LetterText(u, gs, m);
    TrimDashesPrefix(SlugText(u, gs));
  }

  /** The clusters of the text up to a letter: the last one holds the letter. */
  lemma UpToLetter(u: Unicode, gs: seq<string>, m: nat) returns (cs: seq<string>)
    requires WellFormed(u) && Segmented(u, gs) && m < |gs| && Base(u, gs[m])
    ensures SlugClusters(u, cs) && cs != [] && Concat(cs) == SlugText(u, gs[..m + 1])
    ensures EndsInPiece(u, cs[|cs| - 1], gs[m])
    ensures |Concat(cs[..|cs| - 1])| <= |SlugText(u, gs[..m])|
  {
    cs := SlugTextShape(u, gs, m + 1);
    LetterText(u, gs, m);
    DraftStep(u, gs, m);
    StraySteps(u, gs, m);
    ConcatLast(cs);
  }

  // Where the cluster of a letter ends

  /** `fs` and `e` say where the cluster of the letter `m` ends in the trimmed slug text. */
  ghost predicate LetterEnds(u: Unicode, gs: seq<string>, m: nat, fs: seq<string>, e: nat)
    requires m < |gs|
  {
    EndsCluster(u, TrimDashes(SlugText(u, gs)), fs, |SlugText(u, gs[..m])|, e) && e == KeptEnd(u, gs, m)
  }

  lemma EndsHere(u: Unicode, gs: seq<string>, m: nat, cs: seq<string>, e: nat)
    requires m < |gs| && SlugClusters(u, cs) && cs != [] && e == |Concat(cs)| == KeptEnd(u, gs, m)
    requires |Concat(cs[..|cs| - 1])| <= |SlugText(u, gs[..m])| < e
    requires Concat(cs) <= TrimDashes(SlugText(u, gs)) <= SlugText(u, gs)
    requires e < |SlugText(u, gs)| ==> !u.takesIn(cs[|cs| - 1], SlugText(u, gs)[e])
    ensures LetterEnds(u, gs, m, cs, e)
  {
    SlugClustersAreSegmented(u, cs);
  }

  lemma DashesTrimmed(x: string)
    ensures TrimDashes(x + "-") == TrimDashes(x)
    ensures !EndsWithDash(x) ==> TrimDashes(x) == x
  {
    assert (x + "-")[..|x|] == x;
  }

  lemma SecondLastIsNoDash(u: Unicode, g: string)
    requires WellFormed(u) && IsCluster(u, g) && Base(u, g) && EndsWithDash(g)
    ensures |g| > 1 && g[|g| - 2] != '-'
  {
    if |g| > 1 && g[|g| - 2] == '-' {
      TrailingHyphen(u, g[..|g| - 1], '-');
    }
  }

  /** The last letter or digit of the title. */
  lemma LastPlainLetter(u: Unicode, gs: seq<string>, m: nat) returns (fs: seq<string>, e: nat)
    requires WellFormed(u) && Segmented(u, gs) && m < |gs| && Base(u, gs[m]) && NextBase(u, gs, m + 1) == |gs|
    requires !EndsWithDash(gs[m])
    ensures LetterEnds(u, gs, m, fs, e)
  {
    fs := UpToLetter(u, gs, m);
    e := |SlugText(u, gs[..m + 1])|;
    LetterText(u, gs, m);
    LastText(u, gs, m);
    DashesTrimmed(SlugText(u, gs[..m + 1]));
    SlugClustersAreSegmented(u, fs);
  }

  /** A hyphen of its own is trimmed off it. */
  lemma LastHyphenatedLetter(u: Unicode, gs: seq<string>, m: nat) returns (fs: seq<string>, e: nat)
    requires WellFormed(u) && Segmented(u, gs) && m < |gs| && Base(u, gs[m]) && NextBase(u, gs, m + 1) == |gs|
    requires EndsWithDash(gs[m])
    ensures LetterEnds(u, gs, m, fs, e)
  {
    var cs := UpToLetter(u, gs, m);
    e := |SlugText(u, gs[..m + 1])| - 1;
    LetterText(u, gs, m);
    SegmentedAt(u, gs, m);
    SecondLastIsNoDash(u, gs[m]);
    fs := WithoutHyphen(u, cs, gs[m]);
    LastText(u, gs, m);
    DashesTrimmed(Concat(fs));
    SlugClustersAreSegmented(u, fs);
  }

  lemma LastText(u: Unicode, gs: seq<string>, m: nat)
    requires m < |gs| && Base(u, gs[m]) && NextBase(u, gs, m + 1) == |gs|
    ensures TrimDashes(SlugText(u, gs)) == TrimDashes(SlugText(u, gs[..m + 1]))
  {
    GapText(u, gs, m, |gs|);
    assert gs[..|gs|] == gs;
    DashesTrimmed(SlugText(u, gs[..m + 1]));
  }

  lemma WithoutHyphen(u: Unicode, cs: seq<string>, g: string) returns (fs: seq<string>)
    requires WellFormed(u) && SlugClusters(u, cs) && cs != [] && EndsInPiece(u, cs[|cs| - 1], g)
    requires |g| > 1 && EndsWithDash(g) && g[|g| - 2] != '-'
    ensures SlugClusters(u, fs) && fs != [] && fs[..|fs| - 1] == cs[..|cs| - 1]
    ensures Concat(cs) == Concat(fs) + "-" && Concat(fs) != [] && !EndsWithDash(Concat(fs))
  {
    var c := cs[|cs| - 1];
    assert c[|c| - 1] == '-' && c[|c| - 2] == g[|g| - 2];
    fs := DropLastHyphen(u, cs);
    ConcatLast(fs);
    assert fs[|fs| - 1] == c[..|c| - 1];
  }

  /** What follows the letter `m` in the slug text. */
  lemma Behind(u: Unicode, gs: seq<string>, m: nat)
    requires WellFormed(u) && m + 1 < |gs| && Base(u, gs[m])
    ensures var text, e := SlugText(u, gs), |SlugText(u, gs[..m + 1])|;
            e < |text| && text[e] == if Base(u, gs[m + 1]) then gs[m + 1][0] else '-'
  {
    GapText(u, gs, m, m + 1);
    DraftStep(u, gs, m);
    DraftStep(u, gs, m + 1);
    SlugTextPrefix(u, gs, m + 2);
  }

  /** A cluster that ends with a letter takes in nothing of a letter behind it, and a hyphen only if the letter does. */
  lemma NotTakenIn(u: Unicode, gs: seq<string>, m: nat, c: string)
    requires WellFormed(u) && Segmented(u, gs) && m + 1 < |gs| && Base(u, gs[m]) && EndsInPiece(u, c, gs[m])
    requires Base(u, gs[m + 1]) || !u.takesIn(gs[m], '-')
    ensures !u.takesIn(c, if Base(u, gs[m + 1]) then gs[m + 1][0] else '-')
  {
    SegmentedAt(u, gs, m + 1);
    ForgetfulHyphen(u, c, gs[m], if Base(u, gs[m + 1]) then gs[m + 1][0] else '-');
  }

  lemma TextReaches(u: Unicode, gs: seq<string>, i: nat, next: nat)
    requires WellFormed(u) && i <= next < |gs| && Base(u, gs[next])
    ensures SlugText(u, gs[..i]) <= TrimDashes(SlugText(u, gs)) <= SlugText(u, gs)
  {
    TrimReaches(u, gs, next);
    SlugTextPrefixes(u, gs, i, next);
    SlugTextPrefix(u, gs, i);
    PrefixOfPrefix(SlugText(u, gs[..i]), TrimDashes(SlugText(u, gs)), SlugText(u, gs));
  }

  lemma PrefixOfPrefix(a: string, b: string, s: string)
    requires a <= s && b <= s && |a| <= |b|
    ensures a <= b
  {
    assert a == s[..|a|] && b == s[..|b|];
  }

  /** A letter that takes in no hyphen, or has another letter right behind it. */
  lemma PlainLetter(u: Unicode, gs: seq<string>, m: nat) returns (fs: seq<string>, e: nat)
    requires WellFormed(u) && Segmented(u, gs) && m < |gs| && Base(u, gs[m])
    requires var next := NextBase(u, gs, m + 1);
             next < |gs| && (next == m + 1 || !u.takesIn(gs[m], '-'))
    ensures LetterEnds(u, gs, m, fs, e)
  {
    fs := UpToLetter(u, gs, m);
    e := |SlugText(u, gs[..m + 1])|;
    LetterText(u, gs, m);
    Behind(u, gs, m);
    NotTakenIn(u, gs, m, fs[|fs| - 1]);
    TextReaches(u, gs, m + 1, NextBase(u, gs, m + 1));
    EndsHere(u, gs, m, fs, e);
  }

  /** A letter that takes in the hyphen behind it. */
  lemma WithHyphen(u: Unicode, gs: seq<string>, m: nat) returns (cs: seq<string>)
    requires WellFormed(u) && Segmented(u, gs) && m < |gs| && Base(u, gs[m]) && u.takesIn(gs[m], '-')
    ensures SlugClusters(u, cs) && cs != [] && Concat(cs) == SlugText(u, gs[..m + 1]) + "-"
    ensures |Concat(cs[..|cs| - 1])| <= |SlugText(u, gs[..m])|
    ensures var c := cs[|cs| - 1];
            Base(u, c) && c[|c| - 1] == '-'
  {
    var prev := UpToLetter(u, gs, m);
    SegmentedAt(u, gs, m);
    ForgetfulHyphen(u, prev[|prev| - 1], gs[m], '-');
    cs := HyphenTakenIn(u, prev, gs[m]);
    assert cs[..|cs| - 1] == prev[..|prev| - 1];
  }

  /** The hyphen that a letter takes in takes in nothing of the next letter. */
  lemma HyphenatedLetter(u: Unicode, gs: seq<string>, m: nat) returns (fs: seq<string>, e: nat)
    requires WellFormed(u) && Segmented(u, gs) && m < |gs| && Base(u, gs[m]) && u.takesIn(gs[m], '-')
    requires var next := NextBase(u, gs, m + 1);
             m + 1 < next < |gs| && !LedByMark(u, gs[next])
    ensures LetterEnds(u, gs, m, fs, e)
  {
    var next := NextBase(u, gs, m + 1);
    fs := WithHyphen(u, gs, m);
    e := |SlugText(u, gs[..m + 1])| + 1;
    GapText(u, gs, m, next);
    LetterText(u, gs, m);
    LetterText(u, gs, next);
    TextReaches(u, gs, next, next);
    TrailingHyphen(u, fs[|fs| - 1], gs[next][0]);
    EndsHere(u, gs, m, fs, e);
  }

  /** The hyphen that a letter takes in takes in the next letter, which is a mark. */
  lemma WithMarks(u: Unicode, gs: seq<string>, m: nat, next: nat) returns (fs: seq<string>)
    requires WellFormed(u) && Segmented(u, gs) && m < |gs| && Base(u, gs[m]) && u.takesIn(gs[m], '-')
    requires next == NextBase(u, gs, m + 1) && m + 1 < next < |gs| && LedByMark(u, gs[next])
    ensures SlugClusters(u, fs) && fs != [] && Concat(fs) == SlugText(u, gs[..next + 1])
    ensures |Concat(fs[..|fs| - 1])| <= |SlugText(u, gs[..m])|
    ensures fs[|fs| - 1] != [] && EndsInPiece(u, fs[|fs| - 1], gs[next])
  {
    var prev := WithHyphen(u, gs, m);
    GapText(u, gs, m, next);
    DraftStep(u, gs, next);
    SegmentedAt(u, gs, next);
    fs := MarksTakenIn(u, prev, gs[next]);
    assert fs[..|fs| - 1] == prev[..|prev| - 1];
  }

  lemma MarkedEnd(u: Unicode, gs: seq<string>, m: nat, next: nat, fs: seq<string>)
    requires m + 1 < next < |gs| && next == NextBase(u, gs, m + 1) && u.takesIn(gs[m], '-') && LedByMark(u, gs[next])
    requires SlugClusters(u, fs) && fs != [] && Concat(fs) == SlugText(u, gs[..next + 1])
    requires |Concat(fs[..|fs| - 1])| <= |SlugText(u, gs[..m])| < |SlugText(u, gs[..m + 1])|
    requires SlugText(u, gs[..next + 1]) <= TrimDashes(SlugText(u, gs)) <= SlugText(u, gs)
    requires var text, e := SlugText(u, gs), |SlugText(u, gs[..next + 1])|;
             e < |text| ==> !u.takesIn(fs[|fs| - 1], text[e])
    ensures LetterEnds(u, gs, m, fs, |SlugText(u, gs[..next + 1])|)
  {
    SlugTextPrefixes(u, gs, m + 1, next + 1);
    EndsHere(u, gs, m, fs, |SlugText(u, gs[..next + 1])|);
  }

  lemma MarkedLetter(u: Unicode, gs: seq<string>, m: nat) returns (fs: seq<string>, e: nat)
    requires WellFormed(u) && Segmented(u, gs) && m < |gs| && Base(u, gs[m]) && u.takesIn(gs[m], '-')
    requires var next := NextBase(u, gs, m + 1);
             m + 1 < next < |gs| && LedByMark(u, gs[next])
    ensures LetterEnds(u, gs, m, fs, e)
  {
    var next := NextBase(u, gs, m + 1);
    fs := WithMarks(u, gs, m, next);
    e := |SlugText(u, gs[..next + 1])|;
    MarkReaches(u, gs, next);
    MarkTakesNothing(u, gs, next, fs[|fs| - 1]);
    LetterText(u, gs, m);
    MarkedEnd(u, gs, m, next, fs);
  }

  /** A letter led by a mark holds no hyphen, so trimming stops behind it. */
  lemma MarkReaches(u: Unicode, gs: seq<string>, m: nat)
    requires WellFormed(u) && Segmented(u, gs) && m < |gs| && Base(u, gs[m]) && LedByMark(u, gs[m])
    ensures SlugText(u, gs[..m + 1]) <= TrimDashes(SlugText(u, gs)) <= SlugText(u, gs)
  {
    var a, s := SlugText(u, gs[..m + 1]), SlugText(u, gs);
    LetterText(u, gs, m);
    SegmentedAt(u, gs, m);
    MarkLedHasNoHyphen(u, gs[m]);
    SlugTextPrefix(u, gs, m + 1);
    TrimDashesPrefix(s);
    assert s[|a| - 1] == a[|a| - 1] == gs[m][|gs[m]| - 1];
    PrefixOfPrefix(a, TrimDashes(s), s);
  }

  lemma MarkTakesNothing(u: Unicode, gs: seq<string>, m: nat, c: string)
    requires WellFormed(u) && Segmented(u, gs) && m < |gs| && Base(u, gs[m]) && LedByMark(u, gs[m])
    requires c != [] && EndsInPiece(u, c, gs[m])
    ensures var text, e := SlugText(u, gs), |SlugText(u, gs[..m + 1])|;
            e < |text| ==> !u.takesIn(c, text[e])
  {
    if m + 1 < |gs| {
      SegmentedAt(u, gs, m);
      assert NoHyphenAfterMark(u, gs[m]);
      Behind(u, gs, m);
      NotTakenIn(u, gs, m, c);
    } else {
      assert gs[..m + 1] == gs;
    }
  }

  lemma LetterEnd(u: Unicode, gs: seq<string>, m: nat) returns (fs: seq<string>, e: nat)
    requires WellFormed(u) && Segmented(u, gs) && m < |gs| && Base(u, gs[m])
    ensures LetterEnds(u, gs, m, fs, e)
  {
    var next := NextBase(u, gs, m + 1);
    if next == |gs| && EndsWithDash(gs[m]) {
      fs, e := LastHyphenatedLetter(u, gs, m);
    } else if next == |gs| {
      fs, e := LastPlainLetter(u, gs, m);
    } else if next == m + 1 || !u.takesIn(gs[m], '-') {
      fs, e := PlainLetter(u, gs, m);
    } else if LedByMark(u, gs[next]) {
      fs, e := MarkedLetter(u, gs, m);
    } else {
      fs, e := HyphenatedLetter(u, gs, m);
    }
  }

  /** A letter or digit of the title reaches the slug exactly when its cluster ends within the cap. */
  lemma LetterKept(u: Unicode, gs: seq<string>, m: nat)
    requires WellFormed(u) && Segmented(u, gs) && m < |gs| && Base(u, gs[m])
    ensures |SlugText(u, gs[..m])| < |Capped(u, SlugText(u, gs))| <==> Kept(u, gs, m)
  {
    var fs, e := LetterEnd(u, gs, m);
    LetterText(u, gs, m);
    CapKeeps(u, SlugText(u, gs), fs, |SlugText(u, gs[..m])|, e);
  }

  // Hyphens in a row

  predicate DoubleHyphen(s: string) {
    exists i :: 0 <= i < |s| - 1 && s[i] == '-' && s[i + 1] == '-'
  }

  /** Some hyphen is doubled less than `n` scalars into the slug text. */
  predicate Doubled(u: Unicode, gs: seq<string>, n: nat) {
    gs != [] &&
    var front, g := gs[..|gs| - 1], gs[|gs| - 1];
    || Doubled(u, front, n)
    || (!Base(u, g) && front != [] && Base(u, front[|front| - 1]) && EndsWithDash(front[|front| - 1])
        && |SlugText(u, front)| < n)
  }

  lemma DoubleAcross(a: string, b: string)
    requires b != []
    ensures DoubleHyphen(a + b) <==> DoubleHyphen(a) || (EndsWithDash(a) && b[0] == '-') || DoubleHyphen(b)
  {
    var s := a + b;
    if i :| 0 <= i < |s| - 1 && s[i] == '-' && s[i + 1] == '-' {
      assert if i + 1 < |a| then a[i] == s[i] && a[i + 1] == s[i + 1]
             else if i + 1 == |a| then a[i] == s[i] && b[0] == s[i + 1]
             else b[i - |a|] == s[i] && b[i - |a| + 1] == s[i + 1];
    }
    if i :| 0 <= i < |a| - 1 && a[i] == '-' && a[i + 1] == '-' {
      assert s[i] == '-' && s[i + 1] == '-';
    }
    if EndsWithDash(a) && b[0] == '-' {
      assert s[|a| - 1] == '-' && s[|a| - 1 + 1] == '-';
    }
    if i :| 0 <= i < |b| - 1 && b[i] == '-' && b[i + 1] == '-' {
      assert s[|a| + i] == '-' && s[|a| + i + 1] == '-';
    }
  }

  lemma NoDoubleInCluster(u: Unicode, g: string, n: nat)
    requires WellFormed(u) && IsCluster(u, g) && n <= |g|
    ensures !DoubleHyphen(g[..n])
  {
    forall i | 0 <= i < n - 1 && g[i] == '-'
      ensures g[i + 1] != '-'
    {
      TrailingHyphen(u, g[..i + 1], g[i + 1]);
    }
  }

  lemma SlugTextGrows(u: Unicode, gs: seq<string>)
    requires gs != []
    ensures SlugText(u, gs[..|gs| - 1]) <= SlugText(u, gs)
  {
  }

  /** Text beyond the end makes no difference. */
  lemma {:induction false} DoubledSaturates(u: Unicode, gs: seq<string>, n: nat)
    requires n >= |SlugText(u, gs)|
    ensures Doubled(u, gs, n) <==> Doubled(u, gs, |SlugText(u, gs)|)
  {
    if gs != [] {
      var front := gs[..|gs| - 1];
      SlugTextGrows(u, gs);
      DoubledSaturates(u, front, n);
      DoubledSaturates(u, front, |SlugText(u, gs)|);
      if |gs| > 1 && !Base(u, gs[|gs| - 1]) && Base(u, gs[|gs| - 2]) {
        HyphenIsAdded(u, gs);
      }
    }
  }

  lemma HyphenIsAdded(u: Unicode, gs: seq<string>)
    requires |gs| > 1 && !Base(u, gs[|gs| - 1]) && Base(u, gs[|gs| - 2])
    ensures SlugText(u, gs) == SlugText(u, gs[..|gs| - 1]) + "-"
  {
    var front := gs[..|gs| - 1];
    assert front[|front| - 1] == gs[|gs| - 2];
  }

  /** The first `n` scalars of a slug text hold two hyphens in a row exactly when the title doubles one there. */
  lemma {:induction false} DoubleInText(u: Unicode, gs: seq<string>, n: nat)
    requires WellFormed(u) && Segmented(u, gs) && n <= |SlugText(u, gs)|
    ensures DoubleHyphen(SlugText(u, gs)[..n]) <==> Doubled(u, gs, n)
  {
    if gs != [] {
      var front, g := gs[..|gs| - 1], gs[|gs| - 1];
      var t, text := SlugText(u, front), SlugText(u, gs);
      SlugTextGrows(u, gs);
      if n <= |t| {
        assert text[..n] == t[..n];
        DoubleInText(u, front, n);
      } else {
        var added := text[|t|..n];
        assert text[..n] == t + added && t[..|t|] == t;
        DoubleInText(u, front, |t|);
        DoubledSaturates(u, front, n);
        DoubleAcross(t, added);
        if Base(u, g) {
          assert added == g[..n - |t|];
          NoDoubleInCluster(u, g, n - |t|);
        } else {
          assert front + [g] == gs;
          AddedHyphen(u, front, g);
          assert added == "-";
        }
      }
    }
  }

  lemma AddedHyphen(u: Unicode, front: seq<string>, g: string)
    requires !Base(u, g) && |SlugText(u, front + [g])| > |SlugText(u, front)|
    ensures SlugText(u, front + [g]) == SlugText(u, front) + "-"
    ensures front != [] && Base(u, front[|front| - 1])
    ensures EndsWithDash(SlugText(u, front)) <==> EndsWithDash(front[|front| - 1])
  {
    assert (front + [g])[..|front|] == front;
    DraftDash(u, front);
  }

  predicate DoublesBelow(u: Unicode, gs: seq<string>, k: nat, n: nat) {
    DoublesHyphen(u, gs, k) && |SlugText(u, gs[..k + 1])| < n
  }

  lemma {:induction false} DoubledIsSomewhere(u: Unicode, gs: seq<string>, n: nat)
    ensures Doubled(u, gs, n) <==> exists k :: 0 <= k < |gs| && DoublesBelow(u, gs, k, n)
  {
    if gs != [] {
      var front := gs[..|gs| - 1];
      DoubledIsSomewhere(u, front, n);
      forall k | 0 <= k && k + 1 < |front|
        ensures DoublesBelow(u, front, k, n) <==> DoublesBelow(u, gs, k, n)
      {
        assert front[..k + 1] == gs[..k + 1];
      }
      if |gs| > 1 {
        assert gs[..|gs| - 2 + 1] == front;
        assert DoublesBelow(u, gs, |gs| - 2, n) <==>
               !Base(u, gs[|gs| - 1]) && Base(u, front[|front| - 1]) && EndsWithDash(front[|front| - 1])
               && |SlugText(u, front)| < n;
      }
    }
  }

  /** A hyphen doubled at the end of the title is trimmed off. */
  lemma TrailingDoubled(u: Unicode, gs: seq<string>, k: nat)
    requires DoublesHyphen(u, gs, k) && NextBase(u, gs, k + 1) == |gs|
    ensures |Capped(u, SlugText(u, gs))| <= |SlugText(u, gs[..k + 1])|
  {
    LastText(u, gs, k);
    TrimDashesPrefix(SlugText(u, gs[..k + 1]));
    CappedIsShorter(u, SlugText(u, gs));
  }

  lemma CappedIsShorter(u: Unicode, s: string)
    ensures |Capped(u, s)| <= |TrimDashes(s)| && !EndsWithDash(Capped(u, s))
  {
    TruncatedIsPrefix(u, TrimDashes(s));
    TrimDashesPrefix(Truncated(u, TrimDashes(s), MAX_SLUG_CHARS, ScalarCount));
  }

  /** What is kept of a doubled hyphen reaches on to the next letter or digit. */
  lemma ReachesNext(u: Unicode, gs: seq<string>, k: nat)
    requires WellFormed(u) && DoublesBelow(u, gs, k, |Capped(u, SlugText(u, gs))|)
    ensures var next := NextBase(u, gs, k + 1);
            k < next < |gs| && |SlugText(u, gs[..next])| < |Capped(u, SlugText(u, gs))|
  {
    var text, capped := SlugText(u, gs), Capped(u, SlugText(u, gs));
    var next, e := NextBase(u, gs, k + 1), |SlugText(u, gs[..k + 1])|;
    CappedIsPrefix(u, text);
    CappedIsShorter(u, text);
    Behind(u, gs, k);
    assert capped[e] == text[e] == '-';
    GapText(u, gs, k, next);
    if next == |gs| {
      TrailingDoubled(u, gs, k);
    }
  }

  /** Behind a doubled hyphen that is kept, the next letter or digit is kept. */
  lemma DoubledIsKept(u: Unicode, gs: seq<string>, k: nat)
    requires WellFormed(u) && Segmented(u, gs)
    requires DoublesBelow(u, gs, k, |Capped(u, SlugText(u, gs))|)
    ensures DoublesKept(u, gs)
  {
    var m := NextBase(u, gs, k + 1);
    ReachesNext(u, gs, k);
    LetterKept(u, gs, m);
    assert DoublesHyphen(u, gs, k) && Kept(u, gs, m);
  }

  lemma KeptIsDoubled(u: Unicode, gs: seq<string>, k: nat, m: nat)
    requires WellFormed(u) && Segmented(u, gs) && k < m < |gs| && DoublesHyphen(u, gs, k) && Kept(u, gs, m)
    ensures DoublesBelow(u, gs, k, |Capped(u, SlugText(u, gs))|)
  {
    LetterKept(u, gs, m);
    SlugTextPrefixes(u, gs, k + 1, m);
  }

  lemma CappedDoubles(u: Unicode, gs: seq<string>)
    requires WellFormed(u) && Segmented(u, gs)
    ensures DoubleHyphen(Capped(u, SlugText(u, gs))) <==> DoublesKept(u, gs)
  {
    var text, n := SlugText(u, gs), |Capped(u, SlugText(u, gs))|;
    CappedIsPrefix(u, text);
    assert text[..n] == Capped(u, text);
    DoubleInText(u, gs, n);
    DoubledIsSomewhere(u, gs, n);
    if k :| 0 <= k < |gs| && DoublesBelow(u, gs, k, n) {
      DoubledIsKept(u, gs, k);
    }
    if k, m :| 0 <= k < m < |gs| && DoublesHyphen(u, gs, k) && Kept(u, gs, m) {
      KeptIsDoubled(u, gs, k, m);
    }
  }

  /**
   A generated slug is never empty, fits the cap, and has no hyphen at either end; it holds two
   hyphens in a row exactly when the title doubles one in front of a letter or digit that is kept.
   */
  lemma SlugIsTidy(u: Unicode, title: string)
    requires WellFormed(u)
    ensures var r := Slugify(u, title);
            && r != [] && |r| <= MAX_SLUG_CHARS && r[0] != '-' && !EndsWithDash(r)
            && (DoubleHyphen(r) <==> DoublesKept(u, TitleClusters(u, title)))
  {
    var fs := GeneratedShape(u, title);
    EmptyText(u, fs);
    SlugClustersAt(u, fs, 0);
    assert Concat(fs)[0] == fs[0][0];
    ClustersAreSegmented(u, u.normalize(title));
    CappedDoubles(u, TitleClusters(u, title));
    assert !DoubleHyphen("post") && !DoubleHyphen([]);
  }

  /** A title in which no letter or digit ends with a hyphen of its own makes a slug without doubled hyphens. */
  lemma TidyTitles(u: Unicode, title: string)
    requires WellFormed(u)
    requires forall g :: g in TitleClusters(u, title) && Base(u, g) ==> !EndsWithDash(g)
    ensures !DoubleHyphen(Slugify(u, title))
  {
    SlugIsTidy(u, title);
  }

  // The fallback

  lemma {:induction false} TextHasLetter(u: Unicode, gs: seq<string>)
    requires SlugText(u, gs) != []
    ensures exists m :: 0 <= m < |gs| && Base(u, gs[m]) && SlugText(u, gs[..m]) == []
  {
    var front := gs[..|gs| - 1];
    if SlugText(u, front) != [] {
      TextHasLetter(u, front);
      var m :| 0 <= m < |front| && Base(u, front[m]) && SlugText(u, front[..m]) == [];
      assert front[..m] == gs[..m] && gs[m] == front[m];
    }
  }

  /**
   The slug is what is left of the slug text, unless no letter or digit of the title is kept:
   then, and only then, it is the fallback.
   */
  lemma FallbackExactly(u: Unicode, title: string)
    requires WellFormed(u)
    ensures var gs := TitleClusters(u, title);
            if exists m :: Kept(u, gs, m)
            then Slugify(u, title) != [] && Slugify(u, title) <= SlugText(u, gs)
            else Slugify(u, title) == "post"
  {
    var gs := TitleClusters(u, title);
    var text := SlugText(u, gs);
    ClustersAreSegmented(u, u.normalize(title));
    CappedIsPrefix(u, text);
    if m :| Kept(u, gs, m) {
      LetterKept(u, gs, m);
    }
    if Capped(u, text) != [] {
      TextHasLetter(u, gs);
      var m :| 0 <= m < |gs| && Base(u, gs[m]) && SlugText(u, gs[..m]) == [];
      LetterKept(u, gs, m);
      assert Kept(u, gs, m);
    }
  }
}
