/**
 The laws of slugs (`common/src/slug.rs`), each with its exact condition on the title: when
 the validator accepts a generated slug, and when generating from a slug changes it. They hold
 of every table that meets `Slug.WellFormed`.
 */
module SlugLaws {
  import opened Wrappers
  import opened Text
  import opened Graphemes
  import opened Slug

  // Trimming and capping keep a prefix of the clusters

  lemma {:induction false} TrimDashesPrefix(s: string)
    ensures TrimDashes(s) <= s && !EndsWithDash(TrimDashes(s))
    ensures forall i :: |TrimDashes(s)| <= i < |s| ==> s[i] == '-'
  {
    if s != [] && s[|s| - 1] == '-' {
      TrimDashesPrefix(s[..|s| - 1]);
    }
  }

  /** Trimming hyphens shortens or drops last clusters, and never touches a marked hyphen. */
  lemma {:induction false} TrimShape(u: Unicode, cs: seq<string>) returns (fs: seq<string>)
    requires WellFormed(u) && SlugClusters(u, cs)
    ensures SlugClusters(u, fs) && Concat(fs) == TrimDashes(Concat(cs))
    ensures MarkedWithin(fs) <==> MarkedWithin(cs)
    ensures BareHyphens(fs) <==> BareHyphens(cs)
    decreases |Concat(cs)|
  {
    fs := cs;
    if cs != [] {
      ConcatLast(cs);
      var c := cs[|cs| - 1];
      if c[|c| - 1] == '-' {
        var shorter := DropLastHyphen(u, cs);
        fs := TrimShape(u, shorter);
      }
    }
  }

  lemma DropLastHyphen(u: Unicode, cs: seq<string>) returns (fs: seq<string>)
    requires WellFormed(u) && SlugClusters(u, cs) && cs != []
    requires var c := cs[|cs| - 1];
             c[|c| - 1] == '-'
    ensures SlugClusters(u, fs) && Concat(cs) == Concat(fs) + "-"
    ensures MarkedWithin(fs) <==> MarkedWithin(cs)
    ensures BareHyphens(fs) <==> BareHyphens(cs)
    ensures var c := cs[|cs| - 1];
            |c| > 1 ==> fs == cs[..|cs| - 1] + [c[..|c| - 1]]
  {
    var front, c := cs[..|cs| - 1], cs[|cs| - 1];
    ConcatLast(cs);
    if |c| == 1 {
      fs := front;
    } else {
      var d := c[..|c| - 1];
      assert c == d + "-" && c[1..][|c| - 2] == '-';
      PrefixIsCluster(u, c, |c| - 1);
      SlugClustersSwap(u, cs, d);
      SlugClustersSnoc(u, front, d);
      assert Concat(front) + d + "-" == Concat(front) + (d + "-");
      fs := front + [d];
    }
  }

  lemma {:induction false} MarkedWithinAll(cs: seq<string>)
    requires |Concat(cs)| <= MAX_SLUG_CHARS
    ensures MarkedWithin(cs) <==> !BareHyphens(cs)
  {
    if cs != [] {
      ConcatLast(cs);
      MarkedWithinAll(cs[..|cs| - 1]);
    }
  }

  /** The longest prefix within the cap holds the marked hyphens that end within the cap. */
  lemma {:induction false} MarkedWithinPrefix(cs: seq<string>, n: nat)
    requires n <= |cs| && |Concat(cs[..n])| <= MAX_SLUG_CHARS
    requires forall m :: n < m <= |cs| ==> |Concat(cs[..m])| > MAX_SLUG_CHARS
    ensures MarkedWithin(cs) <==> !BareHyphens(cs[..n])
  {
    assert cs[..|cs|] == cs;
    if n == |cs| {
      MarkedWithinAll(cs);
    } else {
      var front := cs[..|cs| - 1];
      assert forall m :: 0 <= m <= |front| ==> front[..m] == cs[..m];
      MarkedWithinPrefix(front, n);
    }
  }

  lemma TruncatedShape(u: Unicode, cs: seq<string>) returns (fs: seq<string>)
    requires SlugClusters(u, cs)
    ensures SlugClusters(u, fs) && |Concat(fs)| <= MAX_SLUG_CHARS
    ensures MarkedWithin(cs) <==> !BareHyphens(fs)
    ensures Truncated(u, Concat(cs), MAX_SLUG_CHARS, ScalarCount) == Concat(fs)
  {
    SlugClustersAreSegmented(u, cs);
    SegmentedIsClusters(u, cs);
    FittingIsLongest(cs, MAX_SLUG_CHARS, ScalarCount);
    var n := Fitting(cs, MAX_SLUG_CHARS, ScalarCount);
    fs := cs[..n];
    SlugClustersPrefix(u, cs, n);
    ScalarCost(fs);
    forall m | n < m <= |cs|
      ensures |Concat(cs[..m])| > MAX_SLUG_CHARS
    {
      ScalarCost(cs[..m]);
    }
    MarkedWithinPrefix(cs, n);
  }

  lemma CappedShape(u: Unicode, cs: seq<string>) returns (fs: seq<string>)
    requires WellFormed(u) && SlugClusters(u, cs)
    ensures SlugClusters(u, fs) && |Concat(fs)| <= MAX_SLUG_CHARS
    ensures Capped(u, Concat(cs)) == Concat(fs) && !EndsWithDash(Concat(fs))
    ensures BareHyphens(fs) <==> !MarkedWithin(cs)
  {
    var trimmed := TrimShape(u, cs);
    var kept := TruncatedShape(u, trimmed);
    fs := TrimShape(u, kept);
    TrimDashesPrefix(Concat(kept));
  }

  lemma TruncatedIsPrefix(u: Unicode, s: string)
    ensures Truncated(u, s, MAX_SLUG_CHARS, ScalarCount) <= s
  {
    var gs := Clusters(u, s);
    var n := Fitting(gs, MAX_SLUG_CHARS, ScalarCount);
    FittingIsLongest(gs, MAX_SLUG_CHARS, ScalarCount);
    assert gs == gs[..n] + gs[n..];
    ConcatAppend(gs[..n], gs[n..]);
  }

  lemma CappedIsPrefix(u: Unicode, s: string)
    ensures Capped(u, s) <= s
  {
    TrimDashesPrefix(s);
    TruncatedIsPrefix(u, TrimDashes(s));
    TrimDashesPrefix(Truncated(u, TrimDashes(s), MAX_SLUG_CHARS, ScalarCount));
  }

  // A generated slug is normal

  lemma NormalParts(u: Unicode, a: string, b: string)
    requires WellFormed(u) && Normal(u, a + b)
    ensures Normal(u, a) && Normal(u, b)
  {
    assert [] + a + b == a + b && a + b + [] == a + b;
    assert PartStaysNormal(u, [], a, b) && PartStaysNormal(u, a, b, []);
  }

  lemma JoinedIsNormal(u: Unicode, a: string, b: string)
    requires WellFormed(u) && EndsWithDash(a) && Normal(u, a) && Normal(u, b)
    ensures Normal(u, a + b)
  {
    var c := a[..|a| - 1];
    assert a == c + "-";
    NormalParts(u, c, "-");
    assert HyphenSplits(u, c, b);
  }

  /** Adjacent letters and digits are copied as they stand. */
  lemma {:induction false} SlugTextOfRun(u: Unicode, gs: seq<string>, j: nat)
    requires j <= |gs| && forall k :: j <= k < |gs| ==> Base(u, gs[k])
    ensures SlugText(u, gs) == SlugText(u, gs[..j]) + Concat(gs[j..])
    decreases |gs|
  {
    if j == |gs| {
      assert gs[..j] == gs && gs[j..] == [];
    } else {
      var front, g := gs[..|gs| - 1], gs[|gs| - 1];
      SlugTextOfRun(u, front, j);
      assert front[..j] == gs[..j] && gs[j..] == front[j..] + [g];
      ConcatSnoc(front[j..], g);
    }
  }

  /** Where the last run of letters and digits starts. */
  function RunStart(u: Unicode, gs: seq<string>): (j: nat)
    ensures j <= |gs|
    ensures forall k :: j <= k < |gs| ==> Base(u, gs[k])
    ensures j > 0 ==> !Base(u, gs[j - 1])
  {
    if gs == [] || !Base(u, gs[|gs| - 1]) then |gs| else RunStart(u, gs[..|gs| - 1])
  }

  lemma {:induction false} DashEnds(u: Unicode, gs: seq<string>)
    ensures SlugDraft(u, gs).dash ==> EndsWithDash(SlugText(u, gs))
  {
    if gs != [] {
      DashEnds(u, gs[..|gs| - 1]);
    }
  }

  /** Behind something else, the slug text is empty or ends in a hyphen. */
  lemma GapEndsWithDash(u: Unicode, gs: seq<string>)
    requires gs == [] || !Base(u, gs[|gs| - 1])
    ensures SlugText(u, gs) == [] || EndsWithDash(SlugText(u, gs))
  {
    DashEnds(u, gs);
    DraftDash(u, gs);
  }

  lemma SliceIsNormal(u: Unicode, gs: seq<string>, j: nat, i: nat)
    requires WellFormed(u) && Normal(u, Concat(gs)) && j <= i <= |gs|
    ensures Normal(u, Concat(gs[j..i]))
  {
    ConcatOfParts(gs, j, i);
    assert PartStaysNormal(u, Concat(gs[..j]), Concat(gs[j..i]), Concat(gs[i..]));
  }

  lemma ConcatSplit(gs: seq<string>, i: nat)
    requires i <= |gs|
    ensures Concat(gs) == Concat(gs[..i]) + Concat(gs[i..])
  {
    assert gs == gs[..i] + gs[i..];
    ConcatAppend(gs[..i], gs[i..]);
  }

  lemma ConcatOfParts(gs: seq<string>, j: nat, i: nat)
    requires j <= i <= |gs|
    ensures Concat(gs) == Concat(gs[..j]) + Concat(gs[j..i]) + Concat(gs[i..])
  {
    ConcatSplit(gs, i);
    ConcatSplit(gs[..i], j);
    assert gs[..i][..j] == gs[..j] && gs[..i][j..] == gs[j..i];
  }

  lemma {:induction false} SlugTextIsNormal(u: Unicode, gs: seq<string>, i: nat)
    requires WellFormed(u) && Normal(u, Concat(gs)) && i <= |gs|
    ensures Normal(u, SlugText(u, gs[..i]))
    decreases i
  {
    var prefix := gs[..i];
    if i == 0 {
      SliceIsNormal(u, gs, 0, 0);
      assert Concat(gs[0..0]) == [];
    } else if Base(u, gs[i - 1]) {
      var j := RunStart(u, prefix);
      assert prefix[..j] == gs[..j] && prefix[j..] == gs[j..i];
      SlugTextIsNormal(u, gs, j);
      SliceIsNormal(u, gs, j, i);
      SlugTextOfRun(u, prefix, j);
      GapEndsWithDash(u, gs[..j]);
      if SlugText(u, gs[..j]) == [] {
        assert [] + Concat(gs[j..i]) == Concat(gs[j..i]);
      } else {
        JoinedIsNormal(u, SlugText(u, gs[..j]), Concat(gs[j..i]));
      }
    } else {
      SlugTextIsNormal(u, gs, i - 1);
      DraftStep(u, gs, i - 1);
      HyphenAfterIsNormal(u, SlugText(u, gs[..i - 1]));
    }
  }

  lemma HyphenAfterIsNormal(u: Unicode, a: string)
    requires WellFormed(u) && Normal(u, a)
    ensures Normal(u, a + "-")
  {
    assert a + "" == a;
    NormalParts(u, a, "");
    assert HyphenSplits(u, a, "");
    assert a + "-" + "" == a + "-";
  }

  // What a generated slug consists of

  /** The clusters of a generated slug, before the fallback. */
  lemma SlugShape(u: Unicode, title: string) returns (fs: seq<string>)
    requires WellFormed(u)
    ensures SlugClusters(u, fs) && |Concat(fs)| <= MAX_SLUG_CHARS
    ensures !EndsWithDash(Concat(fs)) && Normal(u, Concat(fs))
    ensures Concat(fs) == Capped(u, SlugText(u, TitleClusters(u, title)))
    ensures BareHyphens(fs) <==> !StrayMark(u, TitleClusters(u, title))
  {
    var gs := TitleClusters(u, title);
    ClustersAreSegmented(u, u.normalize(title));
    assert gs[..|gs|] == gs;
    var cs := SlugTextShape(u, gs, |gs|);
    fs := CappedShape(u, cs);
    CappedIsNormal(u, title);
  }

  lemma CappedIsNormal(u: Unicode, title: string)
    requires WellFormed(u)
    ensures Normal(u, Capped(u, SlugText(u, TitleClusters(u, title))))
  {
    var gs := TitleClusters(u, title);
    assert gs[..|gs|] == gs;
    assert Normal(u, u.normalize(title));
    SlugTextIsNormal(u, gs, |gs|);
    var text := SlugText(u, gs);
    var capped := Capped(u, text);
    CappedIsPrefix(u, text);
    assert text == capped + text[|capped|..];
    NormalParts(u, capped, text[|capped|..]);
  }

  lemma EmptyText(u: Unicode, fs: seq<string>)
    requires SlugClusters(u, fs)
    ensures Concat(fs) == [] <==> fs == []
  {
    if fs != [] {
      ConcatLast(fs);
    }
  }

  // Validation

  /** What the validator returns, it returns unchanged. */
  lemma SlugDoor(u: Unicode, s: string, t: string)
    requires WellFormed(u) && ParseSlug(u, s) == Some(t)
    ensures ParseSlug(u, t) == Some(t)
  {
    assert Normal(u, u.normalize(s));
  }

  /** A letter or digit leads the cluster, or it is a bare hyphen that is not the first. */
  predicate SlugPiece(u: Unicode, gs: seq<string>, i: nat)
    requires i < |gs|
  {
    (gs[i] != [] && u.alphanumeric(gs[i][0])) || (i > 0 && gs[i] == "-")
  }

  /**
   However the normalized text falls into clusters, it is accepted exactly when it is not empty,
   within the cap, and each cluster is a letter's or digit's or a bare hyphen behind the first.
   */
  lemma SlugIsExact(u: Unicode, s: string, gs: seq<string>)
    requires Segmented(u, gs) && Concat(gs) == u.normalize(s)
    ensures ParseSlug(u, s) ==
            if gs != [] && |u.normalize(s)| <= 80 && forall i :: 0 <= i < |gs| ==> SlugPiece(u, gs, i)
            then Some(u.normalize(s)) else None
  {
    SegmentedIsClusters(u, gs);
    if gs != [] && !Base(u, gs[0]) {
      assert !SlugPiece(u, gs, 0);
    }
    if i :| 1 <= i < |gs| && gs[i] != "-" && !Base(u, gs[i]) {
      assert !SlugPiece(u, gs, i);
    }
  }

  lemma ParseOfClusters(u: Unicode, fs: seq<string>)
    requires WellFormed(u) && SlugClusters(u, fs) && fs != []
    requires |Concat(fs)| <= MAX_SLUG_CHARS && Normal(u, Concat(fs))
    ensures ParseSlug(u, Concat(fs)) == if BareHyphens(fs) then Some(Concat(fs)) else None
  {
    SlugClustersAreSegmented(u, fs);
    SegmentedIsClusters(u, fs);
    BareHyphensAt(fs);
    forall i | 0 <= i < |fs|
      ensures i == 0 ==> Base(u, fs[i])
      ensures MarkedHyphen(fs[i]) <==> fs[i] != "-" && !Base(u, fs[i])
    {
      SlugClustersAt(u, fs, i);
    }
  }

  /** A text of letters stands in the clusters of letters. */
  lemma {:induction false} LetterClusters(u: Unicode, gs: seq<string>)
    requires WellFormed(u) && Segmented(u, gs) && forall c :: c in Concat(gs) ==> u.alphanumeric(c)
    ensures SlugClusters(u, gs) && BareHyphens(gs)
  {
    if gs != [] {
      var front, g := gs[..|gs| - 1], gs[|gs| - 1];
      ConcatLast(gs);
      assert forall c :: c in Concat(front) ==> c in Concat(gs);
      assert g[0] in Concat(gs);
      LetterClusters(u, front);
    }
  }

  /** The fallback, like any slug without a stray mark. */
  lemma PostShape(u: Unicode) returns (fs: seq<string>)
    requires WellFormed(u)
    ensures SlugClusters(u, fs) && BareHyphens(fs) && Concat(fs) == "post" && Normal(u, "post")
  {
    fs := Clusters(u, "post");
    ClustersAreSegmented(u, "post");
    forall c | c in "post"
      ensures u.alphanumeric(c)
    {
      assert IsPostLetter(u, c);
    }
    LetterClusters(u, fs);
  }

  /** The clusters of a generated slug, fallback included. */
  lemma GeneratedShape(u: Unicode, title: string) returns (fs: seq<string>)
    requires WellFormed(u)
    ensures SlugClusters(u, fs) && fs != [] && |Concat(fs)| <= MAX_SLUG_CHARS
    ensures !EndsWithDash(Concat(fs)) && Normal(u, Concat(fs))
    ensures Slugify(u, title) == Concat(fs)
    ensures BareHyphens(fs) <==> !StrayMark(u, TitleClusters(u, title))
  {
    fs := SlugShape(u, title);
    EmptyText(u, fs);
    if fs == [] {
      fs := PostShape(u);
      EmptyText(u, fs);
    }
  }

  /**
   The validator accepts a generated slug, unchanged, exactly when the title has no stray
   mark: a letter or digit that the hyphen before it takes in, while nothing takes in that
   hyphen, turns it into a cluster that is neither a hyphen nor a letter's.
   */
  lemma ValidatorAcceptsGenerated(u: Unicode, title: string)
    requires WellFormed(u)
    ensures ParseSlug(u, Slugify(u, title)) ==
            if StrayMark(u, TitleClusters(u, title)) then None else Some(Slugify(u, title))
  {
    var fs := GeneratedShape(u, title);
    ParseOfClusters(u, fs);
  }

  /** Titles in which no letter or digit starts with something a hyphen takes in are safe. */
  lemma {:induction false} SafeTitles(u: Unicode, gs: seq<string>)
    requires forall i :: 0 <= i < |gs| && Base(u, gs[i]) ==> !LedByMark(u, gs[i])
    ensures !StrayMark(u, gs)
  {
    if gs != [] {
      SafeTitles(u, gs[..|gs| - 1]);
    }
  }

  // Generating from a slug

  lemma {:induction false} SlugTextOfSlug(u: Unicode, fs: seq<string>)
    requires WellFormed(u) && SlugClusters(u, fs) && BareHyphens(fs)
    ensures SlugText(u, fs) == Concat(fs)
    ensures SlugDraft(u, fs).dash <==> fs != [] && fs[|fs| - 1] == "-"
  {
    if fs != [] {
      SlugTextOfSlug(u, fs[..|fs| - 1]);
      EmptyText(u, fs[..|fs| - 1]);
      ConcatLast(fs);
    }
  }

  /** Every dropped cluster gives way to at most one hyphen. */
  lemma {:induction false} SlugTextShrinks(u: Unicode, fs: seq<string>)
    requires SlugClusters(u, fs) && !u.alphanumeric('-')
    ensures |SlugText(u, fs)| <= |Concat(fs)|
    ensures !BareHyphens(fs) ==> |SlugText(u, fs)| < |Concat(fs)|
  {
    if fs != [] {
      SlugTextShrinks(u, fs[..|fs| - 1]);
      ConcatLast(fs);
    }
  }

  lemma ShortTextIsKept(u: Unicode, s: string)
    requires |s| <= MAX_SLUG_CHARS && !EndsWithDash(s)
    ensures Capped(u, s) == s
  {
    var gs := Clusters(u, s);
    FittingIsLongest(gs, MAX_SLUG_CHARS, ScalarCount);
    ScalarCost(gs);
    assert gs[..|gs|] == gs;
  }

  lemma RegeneratedText(u: Unicode, fs: seq<string>)
    requires SlugClusters(u, fs) && Normal(u, Concat(fs))
    ensures TitleClusters(u, Concat(fs)) == fs
  {
    SlugClustersAreSegmented(u, fs);
    SegmentedIsClusters(u, fs);
  }

  lemma MarkedHasHyphen(u: Unicode, fs: seq<string>)
    requires SlugClusters(u, fs) && !BareHyphens(fs)
    ensures '-' in Concat(fs)
  {
    ConcatLast(fs);
    if !MarkedHyphen(fs[|fs| - 1]) {
      MarkedHasHyphen(u, fs[..|fs| - 1]);
    } else {
      assert Concat(fs)[|Concat(fs[..|fs| - 1])|] == '-';
    }
  }

  /** Generating again changes nothing exactly when the title has no stray mark. */
  lemma GeneratorIsIdempotent(u: Unicode, title: string)
    requires WellFormed(u)
    ensures Slugify(u, Slugify(u, title)) == Slugify(u, title) <==> !StrayMark(u, TitleClusters(u, title))
  {
    var fs := GeneratedShape(u, title);
    var r := Concat(fs);
    RegeneratedText(u, fs);
    if BareHyphens(fs) {
      SlugTextOfSlug(u, fs);
      ShortTextIsKept(u, r);
      EmptyText(u, fs);
    } else {
      SlugTextShrinks(u, fs);
      CappedIsPrefix(u, SlugText(u, fs));
      MarkedHasHyphen(u, fs);
      assert '-' !in "post";
    }
  }
}
