/**
 Slug generation and slug validation (`common/src/slug.rs`), two separate walks over
 grapheme clusters: exactly when the validator accepts what the generator makes, when the
 result is tidy, and when generating again changes nothing.
 */
module Slug {
  import opened Wrappers
  import opened Text
  import opened Graphemes

  const MAX_SLUG_CHARS := 80

  // What is assumed of Unicode

  /** The scalars before a hyphen have no say in what a cluster takes in after it. */
  predicate HyphenForgets(u: Unicode, before: string, after: string, c: char) {
    u.takesIn(before + "-" + after, c) == u.takesIn(if after == "" then "-" else after, c)
  }

  /** A hyphen takes in the first scalar of the cluster. */
  predicate LedByMark(u: Unicode, g: string) {
    g != [] && u.takesIn("-", g[0])
  }

  /** A cluster led by a mark takes in marks only. */
  predicate NoHyphenAfterMark(u: Unicode, g: string) {
    IsCluster(u, g) && LedByMark(u, g) ==> !u.takesIn(g, '-')
  }

  predicate Normal(u: Unicode, s: string) {
    u.normalize(s) == s
  }

  predicate PartStaysNormal(u: Unicode, a: string, b: string, c: string) {
    Normal(u, a + b + c) ==> Normal(u, b)
  }

  /** Nothing composes or changes case across a hyphen. */
  predicate HyphenSplits(u: Unicode, a: string, b: string) {
    u.normalize(a + "-" + b) == u.normalize(a) + "-" + u.normalize(b)
  }

  predicate IsPostLetter(u: Unicode, c: char) {
    c in "post" ==> u.alphanumeric(c)
  }

  /**
   A hyphen is no letter and takes in no hyphen; normalization (lowercasing, then NFC) is
   idempotent, keeps normal what is part of a normal text, and works on both sides of a hyphen
   separately; the fallback is made of letters and is normal.
   */
  ghost predicate WellFormed(u: Unicode) {
    && !u.alphanumeric('-') && !u.takesIn("-", '-')
    && (forall before, after, c :: HyphenForgets(u, before, after, c))
    && (forall g :: NoHyphenAfterMark(u, g))
    && (forall s :: Normal(u, u.normalize(s)))
    && (forall a, b, c :: PartStaysNormal(u, a, b, c))
    && (forall a, b :: HyphenSplits(u, a, b))
    && (forall c :: IsPostLetter(u, c))
    && Normal(u, "post")
  }

  // Validation and generation

  /** The base of the cluster is a letter or digit. */
  predicate Base(u: Unicode, g: string) {
    g != [] && u.alphanumeric(g[0])
  }

  /** `Slug::from_str` */
  function ParseSlug(u: Unicode, s: string): Option<string> {
    var normalized := u.normalize(s);
    var gs := Clusters(u, normalized);
    if |normalized| > MAX_SLUG_CHARS then None
    else if gs == [] || !Base(u, gs[0]) then None
    else if exists i :: 1 <= i < |gs| && gs[i] != "-" && !Base(u, gs[i]) then None
    else Some(normalized)
  }

  /** The slug text so far, and whether its last hyphen was just added. */
  datatype Draft = Draft(text: string, dash: bool)

  /** Letters and digits with what their clusters take in; one hyphen for each run of anything else between them. */
  function SlugDraft(u: Unicode, gs: seq<string>): Draft {
    if gs == [] then Draft([], false)
    else
      var d := SlugDraft(u, gs[..|gs| - 1]);
      var g := gs[|gs| - 1];
      if Base(u, g) then Draft(d.text + g, false)
      else if d.text != [] && !d.dash then Draft(d.text + "-", true)
      else d
  }

  function SlugText(u: Unicode, gs: seq<string>): string {
    SlugDraft(u, gs).text
  }

  function Capped(u: Unicode, slug: string): string {
    TrimDashes(Truncated(u, TrimDashes(slug), MAX_SLUG_CHARS, ScalarCount))
  }

  /** The clusters of the normalized title. */
  function TitleClusters(u: Unicode, title: string): seq<string> {
    Clusters(u, u.normalize(title))
  }

  function Slugify(u: Unicode, title: string): string {
    var capped := Capped(u, SlugText(u, TitleClusters(u, title)));
    if capped == [] then "post" else capped
  }

  lemma DraftStep(u: Unicode, gs: seq<string>, i: nat)
    requires i < |gs|
    ensures var d := SlugDraft(u, gs[..i]);
            SlugDraft(u, gs[..i + 1]) ==
            if Base(u, gs[i]) then Draft(d.text + gs[i], false)
            else if d.text != [] && !d.dash then Draft(d.text + "-", true)
            else d
  {
    assert gs[..i + 1][..i] == gs[..i];
  }

  method SlugifyTitle(u: Unicode, title: string) returns (r: string)
    ensures r == Slugify(u, title)
  {
    var gs := Clusters(u, u.normalize(title));
    var slug := [];
    var previousWasDash := false;
    var i := 0;
    while i < |gs|
      invariant 0 <= i <= |gs|
      invariant SlugDraft(u, gs[..i]) == Draft(slug, previousWasDash)
    {
      DraftStep(u, gs, i);
      if Base(u, gs[i]) {
        slug := slug + gs[i];
        previousWasDash := false;
      } else if slug != [] && !previousWasDash {
        slug := slug + "-";
        previousWasDash := true;
      }
      i := i + 1;
    }
    assert gs[..i] == gs;
    var trimmed := TrimDashes(slug);
    var capped := TruncateByGraphemes(u, trimmed, MAX_SLUG_CHARS, ScalarCount);
    capped := TrimDashes(capped);
    r := if capped == [] then "post" else capped;
  }

  // The clusters of a slug text

  /** A hyphen with marks on it. */
  predicate MarkedHyphen(g: string) {
    |g| > 1 && g[0] == '-' && '-' !in g[1..]
  }

  predicate SlugCluster(u: Unicode, g: string) {
    IsCluster(u, g) && (Base(u, g) || g == "-" || MarkedHyphen(g))
  }

  /** The first cluster is a letter's or digit's, and no two bare hyphens meet. */
  predicate MayFollow(u: Unicode, before: seq<string>, g: string) {
    if before == [] then Base(u, g) else g == "-" ==> before[|before| - 1] != "-"
  }

  predicate SlugClusters(u: Unicode, cs: seq<string>) {
    cs == [] ||
    var front, g := cs[..|cs| - 1], cs[|cs| - 1];
    SlugClusters(u, front) && SlugCluster(u, g) && Apart(u, front, g) && MayFollow(u, front, g)
  }

  predicate BareHyphens(cs: seq<string>) {
    cs == [] || (BareHyphens(cs[..|cs| - 1]) && !MarkedHyphen(cs[|cs| - 1]))
  }

  /** Some hyphen that carries marks ends within the cap. */
  predicate MarkedWithin(cs: seq<string>) {
    cs != [] &&
    (MarkedWithin(cs[..|cs| - 1]) || (MarkedHyphen(cs[|cs| - 1]) && |Concat(cs)| <= MAX_SLUG_CHARS))
  }

  /** The last cluster of a letter or digit. */
  function LastBase(u: Unicode, gs: seq<string>): string {
    if gs == [] then []
    else if Base(u, gs[|gs| - 1]) then gs[|gs| - 1]
    else LastBase(u, gs[..|gs| - 1])
  }

  /**
   Some cluster of the title is a letter or digit that a hyphen takes in, behind a hyphen that
   the letter or digit before it does not take in, and it ends within the cap.
   */
  predicate StrayMark(u: Unicode, gs: seq<string>) {
    gs != [] &&
    var front, g := gs[..|gs| - 1], gs[|gs| - 1];
    || StrayMark(u, front)
    || (Base(u, g) && LedByMark(u, g) && SlugDraft(u, front).dash && !u.takesIn(LastBase(u, front), '-')
        && |SlugText(u, gs)| <= MAX_SLUG_CHARS)
  }

  lemma {:induction false} SlugClustersAreSegmented(u: Unicode, cs: seq<string>)
    requires SlugClusters(u, cs)
    ensures Segmented(u, cs)
  {
    if cs != [] {
      SlugClustersAreSegmented(u, cs[..|cs| - 1]);
    }
  }

  lemma SlugClustersSnoc(u: Unicode, cs: seq<string>, g: string)
    requires SlugClusters(u, cs) && SlugCluster(u, g) && Apart(u, cs, g) && MayFollow(u, cs, g)
    ensures SlugClusters(u, cs + [g]) && Concat(cs + [g]) == Concat(cs) + g
    ensures MarkedWithin(cs + [g]) <==> MarkedWithin(cs) || (MarkedHyphen(g) && |Concat(cs + [g])| <= MAX_SLUG_CHARS)
    ensures BareHyphens(cs + [g]) <==> BareHyphens(cs) && !MarkedHyphen(g)
  {
    assert (cs + [g])[..|cs|] == cs;
    ConcatSnoc(cs, g);
  }

  /** The last cluster can be exchanged for another that starts alike. */
  lemma SlugClustersSwap(u: Unicode, cs: seq<string>, g: string)
    requires SlugClusters(u, cs) && cs != [] && SlugCluster(u, g)
    requires var c := cs[|cs| - 1];
             g[0] == c[0] && (g == "-" ==> c == "-")
    ensures var front := cs[..|cs| - 1];
            SlugClusters(u, front) && Apart(u, front, g) && MayFollow(u, front, g)
  {
  }

  lemma {:induction false} SlugClustersPrefix(u: Unicode, cs: seq<string>, n: nat)
    requires SlugClusters(u, cs) && n <= |cs|
    ensures SlugClusters(u, cs[..n])
  {
    if n == |cs| {
      assert cs[..n] == cs;
    } else {
      SlugClustersPrefix(u, cs[..|cs| - 1], n);
      assert cs[..|cs| - 1][..n] == cs[..n];
    }
  }

  lemma SlugClustersAt(u: Unicode, cs: seq<string>, i: nat)
    requires SlugClusters(u, cs) && i < |cs|
    ensures SlugCluster(u, cs[i]) && MayFollow(u, cs[..i], cs[i])
  {
    SlugClustersPrefix(u, cs, i + 1);
    assert cs[..i + 1][..i] == cs[..i];
  }

  lemma {:induction false} BareHyphensAt(cs: seq<string>)
    ensures BareHyphens(cs) <==> forall i :: 0 <= i < |cs| ==> !MarkedHyphen(cs[i])
  {
    if cs != [] {
      var front := cs[..|cs| - 1];
      BareHyphensAt(front);
      assert forall i :: 0 <= i < |front| ==> front[i] == cs[i];
    }
  }

  /** The last cluster ends with the last piece of the text, behind a hyphen if it holds more. */
  predicate EndsInPiece(u: Unicode, c: string, p: string) {
    || c == p
    || (|p| < |c| && c[|c| - |p|..] == p && c[|c| - |p| - 1] == '-' && LedByMark(u, p))
  }

  /** What the last cluster of the text is made of. */
  ghost predicate LastCluster(u: Unicode, gs: seq<string>, c: string)
    requires c != []
  {
    if SlugDraft(u, gs).dash then
      && c[|c| - 1] == '-' && (c == "-" || Base(u, c))
      && (c == "-" <==> !u.takesIn(LastBase(u, gs), '-'))
    else
      EndsInPiece(u, c, LastBase(u, gs))
  }

  /** `cs` is how the slug text of `gs` falls into clusters. */
  ghost predicate Resegmented(u: Unicode, gs: seq<string>, cs: seq<string>) {
    && SlugClusters(u, cs) && Concat(cs) == SlugText(u, gs)
    && (cs == [] <==> SlugText(u, gs) == [])
    && (cs != [] ==> cs[|cs| - 1] != [] && LastCluster(u, gs, cs[|cs| - 1]))
    && (MarkedWithin(cs) <==> StrayMark(u, gs))
  }

  lemma DraftDash(u: Unicode, gs: seq<string>)
    ensures var d := SlugDraft(u, gs);
            && (d.dash ==> d.text != [])
            && (!d.dash && d.text != [] ==> gs != [] && Base(u, gs[|gs| - 1]) && LastBase(u, gs) == gs[|gs| - 1])
  {
  }

  lemma ForgetfulHyphen(u: Unicode, c: string, p: string, x: char)
    requires WellFormed(u) && p != [] && EndsInPiece(u, c, p)
    ensures u.takesIn(c, x) == u.takesIn(p, x)
  {
    if c != p {
      var before := c[..|c| - |p| - 1];
      assert c == before + "-" + p;
      assert HyphenForgets(u, before, p, x);
    }
  }

  lemma TrailingHyphen(u: Unicode, c: string, x: char)
    requires WellFormed(u) && c != [] && c[|c| - 1] == '-'
    ensures u.takesIn(c, x) == u.takesIn("-", x)
  {
    var before := c[..|c| - 1];
    assert c == before + "-" + "";
    assert HyphenForgets(u, before, "", x);
  }

  /** A cluster led by a mark holds no hyphen. */
  lemma MarkLedHasNoHyphen(u: Unicode, g: string)
    requires WellFormed(u) && IsCluster(u, g) && LedByMark(u, g)
    ensures '-' !in g
  {
    forall k | 0 <= k < |g|
      ensures g[k] != '-'
    {
      if k > 0 {
        PrefixIsCluster(u, g, k);
        assert NoHyphenAfterMark(u, g[..k]);
      }
    }
  }

  lemma PrefixIsCluster(u: Unicode, g: string, k: nat)
    requires IsCluster(u, g) && 0 < k <= |g|
    ensures IsCluster(u, g[..k])
  {
    forall i | 1 <= i < k
      ensures u.takesIn(g[..k][..i], g[..k][i])
    {
      assert g[..k][..i] == g[..i];
    }
  }

  /** A cluster that ends in a hyphen grows by a cluster whose first scalar a hyphen takes in. */
  lemma GrownByMarks(u: Unicode, c: string, g: string)
    requires WellFormed(u) && IsCluster(u, c) && c[|c| - 1] == '-' && IsCluster(u, g) && LedByMark(u, g)
    ensures IsCluster(u, c + g)
  {
    var t := c + g;
    forall i | 1 <= i < |t|
      ensures u.takesIn(t[..i], t[i])
    {
      if i < |c| {
        assert t[..i] == c[..i];
      } else if i == |c| {
        assert t[..i] == c;
        TrailingHyphen(u, c, g[0]);
      } else {
        var before, after := c[..|c| - 1], g[..i - |c|];
        assert t[..i] == before + "-" + after;
        assert HyphenForgets(u, before, after, t[i]);
      }
    }
  }

  lemma GrownByHyphen(u: Unicode, c: string)
    requires IsCluster(u, c) && u.takesIn(c, '-')
    ensures IsCluster(u, c + "-")
  {
    var t := c + "-";
    forall i | 1 <= i < |t|
      ensures u.takesIn(t[..i], t[i])
    {
      assert t[..i] == c[..i];
      assert i == |c| ==> c[..i] == c;
    }
  }

  // One more cluster of the title

  /** The last cluster takes in more text. */
  lemma LastGrows(u: Unicode, prev: seq<string>, more: string)
    requires SlugClusters(u, prev) && prev != [] && more != [] && SlugCluster(u, prev[|prev| - 1] + more)
    ensures var front, c := prev[..|prev| - 1], prev[|prev| - 1];
            var cs := front + [c + more];
            && SlugClusters(u, cs) && Concat(cs) == Concat(prev) + more
            && (MarkedWithin(cs) <==> MarkedWithin(front) || (MarkedHyphen(c + more) && |Concat(cs)| <= MAX_SLUG_CHARS))
  {
    var front, c := prev[..|prev| - 1], prev[|prev| - 1];
    SlugClustersSwap(u, prev, c + more);
    SlugClustersSnoc(u, front, c + more);
    ConcatOfGrown(prev, more);
  }

  lemma ConcatOfGrown(prev: seq<string>, more: string)
    requires prev != []
    ensures Concat(prev[..|prev| - 1]) + (prev[|prev| - 1] + more) == Concat(prev) + more
  {
    ConcatLast(prev);
    Regrouped(Concat(prev[..|prev| - 1]), prev[|prev| - 1], more);
  }

  lemma Regrouped(a: string, b: string, c: string)
    ensures a + b + c == a + (b + c)
  {
  }

  /** The first letter or digit. */
  lemma FirstPiece(u: Unicode, gs: seq<string>, i: nat) returns (cs: seq<string>)
    requires WellFormed(u) && Segmented(u, gs) && i < |gs| && Resegmented(u, gs[..i], [])
    requires Base(u, gs[i])
    ensures Resegmented(u, gs[..i + 1], cs)
  {
    DraftStep(u, gs, i);
    StraySteps(u, gs, i);
    DraftDash(u, gs[..i]);
    SegmentedAt(u, gs, i);
    SlugClustersSnoc(u, [], gs[i]);
    cs := [] + [gs[i]];
    assert cs[|cs| - 1] == gs[i];
  }

  lemma StraySteps(u: Unicode, gs: seq<string>, i: nat)
    requires i < |gs|
    ensures StrayMark(u, gs[..i + 1]) <==>
            || StrayMark(u, gs[..i])
            || (Base(u, gs[i]) && LedByMark(u, gs[i]) && SlugDraft(u, gs[..i]).dash
                && !u.takesIn(LastBase(u, gs[..i]), '-') && |SlugText(u, gs[..i + 1])| <= MAX_SLUG_CHARS)
    ensures LastBase(u, gs[..i + 1]) == if Base(u, gs[i]) then gs[i] else LastBase(u, gs[..i])
  {
    assert gs[..i + 1][..i] == gs[..i];
  }

  /** A letter or digit right behind another. */
  lemma AdjacentPiece(u: Unicode, gs: seq<string>, i: nat, prev: seq<string>) returns (cs: seq<string>)
    requires WellFormed(u) && Segmented(u, gs) && i < |gs| && Resegmented(u, gs[..i], prev) && prev != []
    requires Base(u, gs[i]) && !SlugDraft(u, gs[..i]).dash
    ensures Resegmented(u, gs[..i + 1], cs)
  {
    var g, c := gs[i], prev[|prev| - 1];
    DraftStep(u, gs, i);
    StraySteps(u, gs, i);
    DraftDash(u, gs[..i]);
    SegmentedAt(u, gs, i);
    ForgetfulHyphen(u, c, LastBase(u, gs[..i]), g[0]);
    SlugClustersSnoc(u, prev, g);
    cs := prev + [g];
  }

  /** A letter or digit behind a hyphen that does not take it in. */
  lemma SeparatePiece(u: Unicode, gs: seq<string>, i: nat, prev: seq<string>) returns (cs: seq<string>)
    requires WellFormed(u) && Segmented(u, gs) && i < |gs| && Resegmented(u, gs[..i], prev) && prev != []
    requires Base(u, gs[i]) && SlugDraft(u, gs[..i]).dash && !LedByMark(u, gs[i])
    ensures Resegmented(u, gs[..i + 1], cs)
  {
    var g, c := gs[i], prev[|prev| - 1];
    DraftStep(u, gs, i);
    StraySteps(u, gs, i);
    SegmentedAt(u, gs, i);
    TrailingHyphen(u, c, g[0]);
    SlugClustersSnoc(u, prev, g);
    cs := prev + [g];
  }

  /** A letter or digit that the hyphen before it takes in. */
  lemma AttachedPiece(u: Unicode, gs: seq<string>, i: nat, prev: seq<string>) returns (cs: seq<string>)
    requires WellFormed(u) && Segmented(u, gs) && i < |gs| && Resegmented(u, gs[..i], prev) && prev != []
    requires Base(u, gs[i]) && SlugDraft(u, gs[..i]).dash && LedByMark(u, gs[i])
    ensures Resegmented(u, gs[..i + 1], cs)
  {
    DraftStep(u, gs, i);
    StraySteps(u, gs, i);
    SegmentedAt(u, gs, i);
    cs := MarksTakenIn(u, prev, gs[i]);
  }

  lemma MarksTakenIn(u: Unicode, prev: seq<string>, g: string) returns (cs: seq<string>)
    requires WellFormed(u) && SlugClusters(u, prev) && prev != [] && IsCluster(u, g) && LedByMark(u, g)
    requires var c := prev[|prev| - 1];
             c[|c| - 1] == '-' && (c == "-" || Base(u, c))
    ensures SlugClusters(u, cs) && cs != [] && Concat(cs) == Concat(prev) + g
    ensures cs == prev[..|prev| - 1] + [prev[|prev| - 1] + g] && EndsInPiece(u, cs[|cs| - 1], g)
    ensures MarkedWithin(cs) <==> MarkedWithin(prev) || (prev[|prev| - 1] == "-" && |Concat(cs)| <= MAX_SLUG_CHARS)
  {
    var c := prev[|prev| - 1];
    MarkLedHasNoHyphen(u, g);
    GrownByMarks(u, c, g);
    AttachedShape(u, c, g);
    LastGrows(u, prev, g);
    cs := prev[..|prev| - 1] + [c + g];
  }

  lemma AttachedShape(u: Unicode, c: string, g: string)
    requires IsCluster(u, c + g) && c != [] && c[|c| - 1] == '-' && (c == "-" || Base(u, c))
    requires g != [] && '-' !in g && !u.alphanumeric('-') && LedByMark(u, g)
    ensures SlugCluster(u, c + g) && EndsInPiece(u, c + g, g)
    ensures MarkedHyphen(c + g) <==> c == "-"
  {
    var t := c + g;
    assert t[|t| - |g|..] == g && t[|t| - |g| - 1] == '-';
    assert c == "-" ==> t[1..] == g;
  }

  /** Something else behind a letter or digit: a hyphen, which that may take in. */
  lemma OneHyphen(u: Unicode, gs: seq<string>, i: nat, prev: seq<string>) returns (cs: seq<string>)
    requires WellFormed(u) && Segmented(u, gs) && i < |gs| && Resegmented(u, gs[..i], prev) && prev != []
    requires !Base(u, gs[i]) && !SlugDraft(u, gs[..i]).dash
    ensures Resegmented(u, gs[..i + 1], cs)
  {
    var c, p := prev[|prev| - 1], LastBase(u, gs[..i]);
    DraftStep(u, gs, i);
    StraySteps(u, gs, i);
    DraftDash(u, gs[..i]);
    SegmentedAt(u, gs, i - 1);
    assert p == gs[i - 1];
    ForgetfulHyphen(u, c, p, '-');
    if u.takesIn(p, '-') {
      cs := HyphenTakenIn(u, prev, p);
    } else {
      assert c != "-";
      SlugClustersSnoc(u, prev, "-");
      cs := prev + ["-"];
    }
  }

  lemma HyphenTakenIn(u: Unicode, prev: seq<string>, p: string) returns (cs: seq<string>)
    requires WellFormed(u) && SlugClusters(u, prev) && prev != []
    requires var c := prev[|prev| - 1];
             Base(u, p) && IsCluster(u, p) && EndsInPiece(u, c, p) && u.takesIn(p, '-') && u.takesIn(c, '-')
    ensures SlugClusters(u, cs) && cs != [] && Concat(cs) == Concat(prev) + "-"
    ensures cs == prev[..|prev| - 1] + [prev[|prev| - 1] + "-"]
    ensures var last := cs[|cs| - 1];
            Base(u, last) && last[|last| - 1] == '-' && last != "-"
    ensures MarkedWithin(cs) <==> MarkedWithin(prev)
  {
    var c := prev[|prev| - 1];
    assert NoHyphenAfterMark(u, p);
    assert c == p;
    GrownByHyphen(u, c);
    LastGrows(u, prev, "-");
    cs := prev[..|prev| - 1] + [c + "-"];
  }

  /** Something else in front, or behind a hyphen: nothing is added. */
  lemma NothingAdded(u: Unicode, gs: seq<string>, i: nat, prev: seq<string>)
    requires i < |gs| && Resegmented(u, gs[..i], prev)
    requires !Base(u, gs[i]) && (prev == [] || SlugDraft(u, gs[..i]).dash)
    ensures Resegmented(u, gs[..i + 1], prev)
  {
    DraftStep(u, gs, i);
    StraySteps(u, gs, i);
  }

  /** How the slug text of the first `i` clusters falls into clusters. */
  lemma {:induction false} SlugTextShape(u: Unicode, gs: seq<string>, i: nat) returns (cs: seq<string>)
    requires WellFormed(u) && Segmented(u, gs) && i <= |gs|
    ensures Resegmented(u, gs[..i], cs)
  {
    if i == 0 {
      cs := [];
    } else {
      var prev := SlugTextShape(u, gs, i - 1);
      var dash := SlugDraft(u, gs[..i - 1]).dash;
      if !Base(u, gs[i - 1]) {
        if prev == [] || dash {
          NothingAdded(u, gs, i - 1, prev);
          cs := prev;
        } else {
          cs := OneHyphen(u, gs, i - 1, prev);
        }
      } else if prev == [] {
        cs := FirstPiece(u, gs, i - 1);
      } else if !dash {
        cs := AdjacentPiece(u, gs, i - 1, prev);
      } else if LedByMark(u, gs[i - 1]) {
        cs := AttachedPiece(u, gs, i - 1, prev);
      } else {
        cs := SeparatePiece(u, gs, i - 1, prev);
      }
    }
  }
}
