/**
 A table cut out of Unicode that meets every assumption made in `Slug`, and titles on which
 generation and validation (`common/src/slug.rs`) do not do what their documentation says.

 The table knows ASCII letters, a prepended letter (U+0D4E), an alphabetic combining mark
 (U+093F), control scalars, and Hangul: a leading consonant and a vowel, which join, and the
 syllable they compose to.
 */
module SlugSamples {
  import opened Wrappers
  import opened Text
  import opened Graphemes
  import opened Slug
  import opened SlugLaws
  import opened SlugHyphens

  const REPH := '\U{D4E}'
  const SIGN := '\U{93F}'
  const KIYEOK := '\U{1100}'
  const A := '\U{1161}'
  const GA := '\U{AC00}'

  predicate Letter(c: char) {
    'a' <= c <= 'z' || c == REPH || c == SIGN || c == KIYEOK || c == A || c == GA
  }

  predicate JoinsInSyllable(a: char, b: char) {
    (a == KIYEOK && (b == KIYEOK || b == A || b == GA)) || ((a == GA || a == A) && b == A)
  }

  predicate Joins(a: char, b: char) {
    && a >= ' ' && b >= ' '
    && (b == SIGN || a == REPH || JoinsInSyllable(a, b))
  }

  predicate TakesIn(g: string, c: char) {
    g != [] && Joins(g[|g| - 1], c)
  }

  /** Composition of a leading consonant and a vowel. */
  function Compose(s: string): string {
    if s == [] then []
    else if |s| > 1 && s[0] == KIYEOK && s[1] == A then [GA] + Compose(s[2..])
    else [s[0]] + Compose(s[1..])
  }

  function Sample(): Unicode {
    Unicode(c => Letter(c), (g, c) => TakesIn(g, c), s => Compose(s))
  }

  // The table meets the assumptions

  predicate Composed(s: string) {
    forall i :: 0 <= i < |s| - 1 && s[i] == KIYEOK ==> s[i + 1] != A
  }

  lemma {:induction false} ComposedIsFixed(s: string)
    ensures |Compose(s)| <= |s|
    ensures Compose(s) == s <==> Composed(s)
    ensures !Composed(s) ==> |Compose(s)| < |s|
  {
    if s != [] {
      if |s| > 1 && s[0] == KIYEOK && s[1] == A {
        ComposedIsFixed(s[2..]);
      } else {
        ComposedIsFixed(s[1..]);
        assert forall i :: 1 <= i < |s| ==> s[i] == s[1..][i - 1];
        assert Composed(s) <==> Composed(s[1..]) by {
          if Composed(s[1..]) {
            forall i | 0 <= i < |s| - 1 && s[i] == KIYEOK
              ensures s[i + 1] != A
            {
              assert i > 0 ==> s[1..][i - 1] == KIYEOK && s[1..][i] == s[i + 1];
            }
          } else {
            var i :| 0 <= i < |s[1..]| - 1 && s[1..][i] == KIYEOK && s[1..][i + 1] == A;
            assert s[i + 1] == KIYEOK && s[i + 1 + 1] == A;
          }
        }
      }
    }
  }

  lemma {:induction false} ComposeComposes(s: string)
    ensures Composed(Compose(s))
    ensures Compose(s) != [] <==> s != []
    ensures s != [] && Compose(s)[0] == A ==> s[0] == A
  {
    if s != [] {
      if |s| > 1 && s[0] == KIYEOK && s[1] == A {
        ComposeComposes(s[2..]);
      } else {
        ComposeComposes(s[1..]);
      }
    }
  }

  lemma {:induction false} ComposeSplits(a: string, b: string)
    ensures Compose(a + "-" + b) == Compose(a) + "-" + Compose(b)
  {
    var s := a + "-" + b;
    if a == [] {
      assert s == ['-'] + b && s[1..] == b;
    } else if |a| > 1 && a[0] == KIYEOK && a[1] == A {
      assert s[2..] == a[2..] + "-" + b;
      ComposeSplits(a[2..], b);
    } else {
      assert s[1..] == a[1..] + "-" + b;
      ComposeSplits(a[1..], b);
    }
  }

  lemma PartIsComposed(a: string, b: string, c: string)
    ensures Composed(a + b + c) ==> Composed(b)
  {
    var s := a + b + c;
    assert forall i :: 0 <= i < |b| ==> b[i] == s[|a| + i];
    if Composed(s) {
      forall i | 0 <= i < |b| - 1 && b[i] == KIYEOK
        ensures b[i + 1] != A
      {
        assert s[|a| + i] == KIYEOK && s[|a| + i + 1] == b[i + 1];
      }
    }
  }

  /** A cluster led by a mark is made of marks. */
  lemma {:induction false} MarksFollowMark(g: string, k: nat)
    requires IsCluster(Sample(), g) && LedByMark(Sample(), g) && k < |g|
    ensures g[k] == SIGN
  {
    if k > 0 {
      MarksFollowMark(g, k - 1);
      assert Sample().takesIn(g[..k], g[k]);
    }
  }

  lemma HyphenForgetsHere(before: string, after: string, c: char)
    ensures HyphenForgets(Sample(), before, after, c)
  {
    var t := before + "-" + after;
    assert t[|t| - 1] == if after == "" then '-' else after[|after| - 1];
  }

  lemma SampleSegments()
    ensures forall before, after, c :: HyphenForgets(Sample(), before, after, c)
    ensures forall g :: NoHyphenAfterMark(Sample(), g)
  {
    forall before, after, c
      ensures HyphenForgets(Sample(), before, after, c)
    {
      HyphenForgetsHere(before, after, c);
    }
    forall g
      ensures NoHyphenAfterMark(Sample(), g)
    {
      if IsCluster(Sample(), g) && LedByMark(Sample(), g) {
        MarksFollowMark(g, |g| - 1);
      }
    }
  }

  lemma SampleNormalizes()
    ensures forall s :: Normal(Sample(), Sample().normalize(s))
    ensures forall a, b, c :: PartStaysNormal(Sample(), a, b, c)
    ensures forall a, b :: HyphenSplits(Sample(), a, b)
  {
    forall s
      ensures Normal(Sample(), Sample().normalize(s))
    {
      ComposeComposes(s);
      ComposedIsFixed(Compose(s));
    }
    forall a, b, c
      ensures PartStaysNormal(Sample(), a, b, c)
    {
      PartIsComposed(a, b, c);
      ComposedIsFixed(a + b + c);
      ComposedIsFixed(b);
    }
    forall a, b
      ensures HyphenSplits(Sample(), a, b)
    {
      ComposeSplits(a, b);
    }
  }

  lemma SampleIsWellFormed()
    ensures WellFormed(Sample())
  {
    SampleSegments();
    SampleNormalizes();
    ComposedIsFixed("post");
  }

  // Titles and their clusters

  lemma One(c: char)
    ensures IsCluster(Sample(), [c])
  {
  }

  lemma Two(a: char, b: char)
    requires Joins(a, b)
    ensures IsCluster(Sample(), [a, b])
  {
    assert [a, b][..1] == [a];
  }

  lemma OneAlone(g: string)
    requires IsCluster(Sample(), g)
    ensures Segmented(Sample(), [g]) && Concat([g]) == g && Clusters(Sample(), g) == [g]
  {
    assert [g][..0] == [];
    SegmentedIsClusters(Sample(), [g]);
  }

  lemma TwoApart(g: string, h: string)
    requires IsCluster(Sample(), g) && IsCluster(Sample(), h) && !Joins(g[|g| - 1], h[0])
    ensures Segmented(Sample(), [g, h]) && Concat([g, h]) == g + h && Clusters(Sample(), g + h) == [g, h]
  {
    OneAlone(g);
    SegmentedSnoc(Sample(), [g], h);
    assert [g] + [h] == [g, h];
    SegmentedIsClusters(Sample(), [g, h]);
  }

  lemma ThreeApart(g: string, h: string, k: string)
    requires IsCluster(Sample(), g) && IsCluster(Sample(), h) && IsCluster(Sample(), k)
    requires !Joins(g[|g| - 1], h[0]) && !Joins(h[|h| - 1], k[0])
    ensures Clusters(Sample(), g + h + k) == [g, h, k]
  {
    TwoApart(g, h);
    assert [g, h] + [k] == [g, h, k];
    SegmentedSnoc(Sample(), [g, h], k);
    SegmentedIsClusters(Sample(), [g, h, k]);
  }

  lemma DraftOfThree(g: string, h: string, k: string)
    requires g != [] && Letter(g[0]) && h != [] && !Letter(h[0]) && k != [] && Letter(k[0])
    ensures SlugDraft(Sample(), [g]) == Draft(g, false)
    ensures SlugDraft(Sample(), [g, h]) == Draft(g + "-", true)
    ensures SlugDraft(Sample(), [g, h, k]) == Draft(g + "-" + k, false)
  {
    var u := Sample();
    var gs := [g, h, k];
    assert gs[..0] == [] && gs[..1] == [g] && gs[..2] == [g, h] && gs[..3] == gs;
    DraftStep(u, gs, 0);
    DraftStep(u, gs, 1);
    DraftStep(u, gs, 2);
    assert [] + g == g;
  }

  /** A letter, something else, a letter: their slug text is kept whole. */
  lemma SlugOfThree(g: string, h: string, k: string)
    requires IsCluster(Sample(), g) && IsCluster(Sample(), h) && IsCluster(Sample(), k)
    requires !Joins(g[|g| - 1], h[0]) && !Joins(h[|h| - 1], k[0])
    requires Letter(g[0]) && !Letter(h[0]) && Letter(k[0]) && k[|k| - 1] != '-' && |g| + |k| < 80
    requires Composed(g + h + k)
    ensures TitleClusters(Sample(), g + h + k) == [g, h, k]
    ensures Slugify(Sample(), g + h + k) == g + "-" + k
  {
    ComposedIsFixed(g + h + k);
    ThreeApart(g, h, k);
    DraftOfThree(g, h, k);
    ShortTextIsKept(Sample(), g + "-" + k);
  }

  lemma StrayOfThree(g: string, h: string, k: string)
    requires g != [] && Letter(g[0]) && h != [] && !Letter(h[0]) && k != [] && Letter(k[0])
    requires |g| + |k| < 80
    ensures StrayMark(Sample(), [g, h, k]) <==> Joins('-', k[0]) && !Joins(g[|g| - 1], '-')
  {
    var u := Sample();
    var gs := [g, h, k];
    DraftOfThree(g, h, k);
    assert gs[..2] == [g, h] && gs[..3] == gs;
    NoStrayInTwo(g, h);
    StraySteps(u, gs, 2);
  }

  lemma NoStrayInTwo(g: string, h: string)
    requires g != [] && Letter(g[0]) && h != [] && !Letter(h[0])
    ensures !StrayMark(Sample(), [g, h]) && LastBase(Sample(), [g, h]) == g
  {
    var u := Sample();
    var gs := [g, h];
    assert gs[..0] == [] && gs[..1] == [g] && gs[..2] == gs;
    StraySteps(u, gs, 0);
    StraySteps(u, gs, 1);
  }

  // What goes wrong

  /** A mark behind a tab: its slug is refused, and generating from that slug changes it. */
  lemma RefusedSlug()
    ensures WellFormed(Sample())
    ensures Slugify(Sample(), ['a', '\t', SIGN]) == ['a', '-', SIGN]
    ensures ParseSlug(Sample(), ['a', '-', SIGN]) == None
    ensures Slugify(Sample(), ['a', '-', SIGN]) != ['a', '-', SIGN]
  {
    var title := ['a', '\t', SIGN];
    SampleIsWellFormed();
    assert "a" + "\t" + [SIGN] == title && "a" + "-" + [SIGN] == ['a', '-', SIGN];
    SlugOfThree("a", "\t", [SIGN]);
    StrayOfThree("a", "\t", [SIGN]);
    ValidatorAcceptsGenerated(Sample(), title);
    GeneratorIsIdempotent(Sample(), title);
  }

  /** The same mark behind a prepended letter and a tab: the letter takes in both, and the slug is accepted. */
  lemma SheltersMark()
    ensures Slugify(Sample(), [REPH, '\t', SIGN]) == [REPH, '-', SIGN]
    ensures ParseSlug(Sample(), [REPH, '-', SIGN]) == Some([REPH, '-', SIGN])
  {
    var title := [REPH, '\t', SIGN];
    SampleIsWellFormed();
    assert [REPH] + "\t" + [SIGN] == title && [REPH] + "-" + [SIGN] == [REPH, '-', SIGN];
    SlugOfThree([REPH], "\t", [SIGN]);
    StrayOfThree([REPH], "\t", [SIGN]);
    ValidatorAcceptsGenerated(Sample(), title);
  }

  /** A prepended letter takes in one hyphen, and the next is added: an accepted slug with a doubled hyphen. */
  lemma DoubledSlug()
    ensures Slugify(Sample(), [REPH, '-', '-', 'a']) == [REPH, '-', '-', 'a']
    ensures ParseSlug(Sample(), [REPH, '-', '-', 'a']) == Some([REPH, '-', '-', 'a'])
    ensures DoubleHyphen([REPH, '-', '-', 'a'])
  {
    var title := [REPH, '-', '-', 'a'];
    SampleIsWellFormed();
    Two(REPH, '-');
    assert [REPH, '-'] + "-" + "a" == title;
    SlugOfThree([REPH, '-'], "-", "a");
    StrayOfThree([REPH, '-'], "-", "a");
    ValidatorAcceptsGenerated(Sample(), title);
    assert title[1] == '-' && title[1 + 1] == '-';
  }

  lemma SlashedClusters()
    ensures TitleClusters(Sample(), [REPH, '/', 'x']) == [[REPH, '/'], ['x']]
  {
    var title := [REPH, '/', 'x'];
    One('x');
    Two(REPH, '/');
    assert [REPH, '/'] + ['x'] == title;
    TwoApart([REPH, '/'], ['x']);
    ComposedIsFixed(title);
  }

  lemma TextOfTwo(g: string, h: string)
    requires g != [] && Letter(g[0]) && h != [] && Letter(h[0])
    ensures SlugText(Sample(), [g, h]) == g + h
  {
    var gs := [g, h];
    assert gs[..0] == [] && gs[..1] == [g] && gs[..2] == gs;
    DraftStep(Sample(), gs, 0);
    DraftStep(Sample(), gs, 1);
    assert [] + g == g;
  }

  /** A prepended letter takes in a slash: an accepted slug that holds one. */
  lemma SlashedSlug()
    ensures Slugify(Sample(), [REPH, '/', 'x']) == [REPH, '/', 'x']
    ensures ParseSlug(Sample(), [REPH, '/', 'x']) == Some([REPH, '/', 'x'])
  {
    var title := [REPH, '/', 'x'];
    SampleIsWellFormed();
    SlashedClusters();
    TextOfTwo([REPH, '/'], ['x']);
    assert [REPH, '/'] + ['x'] == title;
    ShortTextIsKept(Sample(), title);
    SafeTitles(Sample(), [[REPH, '/'], ['x']]);
    ValidatorAcceptsGenerated(Sample(), title);
  }

  lemma SyllableClusters()
    ensures TitleClusters(Sample(), [KIYEOK, A]) == [[GA]]
  {
    assert [KIYEOK, A][2..] == [];
    assert Compose([KIYEOK, A]) == [GA];
    One(GA);
    OneAlone([GA]);
  }

  lemma SyllableText()
    ensures SlugText(Sample(), [[GA]]) == [GA]
  {
    var gs := [[GA]];
    assert gs[..0] == [] && gs[..1] == gs;
    DraftStep(Sample(), gs, 0);
    assert [] + [GA] == [GA];
  }

  /** Consonant and vowel compose before anything is cut. */
  lemma ComposedSlug()
    ensures Slugify(Sample(), [KIYEOK, A]) == [GA]
    ensures ParseSlug(Sample(), [GA]) == Some([GA])
  {
    SampleIsWellFormed();
    SyllableClusters();
    SyllableText();
    ShortTextIsKept(Sample(), [GA]);
    var u, title := Sample(), [KIYEOK, A];
    assert Slugify(u, title) == [GA];
    SafeTitles(u, TitleClusters(u, title));
    ValidatorAcceptsGenerated(u, title);
  }
}
