/**
 Exactly which ASCII terms make a tag label (`TagLabel::normalize_keyword` in
 `common/src/tag.rs`), and which label. The vertical tab is the hard case: trimming a label
 takes it for whitespace, while folding a keyword keeps it.
 */
module Keywords {
  import opened Wrappers
  import opened Text
  import opened Tags

  const VT := '\U{0B}'

  predicate IsVt(c: char) {
    c == VT
  }

  // The core of a term: no separators around it, and then no vertical tabs

  /** `s` without its leading and trailing scalars that satisfy `p`. */
  function Cut(s: string, p: char -> bool): string {
    CutBack(CutFront(s, p), p)
  }

  function CutFront(s: string, p: char -> bool): string {
    if s != [] && p(s[0]) then CutFront(s[1..], p) else s
  }

  function CutBack(s: string, p: char -> bool): string {
    if s != [] && p(s[|s| - 1]) then CutBack(s[..|s| - 1], p) else s
  }

  predicate Every(s: string, p: char -> bool) {
    forall i :: 0 <= i < |s| ==> p(s[i])
  }

  /** Neither end satisfies `p`. */
  predicate Bounded(s: string, p: char -> bool) {
    s != [] ==> !p(s[0]) && !p(s[|s| - 1])
  }

  function Core(t: string): string {
    Cut(Cut(t, IsSeparator), IsVt)
  }

  lemma {:induction false} CutFrontSplits(s: string, p: char -> bool) returns (a: string)
    ensures s == a + CutFront(s, p) && Every(a, p)
    ensures CutFront(s, p) != [] ==> !p(CutFront(s, p)[0])
  {
    if s != [] && p(s[0]) {
      var rest := CutFrontSplits(s[1..], p);
      a := [s[0]] + rest;
      assert s == [s[0]] + s[1..];
    } else {
      a := [];
    }
  }

  lemma {:induction false} CutBackSplits(s: string, p: char -> bool) returns (b: string)
    ensures s == CutBack(s, p) + b && Every(b, p)
    ensures CutBack(s, p) != [] ==> !p(CutBack(s, p)[|CutBack(s, p)| - 1]) && CutBack(s, p)[0] == s[0]
  {
    if s != [] && p(s[|s| - 1]) {
      var rest := CutBackSplits(s[..|s| - 1], p);
      b := rest + [s[|s| - 1]];
      assert s == s[..|s| - 1] + [s[|s| - 1]];
    } else {
      b := [];
    }
  }

  lemma Regrouped(a: string, x: string, b: string)
    ensures a + (x + b) == a + x + b
  {
  }

  lemma CutSplits(s: string, p: char -> bool) returns (a: string, b: string)
    ensures s == a + Cut(s, p) + b && Every(a, p) && Every(b, p) && Bounded(Cut(s, p), p)
  {
    var front := CutFront(s, p);
    a := CutFrontSplits(s, p);
    b := CutBackSplits(front, p);
    Regrouped(a, CutBack(front, p), b);
  }

  // Folding around the core

  /** What a folded text adds behind another: two hyphens become one. */
  function Joined(folded: string, f: string): string {
    if EndsWithDash(folded) && f != [] && f[0] == '-' then f[1..] else f
  }

  lemma JoinedSnoc(folded: string, f: string, c: char)
    ensures Joined(folded, f + [c]) ==
            if f == [] && EndsWithDash(folded) && c == '-' then [] else Joined(folded, f) + [c]
  {
    if f != [] {
      assert (f + [c])[1..] == f[1..] + [c];
    }
  }

  lemma JoinedEnd(folded: string, f: string)
    ensures EndsWithDash(folded + Joined(folded, f)) <==> EndsWithDash(if f == [] then folded else f)
  {
    if Joined(folded, f) == [] {
      assert folded + [] == folded;
    }
  }

  lemma FoldStep(s: string, c: char)
    ensures Fold(s + [c]) ==
            if !IsSeparator(c) then Fold(s) + [AsciiLower(c)]
            else if EndsWithDash(Fold(s)) then Fold(s)
            else Fold(s) + "-"
  {
    assert (s + [c])[..|s|] == s;
  }

  lemma {:induction false} FoldAppend(a: string, b: string)
    ensures Fold(a + b) == Fold(a) + Joined(Fold(a), Fold(b))
  {
    if b == [] {
      assert a + b == a;
    } else {
      var front, c := b[..|b| - 1], b[|b| - 1];
      assert b == front + [c] && a + b == (a + front) + [c];
      FoldAppend(a, front);
      FoldStep(a + front, c);
      FoldStep(front, c);
      JoinedStep(Fold(a), front, c);
    }
  }

  lemma JoinedStep(folded: string, front: string, c: char)
    ensures Joined(folded, Fold(front + [c])) ==
            if !IsSeparator(c) then Joined(folded, Fold(front)) + [AsciiLower(c)]
            else if EndsWithDash(folded + Joined(folded, Fold(front))) then Joined(folded, Fold(front))
            else Joined(folded, Fold(front)) + "-"
  {
    FoldStep(front, c);
    LowerOfNoSeparator(c);
    JoinedEnd(folded, Fold(front));
    JoinedSnoc(folded, Fold(front), AsciiLower(c));
    JoinedSnoc(folded, Fold(front), '-');
  }

  lemma LowerOfNoSeparator(c: char)
    ensures AsciiLower(c) == '-' <==> c == '-'
    ensures IsSeparator('-')
  {
  }

  lemma {:induction false} FoldOfSeparators(s: string)
    requires Every(s, IsSeparator)
    ensures Fold(s) == if s == [] then [] else "-"
  {
    if s != [] {
      FoldOfSeparators(s[..|s| - 1]);
    }
  }

  lemma {:induction false} FoldFirst(s: string)
    requires s != []
    ensures Fold(s) != [] && Fold(s)[0] == if IsSeparator(s[0]) then '-' else AsciiLower(s[0])
  {
    if |s| > 1 {
      FoldFirst(s[..|s| - 1]);
    }
  }

  lemma FoldLast(s: string)
    requires s != []
    ensures Fold(s) != [] && Fold(s)[|Fold(s)| - 1] == if IsSeparator(s[|s| - 1]) then '-' else AsciiLower(s[|s| - 1])
  {
  }

  lemma FoldBounded(x: string)
    requires x != [] && Bounded(x, IsSeparator)
    ensures Fold(x) != [] && Fold(x)[0] != '-' && Fold(x)[|Fold(x)| - 1] != '-'
  {
    FoldFirst(x);
    FoldLast(x);
    LowerOfNoSeparator(x[0]);
    LowerOfNoSeparator(x[|x| - 1]);
  }

  lemma TrimDashesAround(a: string, f: string, b: string)
    requires (a == [] || a == "-") && (b == [] || b == "-")
    requires f != [] && f[0] != '-' && f[|f| - 1] != '-'
    ensures TrimDashes(TrimStartDashes(a + f + b)) == f
  {
    assert TrimStartDashes(a + f + b) == f + b by {
      assert a == "-" ==> (a + f + b)[1..] == f + b;
    }
    assert b == "-" ==> (f + b)[..|f|] == f;
  }

  lemma FoldOnlySeparators(s: string)
    requires Every(s, IsSeparator)
    ensures TrimDashes(TrimStartDashes(Fold(s))) == ""
  {
    FoldOfSeparators(s);
    assert "-"[1..] == "";
  }

  lemma FoldBetween(a: string, x: string, b: string)
    requires x != [] && Every(a, IsSeparator) && Every(b, IsSeparator) && Bounded(x, IsSeparator)
    ensures TrimDashes(TrimStartDashes(Fold(a + x + b))) == Fold(x)
  {
    FoldBounded(x);
    FoldOfSeparators(a);
    FoldOfSeparators(b);
    FoldAppend(a, x);
    FoldAppend(a + x, b);
    LastOfAppend(Fold(a), Fold(x));
    TrimDashesAround(Fold(a), Fold(x), Fold(b));
  }

  lemma LastOfAppend(a: string, f: string)
    requires f != []
    ensures EndsWithDash(a + f) <==> EndsWithDash(f)
  {
  }

  /** Folding and trimming the hyphens folds what is left between the outer separators. */
  lemma FoldedIsFoldOfCut(term: string)
    ensures Folded(term) == Fold(Cut(Trim(term), IsSeparator))
  {
    var t := Trim(term);
    var x := Cut(t, IsSeparator);
    var a, b := CutSplits(t, IsSeparator);
    if x == [] {
      assert t == a + b;
      FoldOnlySeparators(a + b);
    } else {
      FoldBetween(a, x, b);
    }
  }

  // Trimming the folded text

  lemma {:induction false} FoldOfVts(v: string)
    requires Every(v, IsVt)
    ensures Fold(v) == v
  {
    if v != [] {
      FoldOfVts(v[..|v| - 1]);
      assert v == v[..|v| - 1] + [VT];
    }
  }

  lemma FoldAroundVts(v: string, y: string, w: string)
    requires Every(v, IsVt) && Every(w, IsVt)
    ensures Fold(v + y + w) == v + Fold(y) + w
  {
    FoldOfVts(v);
    FoldOfVts(w);
    FoldAppend(v, y);
    FoldAppend(v + y, w);
    assert v != [] ==> v[|v| - 1] == VT;
    assert w != [] ==> w[0] == VT;
  }

  lemma VtsAreBlank(v: string)
    requires Every(v, IsVt)
    ensures Blank(v)
  {
    VtIsWhitespace();
  }

  lemma VtIsWhitespace()
    ensures IsWhitespace(VT)
  {
  }

  lemma AsciiWhitespaceSeparates(c: char)
    requires c <= '\U{7F}' && IsWhitespace(c) && c != '\U{0B}'
    ensures IsSeparator(c)
  {
    if !('\t' <= c <= '\r' || c == ' ') {
      var beyond := WHITE_SPACE.rest.rest;
      assert Above('\U{7F}', beyond);
      AboveIsMonotone(c, '\U{7F}', beyond);
      AboveIsOutside(c, beyond);
      assert !InRanges(c, WHITE_SPACE.rest);
    }
  }

  /** Among ASCII scalars, only the vertical tab is whitespace and survives folding. */
  lemma FoldedInk(c: char)
    requires c <= '\U{7F}' && c != VT && !IsSeparator(c)
    ensures !IsWhitespace(AsciiLower(c))
  {
    if IsWhitespace(AsciiLower(c)) {
      if 'A' <= c <= 'Z' {
        GraphicIsNotWhitespace(AsciiLower(c));
      } else {
        AsciiWhitespaceSeparates(c);
      }
    }
  }

  lemma FoldIsTrimmed(y: string)
    requires IsAscii(y) && Bounded(y, IsVt)
    ensures Trimmed(Fold(y))
  {
    GraphicIsNotWhitespace('-');
    if y != [] {
      FoldFirst(y);
      FoldLast(y);
      if !IsSeparator(y[0]) {
        FoldedInk(y[0]);
      }
      if !IsSeparator(y[|y| - 1]) {
        FoldedInk(y[|y| - 1]);
      }
    }
  }

  lemma TrimAround(v: string, f: string, w: string)
    requires Blank(v) && Blank(w) && Trimmed(f)
    ensures Trim(v + f + w) == f
  {
    assert v + f + w == v + (f + w);
    TrimStartBlankPrefix(v, f + w);
    if f == [] {
      assert f + w == w;
      TrimStartSplits(w);
    } else {
      TrimOfTrimmed(f);
      assert TrimStart(f + w) == f + w by {
        assert (f + w)[0] == f[0];
      }
      TrimEndBlankSuffix(f, w);
    }
  }

  lemma AsciiParts(a: string, x: string, b: string)
    requires IsAscii(a + x + b)
    ensures IsAscii(x)
  {
    assert forall i :: 0 <= i < |x| ==> x[i] == (a + x + b)[|a| + i];
  }

  lemma AsciiOfTrim(s: string)
    requires IsAscii(s)
    ensures IsAscii(Trim(s))
  {
    TrimSplits(s);
    var n: nat, m: nat :| TrimsTo(s, n, m);
  }

  /** What the label parser reads of an ASCII term on the free-form path. */
  lemma TrimOfFolded(term: string)
    requires IsAscii(term)
    ensures Trim(Folded(term)) == Fold(Core(Trim(term)))
  {
    var t := Trim(term);
    var x := Cut(t, IsSeparator);
    var a, b := CutSplits(t, IsSeparator);
    var v, w := CutSplits(x, IsVt);
    AsciiOfTrim(term);
    AsciiParts(a, x, b);
    AsciiParts(v, Core(t), w);
    FoldedIsFoldOfCut(term);
    FoldAroundVts(v, Core(t), w);
    FoldIsTrimmed(Core(t));
    VtsAreBlank(v);
    VtsAreBlank(w);
    TrimAround(v, Fold(Core(t)), w);
  }

  // Which folded texts are labels

  predicate Foldable(c: char) {
    IsAsciiAlnum(c) || IsSeparator(c)
  }

  predicate AllFoldable(s: string) {
    forall i :: 0 <= i < |s| ==> Foldable(s[i])
  }

  predicate TagText(s: string) {
    forall i :: 0 <= i < |s| ==> IsLowerAlnum(s[i]) || s[i] == '-'
  }

  lemma {:induction false} FoldIsTagText(y: string)
    ensures TagText(Fold(y)) <==> AllFoldable(y)
  {
    if y != [] {
      var front, c := y[..|y| - 1], y[|y| - 1];
      FoldIsTagText(front);
      assert y == front + [c];
      FoldStep(front, c);
      AllFoldableSnoc(front, c);
      LowerOfNoSeparator(c);
      TagTextSnoc(Fold(front), AsciiLower(c));
      TagTextSnoc(Fold(front), '-');
    }
  }

  lemma AllFoldableSnoc(s: string, c: char)
    ensures AllFoldable(s + [c]) <==> AllFoldable(s) && Foldable(c)
  {
    assert (s + [c])[|s|] == c && forall i :: 0 <= i < |s| ==> (s + [c])[i] == s[i];
  }

  lemma TagTextSnoc(s: string, c: char)
    ensures TagText(s + [c]) <==> TagText(s) && (IsLowerAlnum(c) || c == '-')
  {
    assert (s + [c])[|s|] == c && forall i :: 0 <= i < |s| ==> (s + [c])[i] == s[i];
  }

  predicate Labels(y: string) {
    y != [] && IsAsciiAlnum(y[0]) && AllFoldable(y)
  }

  lemma FoldIsTag(y: string)
    ensures ValidTag(Fold(y)) <==> Labels(y)
  {
    FoldIsTagText(y);
    if y != [] {
      FoldFirst(y);
      AlnumIsNoSeparator(y[0]);
    }
  }

  lemma AlnumIsNoSeparator(c: char)
    ensures IsAsciiAlnum(c) ==> !IsSeparator(c)
    ensures !IsLowerAlnum('-')
  {
  }

  lemma {:induction false} FoldIsLower(y: string)
    ensures ToAsciiLowercase(Fold(y)) == Fold(y)
  {
    if y != [] {
      var front, c := y[..|y| - 1], y[|y| - 1];
      FoldIsLower(front);
      assert y == front + [c];
      FoldStep(front, c);
    }
  }

  lemma FoldIsAscii(y: string)
    requires IsAscii(y)
    ensures IsAscii(Fold(y))
  {
    FoldScalars(y);
    forall k | 0 <= k < |Fold(y)|
      ensures Fold(y)[k] <= '\U{7F}'
    {
      assert FoldedFrom(y, Fold(y)[k]);
    }
  }

  lemma AsciiTag(lower: Lowercase, s: string)
    requires Tags.WellFormed(lower) && IsAscii(s)
    ensures ParseTag(lower, s).Some? <==> ValidTag(ToAsciiLowercase(s))
  {
    assert LowersAscii(lower, s);
  }

  /** A term that is a label as it stands has a core that labels. */
  lemma PlainLabels(t: string)
    requires ValidTag(ToAsciiLowercase(t))
    ensures Labels(Core(t))
  {
    var x := Cut(t, IsSeparator);
    var a, b := CutSplits(t, IsSeparator);
    assert forall i :: 0 <= i < |t| ==> IsAsciiAlnum(t[i]) || t[i] == '-' by {
      var l := ToAsciiLowercase(t);
      forall i | 0 <= i < |t|
        ensures IsAsciiAlnum(t[i]) || t[i] == '-'
      {
        assert l[i] == AsciiLower(t[i]);
        LowerOfNoSeparator(t[i]);
      }
    }
    PlainCore(t, a, x, b);
    NoVtToCut(x);
  }

  lemma PlainCore(t: string, a: string, x: string, b: string)
    requires t != [] && t == a + x + b && Every(a, IsSeparator) && Every(b, IsSeparator)
    requires IsAsciiAlnum(t[0]) && forall i :: 0 <= i < |t| ==> IsAsciiAlnum(t[i]) || t[i] == '-'
    ensures Labels(x) && VT !in x
  {
    AlnumIsNoSeparator(t[0]);
    assert |a| == 0;
    assert a + x + b == x + b;
    assert |x| > 0;
    assert forall i :: 0 <= i < |x| ==> x[i] == t[i];
  }

  lemma NoVtToCut(x: string)
    requires VT !in x
    ensures Cut(x, IsVt) == x
  {
  }

  /**
   An ASCII term is accepted exactly when its core, what is left between its outer
   separators and then between vertical tabs, starts with a letter or digit and holds only
   letters, digits, punctuation and whitespace other than vertical tabs. The label is then the
   term itself, when it is one already, or the folded core.
   */
  lemma AsciiKeywords(lower: Lowercase, term: string)
    requires Tags.WellFormed(lower) && IsAscii(term)
    ensures var t := Trim(term);
            KeywordLabel(lower, term) ==
            if ValidTag(ToAsciiLowercase(t)) then Some(t)
            else if Labels(Core(t)) then Some(Fold(Core(t)))
            else None
    ensures KeywordLabel(lower, term).Some? <==> Labels(Core(Trim(term)))
  {
    var t := Trim(term);
    AsciiOfTrim(term);
    AsciiTag(lower, t);
    if ValidTag(ToAsciiLowercase(t)) {
      PlainLabels(t);
    } else {
      FoldedLabel(lower, term);
    }
  }

  /** A term with other scalars is accepted only if those are whitespace around a label, which it then is. */
  lemma OtherKeywords(lower: Lowercase, term: string)
    requires Tags.WellFormed(lower) && !IsAscii(term)
    ensures var t := Trim(term);
            KeywordLabel(lower, term) == if IsAscii(t) && ValidTag(ToAsciiLowercase(t)) then Some(t) else None
  {
    if IsAscii(Trim(term)) {
      AsciiTag(lower, Trim(term));
    }
  }

  lemma FoldedLabel(lower: Lowercase, term: string)
    requires Tags.WellFormed(lower) && IsAscii(term)
    ensures var y := Core(Trim(term));
            ParseLabel(lower, Folded(term)) == if Labels(y) then Some(Fold(y)) else None
  {
    var t := Trim(term);
    var a, b := CutSplits(t, IsSeparator);
    var v, w := CutSplits(Cut(t, IsSeparator), IsVt);
    AsciiOfTrim(term);
    AsciiParts(a, Cut(t, IsSeparator), b);
    AsciiParts(v, Core(t), w);
    TrimOfFolded(term);
    FoldIsAscii(Core(t));
    AsciiTag(lower, Fold(Core(t)));
    FoldIsLower(Core(t));
    FoldIsTag(Core(t));
  }

  lemma CoreBehindVt(y: string)
    requires y != [] && !IsSeparator(y[|y| - 1]) && Bounded(y, IsVt)
    ensures Core(['-', VT] + y) == y
  {
    var t, x := ['-', VT] + y, [VT] + y;
    assert t[1..] == x && x[1..] == y && x[|x| - 1] == y[|y| - 1];
    assert CutFront(x, IsSeparator) == x && CutFront(t, IsSeparator) == x;
    assert Cut(t, IsSeparator) == x;
    assert CutFront(y, IsVt) == y && CutFront(x, IsVt) == y;
  }

  lemma BehindHyphenAndVt(lower: Lowercase, y: string)
    requires Tags.WellFormed(lower) && IsAscii(y)
    requires y != [] && !IsSeparator(y[|y| - 1]) && Bounded(y, IsVt) && !IsWhitespace(y[|y| - 1])
    ensures KeywordLabel(lower, ['-', VT] + y) == if Labels(y) then Some(Fold(y)) else None
  {
    var term := ['-', VT] + y;
    CoreBehindVt(y);
    TrimBehindVt(y);
    AsciiKeywords(lower, term);
    HyphenIsNoTag(ToAsciiLowercase(term));
  }

  lemma TrimBehindVt(y: string)
    requires y != [] && !IsWhitespace(y[|y| - 1])
    ensures Trim(['-', VT] + y) == ['-', VT] + y
  {
    var term := ['-', VT] + y;
    GraphicIsNotWhitespace('-');
    assert term[0] == '-' && term[|term| - 1] == y[|y| - 1];
    TrimOfTrimmed(term);
  }

  lemma HyphenIsNoTag(s: string)
    requires s != [] && s[0] == '-'
    ensures !ValidTag(s)
  {
  }

  /** A vertical tab between the outer separators and the first letter is cut. */
  lemma InnerVtCut(lower: Lowercase)
    requires Tags.WellFormed(lower)
    ensures KeywordLabel(lower, ['-', VT] + "a") == Some("a")
  {
    GraphicIsNotWhitespace('a');
    BehindHyphenAndVt(lower, "a");
    FoldStep("", 'a');
    assert "" + ['a'] == "a";
  }

  /** A vertical tab in front of an inner separator is not, and the term is refused. */
  lemma InnerVtRefused(lower: Lowercase)
    requires Tags.WellFormed(lower)
    ensures KeywordLabel(lower, ['-', VT] + "-a") == None
  {
    GraphicIsNotWhitespace('a');
    BehindHyphenAndVt(lower, "-a");
  }
}
