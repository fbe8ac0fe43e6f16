/**
 Derived summaries (`common/src/post_summary.rs`) and the untitled slug seed of
 `common/src/render.rs`: both cut a selected line at a text boundary.
 */
module Summary {
  import opened Wrappers
  import opened Text
  import opened PostText
  import opened Titles

  const MAX_POST_SUMMARY_CHARS := 500
  const MAX_COMPACT_SUMMARY_CHARS := 100

  /** `PostSummary::from_str`, through `text::bounded_non_empty`. */
  function ParseSummary(s: string): Option<string> {
    var trimmed := Trim(s);
    if trimmed == [] || |trimmed| > MAX_POST_SUMMARY_CHARS then None else Some(trimmed)
  }

  predicate IsTerminator(c: char) {
    c == '.' || c == '!' || c == '?'
  }

  /** Index of the last scalar satisfying `p`. */
  function LastIndex(s: string, p: char -> bool): (r: Option<nat>)
    ensures r.Some? ==> r.value < |s| && p(s[r.value]) && forall i :: r.value < i < |s| ==> !p(s[i])
    ensures r.None? ==> forall i :: 0 <= i < |s| ==> !p(s[i])
  {
    if s == [] then None
    else if p(s[|s| - 1]) then Some(|s| - 1)
    else LastIndex(s[..|s| - 1], p)
  }

  lemma AfterLast(s: string, i: nat, left: string, p: char -> bool)
    requires i < |s| && left == s[i + 1..] && forall k :: i < k < |s| ==> !p(s[k])
    ensures forall k :: 0 <= k < |left| ==> !p(left[k])
  {
    assert forall k :: 0 <= k < |left| ==> left[k] == s[i + 1 + k];
  }

  function NonEmptyTrimmedPrefix(prefix: string): Option<string> {
    if TrimEnd(prefix) == [] then None else Some(TrimEnd(prefix))
  }

  function TruncateAtTextBoundary(input: string, maxScalars: nat): string {
    if |input| <= maxScalars then input
    else
      var hardCap := input[..maxScalars];
      var sentence :=
        match LastIndex(hardCap, c => IsTerminator(c))
        case Some(i) => NonEmptyTrimmedPrefix(hardCap[..i + 1])
        case None => None;
      if sentence.Some? then sentence.value
      else
        var word :=
          match LastIndex(hardCap, c => IsWhitespace(c))
          case Some(i) => NonEmptyTrimmedPrefix(hardCap[..i])
          case None => None;
        if word.Some? then word.value else hardCap
  }

  predicate HasTerminator(s: string) {
    exists i :: 0 <= i < |s| && IsTerminator(s[i])
  }

  predicate HasWhitespace(s: string) {
    exists i :: 0 <= i < |s| && IsWhitespace(s[i])
  }

  lemma TerminatorsAreInk(c: char)
    requires IsTerminator(c)
    ensures !IsWhitespace(c)
  {
    GraphicIsNotWhitespace(c);
  }

  lemma PrefixNotBlank(s: string, n: nat)
    requires s != [] && !IsWhitespace(s[0]) && 0 < n <= |s|
    ensures !Blank(s[..n])
  {
    assert s[..n][0] == s[0];
  }

  /**
   Cutting a trimmed, non-empty text gives a trimmed, non-empty prefix within the cap. The
   cut falls after the last sentence in the cap, else before the last word break in the
   cap, else at the cap; whichever it is, nothing but whitespace is given up before it.
   */
  lemma TruncationLaw(input: string, maxScalars: nat)
    requires input != [] && Trimmed(input) && maxScalars > 0
    ensures var r := TruncateAtTextBoundary(input, maxScalars);
            && r <= input && r != [] && Trimmed(r) && |r| <= maxScalars
            && (|input| <= maxScalars ==> r == input)
            && (|input| > maxScalars ==>
                  var cap := input[..maxScalars];
                  var left := cap[|r|..];
                  if HasTerminator(cap) then IsTerminator(r[|r| - 1]) && !HasTerminator(left)
                  else if HasWhitespace(cap) then CutsAtWordBreak(left)
                  else r == cap)
  {
    if |input| > maxScalars {
      var cap := input[..maxScalars];
      assert cap[0] == input[0];
      match LastIndex(cap, c => IsTerminator(c))
      case Some(i) =>
        var prefix := cap[..i + 1];
        TerminatorsAreInk(cap[i]);
        assert prefix[|prefix| - 1] == cap[i];
        TrimOfTrimmed(prefix);
        assert IsTerminator(cap[i]) && HasTerminator(cap);
        AfterLast(cap, i, cap[i + 1..], c => IsTerminator(c));
      case None =>
        assert !HasTerminator(cap);
        WordCut(cap);
        assert TruncateAtTextBoundary(input, maxScalars) == WordPrefix(cap);
    }
  }

  /** The part of the cap given up is whitespace, then a run without whitespace. */
  ghost predicate CutsAtWordBreak(left: string) {
    exists k :: 0 < k <= |left| && Blank(left[..k]) && !HasWhitespace(left[k..])
  }

  function WordPrefix(cap: string): string {
    var word :=
      match LastIndex(cap, c => IsWhitespace(c))
      case Some(i) => NonEmptyTrimmedPrefix(cap[..i])
      case None => None;
    if word.Some? then word.value else cap
  }

  lemma WordCut(cap: string)
    requires cap != [] && !IsWhitespace(cap[0])
    ensures var r := WordPrefix(cap);
            && r <= cap && r != [] && Trimmed(r)
            && if HasWhitespace(cap) then CutsAtWordBreak(cap[|r|..]) else r == cap
  {
    match LastIndex(cap, c => IsWhitespace(c))
    case None =>
      assert !HasWhitespace(cap);
    case Some(i) =>
      assert IsWhitespace(cap[i]) && i > 0;
      assert HasWhitespace(cap);
      PrefixNotBlank(cap, i);
      TrimEndSplits(cap[..i]);
      var r := TrimEnd(cap[..i]);
      assert r[0] == cap[0];
      AfterLast(cap, i, cap[i + 1..], c => IsWhitespace(c));
      GivenUp(cap, i, |r|);
  }

  /** Blanks up to the last whitespace, then none. */
  lemma GivenUp(cap: string, i: nat, n: nat)
    requires n <= i < |cap| && IsWhitespace(cap[i]) && Blank(cap[..i][n..])
    requires !HasWhitespace(cap[i + 1..])
    ensures CutsAtWordBreak(cap[n..])
  {
    var left, k := cap[n..], i + 1 - n;
    BlankAppend(cap[..i][n..], [cap[i]]);
    assert left[..k] == cap[..i][n..] + [cap[i]];
    assert left[k..] == cap[i + 1..];
  }

  function FromTitle(title: string): string {
    TruncateAtTextBoundary(title, MAX_POST_SUMMARY_CHARS)
  }

  /** Trim the whole body, then cut at the first LF. */
  function FromBodyLine(body: string): string {
    TruncateAtTextBoundary(TrimEnd(FirstLine(TrimStart(body))), MAX_COMPACT_SUMMARY_CHARS)
  }

  /** Split into lines, then take the first that is not blank after trimming. */
  function FirstMeaningfulLine(body: string): string
    requires ValidBody(body)
  {
    TruncateAtTextBoundary(Trim(FirstNonBlank(Lines(body))), 100)
  }

  lemma BodyLine(body: string)
    requires ValidBody(body)
    ensures var line := Trim(FirstNonBlank(Lines(body)));
            && TrimEnd(FirstLine(TrimStart(body))) == line
            && line != [] && Trimmed(line)
  {
    BodyDoor(body);
    FirstContent(body);
    TrimStartSplits(body);
    var t := TrimStart(body);
    SpacesAreWhitespace();
    assert t[0] != '\n';
    var first := FirstLine(t);
    assert first[0] == t[0];
    assert TrimStart(first) == first;
    TrimSplits(FirstNonBlank(Lines(body)));
  }

  /** The compact summary and the untitled slug seed select and cut the same line of every valid body. */
  lemma SummaryAndSeedAgree(body: string)
    requires ValidBody(body)
    ensures FromBodyLine(body) == FirstMeaningfulLine(body)
  {
    BodyLine(body);
  }

  /** Both derived doors yield values the validating door accepts unchanged. */
  lemma DerivedSummariesAreValid(title: string, body: string)
    requires ValidTitle(title) && ValidBody(body)
    ensures ParseSummary(FromTitle(title)) == Some(FromTitle(title))
    ensures ParseSummary(FromBodyLine(body)) == Some(FromBodyLine(body))
    ensures FromTitle(title) <= title && |FromBodyLine(body)| <= MAX_COMPACT_SUMMARY_CHARS
    ensures |title| <= 500 ==> FromTitle(title) == title
  {
    TrimSplits(title);
    TruncationLaw(title, MAX_POST_SUMMARY_CHARS);
    TrimOfTrimmed(FromTitle(title));
    BodyLine(body);
    TruncationLaw(Trim(FirstNonBlank(Lines(body))), MAX_COMPACT_SUMMARY_CHARS);
    TrimOfTrimmed(FromBodyLine(body));
  }

  // The first sentence of rendered text

  predicate IsCloser(c: char) {
    c in {'\'', '"', '\U{2019}', '\U{201D}', ')', ']', '}'}
  }

  /** Position of the first sentence terminator, or the length. */
  function FirstTerminator(s: string): (i: nat)
    ensures i <= |s| && (i < |s| ==> IsTerminator(s[i]))
    ensures forall k :: 0 <= k < i ==> !IsTerminator(s[k])
  {
    if s == [] || IsTerminator(s[0]) then 0 else 1 + FirstTerminator(s[1..])
  }

  /** How many closing quotes and brackets `s` starts with. */
  function CloserRun(s: string): (n: nat)
    ensures n <= |s| && (n < |s| ==> !IsCloser(s[n]))
    ensures forall k :: 0 <= k < n ==> IsCloser(s[k])
  {
    if s != [] && IsCloser(s[0]) then 1 + CloserRun(s[1..]) else 0
  }

  function HardCap(input: string, maxScalars: nat): string {
    if |input| <= maxScalars then input else input[..maxScalars]
  }

  /** `truncate_at_first_sentence_or_word_boundary` */
  function FirstSentence(input: string, maxScalars: nat): string {
    var cap := HardCap(input, maxScalars);
    var i := FirstTerminator(cap);
    if i < |cap| then cap[..i + 1 + CloserRun(cap[i + 1..])]
    else if |input| <= maxScalars then input
    else WordPrefix(cap)
  }

  /** The loop over closing quotes and brackets. */
  method CountClosers(rest: string) returns (end: nat)
    ensures end == CloserRun(rest)
  {
    end := 0;
    while end < |rest| && IsCloser(rest[end])
      invariant 0 <= end <= CloserRun(rest)
    {
      end := end + 1;
    }
  }

  method TruncateAtFirstSentence(input: string, maxScalars: nat) returns (r: string)
    ensures r == FirstSentence(input, maxScalars)
  {
    var cap := HardCap(input, maxScalars);
    var terminator := FirstTerminator(cap);
    if terminator < |cap| {
      var end := CountClosers(cap[terminator + 1..]);
      return cap[..terminator + 1 + end];
    }
    if |input| <= maxScalars {
      return input;
    }
    r := WordPrefix(cap);
  }

  lemma TerminatorAt(s: string, i: nat)
    requires i <= |s| && (i < |s| ==> IsTerminator(s[i])) && forall k :: 0 <= k < i ==> !IsTerminator(s[k])
    ensures FirstTerminator(s) == i
  {
  }

  lemma AllClosers(s: string)
    requires forall k :: 0 <= k < |s| ==> IsCloser(s[k])
    ensures CloserRun(s) == |s|
  {
  }

  lemma WordPrefixIsPrefix(cap: string)
    ensures WordPrefix(cap) <= cap
  {
    match LastIndex(cap, c => IsWhitespace(c))
    case None =>
    case Some(i) => TrimEndSplits(cap[..i]);
  }

  /**
   Cutting at the first sentence keeps a prefix within the cap, and cutting the result again
   changes nothing, for every text: a projection may be applied where the extraction was.
   */
  lemma FirstSentenceSettles(input: string, maxScalars: nat)
    ensures var r := FirstSentence(input, maxScalars);
            && r <= input && |r| <= maxScalars
            && FirstSentence(r, maxScalars) == r
  {
    var cap := HardCap(input, maxScalars);
    var i := FirstTerminator(cap);
    var r := FirstSentence(input, maxScalars);
    if i < |cap| {
      TerminatorAt(r, i);
      AllClosers(r[i + 1..]);
    } else {
      WordPrefixIsPrefix(cap);
      assert r <= cap;
      TerminatorAt(r, |r|);
    }
  }

  /** The first sentence of `s` ends at `n`: behind its first terminator and the closers that follow. */
  ghost predicate SentenceEnds(s: string, i: nat, n: nat) {
    && i < n <= |s|
    && s[i] in ".!?" && (forall k :: 0 <= k < i ==> s[k] !in ".!?")
    && (forall k :: i < k < n ==> IsCloser(s[k])) && (n < |s| ==> !IsCloser(s[n]))
  }

  lemma {:induction false} CloserRunAt(s: string, n: nat)
    requires n <= |s| && (forall k :: 0 <= k < n ==> IsCloser(s[k])) && (n < |s| ==> !IsCloser(s[n]))
    ensures CloserRun(s) == n
  {
    if n > 0 {
      CloserRunAt(s[1..], n - 1);
    }
  }

  /** What is kept is the first sentence of the scalars within the cap, wherever that ends. */
  lemma FirstSentenceIsCut(input: string, maxScalars: nat, i: nat, n: nat)
    requires SentenceEnds(if |input| <= maxScalars then input else input[..maxScalars], i, n)
    ensures FirstSentence(input, maxScalars) == input[..n]
  {
    var cap := HardCap(input, maxScalars);
    TerminatorAt(cap, i);
    CloserRunAt(cap[i + 1..], n - i - 1);
  }

  /** Some whitespace has other text in front of it. */
  ghost predicate BreaksWord(cap: string) {
    exists k :: 0 <= k < |cap| && IsWhitespace(cap[k]) && !Blank(cap[..k])
  }

  /** Without a sentence end within the cap, a short text is kept whole, and a long one up to its last word break. */
  lemma WordIsCut(input: string, maxScalars: nat)
    requires forall k :: 0 <= k < |input| && k < maxScalars ==> input[k] !in ".!?"
    ensures var r := FirstSentence(input, maxScalars);
            if |input| <= maxScalars then r == input
            else
              var cap := input[..maxScalars];
              && r <= cap
              && if BreaksWord(cap) then r != [] && !IsWhitespace(r[|r| - 1]) && CutsAtWordBreak(cap[|r|..])
                 else r == cap
  {
    var cap := HardCap(input, maxScalars);
    TerminatorAt(cap, |cap|);
    if |input| > maxScalars {
      WordPrefixBreaks(cap);
    }
  }

  lemma WordPrefixBreaks(cap: string)
    ensures var r := WordPrefix(cap);
            && r <= cap
            && if BreaksWord(cap) then r != [] && !IsWhitespace(r[|r| - 1]) && CutsAtWordBreak(cap[|r|..])
               else r == cap
  {
    match LastIndex(cap, c => IsWhitespace(c))
    case None =>
    case Some(i) =>
      TrimEndSplits(cap[..i]);
      AfterLast(cap, i, cap[i + 1..], c => IsWhitespace(c));
      BreaksAtLast(cap, i);
      if TrimEnd(cap[..i]) != [] {
        GivenUp(cap, i, |TrimEnd(cap[..i])|);
      }
  }

  lemma BreaksAtLast(cap: string, i: nat)
    requires i < |cap| && IsWhitespace(cap[i]) && forall k :: i < k < |cap| ==> !IsWhitespace(cap[k])
    ensures BreaksWord(cap) <==> !Blank(cap[..i])
  {
    if BreaksWord(cap) {
      var k :| 0 <= k < |cap| && IsWhitespace(cap[k]) && !Blank(cap[..k]);
      assert cap[..i] == cap[..k] + cap[k..i];
      BlankAppend(cap[..k], cap[k..i]);
    }
  }
}
