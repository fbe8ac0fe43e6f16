/**
 Exactly when a second Org pass changes nothing, as a condition on the authored body: which
 of its lines are still title sources once the first pass has removed one.
 */
module OrgIdempotence {
  import opened Wrappers
  import opened Text
  import opened Render
  import opened CanonicalLaws

  // Cutting blanks from the end of a line hardly changes what kind of line it is

  lemma CutText(line: string, k: nat)
    requires k <= |line| && Blank(line[k..]) && !Blank(line)
    ensures !Blank(line[..k]) && TrimStart(line[..k]) != []
    ensures TrimStart(line) == TrimStart(line[..k]) + line[k..]
  {
    assert line == line[..k] + line[k..];
    BlankAppend(line[..k], line[k..]);
    TrimStartAppend(line[..k], line[k..]);
    TrimStartSplits(line[..k]);
  }

  /** A prefix without whitespace is not reached by blanks that follow. */
  lemma PrefixBeforeBlanks(t: string, b: string, prefix: string)
    requires Blank(b) && forall i :: 0 <= i < |prefix| ==> !IsWhitespace(prefix[i])
    ensures StartsWith(t + b, prefix) <==> StartsWith(t, prefix)
  {
    if |t| < |prefix| && b != [] {
      assert (t + b)[|t|] == b[0] && !IsWhitespace(prefix[|t|]);
    }
    if StartsWith(t + b, prefix) {
      assert t == (t + b)[..|t|];
    }
  }

  lemma WhitespaceHasNoCase(c: char)
    requires IsWhitespace(c)
    ensures AsciiLower(c) == c
  {
    if 'A' <= c <= 'Z' {
      GraphicIsNotWhitespace(c);
    }
  }

  lemma LowercaseOfBlanks(t: string, b: string)
    requires Blank(b)
    ensures ToAsciiLowercase(t + b) == ToAsciiLowercase(t) + b
  {
    forall i | 0 <= i < |b|
      ensures AsciiLower(b[i]) == b[i]
    {
      WhitespaceHasNoCase(b[i]);
    }
    var lower := ToAsciiLowercase(t + b);
    assert forall i :: 0 <= i < |t + b| ==> lower[i] == (ToAsciiLowercase(t) + b)[i];
  }

  const TITLE_MARK := "#+title:"

  lemma TitleMarkIsInk()
    ensures forall i :: 0 <= i < |TITLE_MARK| ==> !IsWhitespace(TITLE_MARK[i])
  {
    forall i | 0 <= i < |TITLE_MARK|
      ensures !IsWhitespace(TITLE_MARK[i])
    {
      GraphicIsNotWhitespace(TITLE_MARK[i]);
    }
  }

  lemma CutKeepsTitle(line: string, k: nat)
    requires k <= |line| && Blank(line[k..]) && !Blank(line)
    ensures IsTitleLine(line[..k]) <==> IsTitleLine(line)
  {
    var t, b := TrimStart(line[..k]), line[k..];
    CutText(line, k);
    LowercaseOfBlanks(t, b);
    TitleMarkIsInk();
    PrefixBeforeBlanks(ToAsciiLowercase(t), b, TITLE_MARK);
  }

  lemma CutKeepsHeader(line: string, k: nat)
    requires k <= |line| && Blank(line[k..]) && !Blank(line)
    ensures IsHeaderLine(line[..k]) <==> IsHeaderLine(line)
  {
    CutText(line, k);
    GraphicIsNotWhitespace('#');
    GraphicIsNotWhitespace('+');
    PrefixBeforeBlanks(TrimStart(line[..k]), line[k..], "#+");
  }

  /** Only a heading that is cut down to its star stops being one. */
  lemma CutHeading(line: string, k: nat)
    requires k <= |line| && Blank(line[k..]) && !Blank(line)
    ensures IsHeading(line[..k]) <==> IsHeading(line) && TrimStart(line[..k]) != "*"
  {
    var t, b := TrimStart(line[..k]), line[k..];
    CutText(line, k);
    if |t| >= 2 {
      assert (t + b)[..2] == t[..2];
    } else {
      assert t == [t[0]] && (t + b)[0] == t[0];
    }
  }

  /** Both lines hold text and are title lines, header lines alike. */
  predicate SameKind(a: string, b: string) {
    && (Blank(a) <==> Blank(b))
    && (IsTitleLine(a) <==> IsTitleLine(b))
    && (IsHeaderLine(a) <==> IsHeaderLine(b))
  }

  lemma CutKeepsKind(line: string, k: nat)
    requires k <= |line| && Blank(line[k..])
    ensures SameKind(line[..k], line)
  {
    if Blank(line) {
      TitleLineIsHeader(line);
      TitleLineIsHeader(line[..k]);
    } else {
      CutText(line, k);
      CutKeepsTitle(line, k);
      CutKeepsHeader(line, k);
    }
  }

  lemma TrimEndKind(line: string)
    ensures SameKind(TrimEnd(line), line)
  {
    TrimEndSplits(line);
    var k := |TrimEnd(line)|;
    assert TrimEnd(line) == line[..k];
    CutKeepsKind(line, k);
  }

  lemma TrimEndHeading(line: string)
    requires !Blank(line)
    ensures IsHeading(TrimEnd(line)) <==> IsHeading(line) && Trim(line) != "*"
  {
    TrimEndSplits(line);
    var k := |TrimEnd(line)|;
    assert TrimEnd(line) == line[..k];
    TrimIsTrimStartOfTrimEnd(line);
    CutHeading(line, k);
  }

  lemma StripCrSplits(line: string)
    ensures var k := |StripCr(line)|;
            StripCr(line) == line[..k] && Blank(line[k..]) && (k < |line| ==> line[k..] == "\r")
  {
    SpacesAreWhitespace();
  }

  lemma StripCrKind(line: string)
    ensures SameKind(StripCr(line), line)
  {
    StripCrSplits(line);
    CutKeepsKind(line, |StripCr(line)|);
  }

  lemma StripCrHeading(line: string)
    requires !Blank(line)
    ensures IsHeading(StripCr(line)) <==> IsHeading(line)
  {
    var k := |StripCr(line)|;
    StripCrSplits(line);
    CutText(line, k);
    CutHeading(line, k);
    if k < |line| && TrimStart(line[..k]) == "*" {
      assert TrimStart(line) == "*\r";
      assert "*\r"[..2][1] == '\r';
    }
  }

  // Title lines in front, line by line

  /** A title line with header lines in front of it only. */
  predicate TitleAhead(ls: seq<string>) {
    ls != [] && IsHeaderLine(ls[0]) && (IsTitleLine(ls[0]) || TitleAhead(ls[1..]))
  }

  lemma {:induction false} HeaderTitleAhead(ls: seq<string>)
    ensures HasTitle(ls[..HeaderLength(ls)]) <==> TitleAhead(ls)
  {
    if ls != [] && IsHeaderLine(ls[0]) {
      HeaderTitleAhead(ls[1..]);
      var e := HeaderLength(ls[1..]);
      assert ls[..e + 1] == [ls[0]] + ls[1..][..e];
      HasTitleCons(ls[0], ls[1..][..e]);
    }
  }

  lemma HasTitleCons(line: string, ls: seq<string>)
    ensures HasTitle([line] + ls) <==> IsTitleLine(line) || HasTitle(ls)
  {
    var all := [line] + ls;
    assert all[0] == line && forall i :: 0 <= i < |ls| ==> all[i + 1] == ls[i];
  }

  lemma {:induction false} TitleAheadStripped(ls: seq<string>)
    ensures TitleAhead(StripCrs(ls)) <==> TitleAhead(ls)
  {
    if ls != [] {
      StripCrKind(ls[0]);
      TitleAheadStripped(ls[1..]);
      assert StripCrs(ls)[1..] == StripCrs(ls[1..]);
    }
  }

  predicate AllHeader(ls: seq<string>) {
    forall i :: 0 <= i < |ls| ==> IsHeaderLine(ls[i])
  }

  lemma {:induction false} TitleAheadSnoc(ls: seq<string>, line: string)
    ensures TitleAhead(ls + [line]) <==> TitleAhead(ls) || (AllHeader(ls) && IsTitleLine(line))
  {
    if ls == [] {
      assert ls + [line] == [line];
      TitleLineIsHeader(line);
    } else {
      assert (ls + [line])[0] == ls[0] && (ls + [line])[1..] == ls[1..] + [line];
      TitleAheadSnoc(ls[1..], line);
      assert AllHeader(ls) <==> IsHeaderLine(ls[0]) && AllHeader(ls[1..]) by {
        assert ls == [ls[0]] + ls[1..];
      }
    }
  }

  lemma {:induction false} TitleAheadTrimmed(ls: seq<string>)
    ensures TitleAhead(TrimTail(ls)) <==> TitleAhead(ls)
  {
    if ls != [] {
      var front, last := ls[..|ls| - 1], ls[|ls| - 1];
      assert ls == front + [last];
      TitleAheadSnoc(front, last);
      if Blank(last) {
        TitleLineIsHeader(last);
        TitleAheadTrimmed(front);
      } else {
        TrimEndKind(last);
        TitleAheadSnoc(front, TrimEnd(last));
      }
    }
  }

  lemma {:induction false} TitleAheadDropped(ls: seq<string>)
    ensures TitleAhead(DropLeadingBlank(ls)) <==> TitleAhead(ls)
  {
    if ls != [] && Blank(ls[0]) {
      TitleLineIsHeader(ls[0]);
      TitleAheadDropped(ls[1..]);
    }
  }

  lemma TitleAheadCons(line: string, ls: seq<string>)
    ensures TitleAhead([line] + ls) <==> IsHeaderLine(line) && (IsTitleLine(line) || TitleAhead(ls))
  {
    assert ([line] + ls)[1..] == ls;
  }

  lemma NonTitleCons(line: string, h: seq<string>, rest: seq<string>)
    ensures NonTitle([line] + h) + rest ==
            if IsTitleLine(line) then NonTitle(h) + rest else [line] + (NonTitle(h) + rest)
  {
    assert ([line] + h)[1..] == h;
  }

  /** Once the header has lost its title lines, none is ahead. */
  lemma {:induction false} NoTitleAhead(h: seq<string>, rest: seq<string>)
    requires rest == [] || !IsHeaderLine(rest[0])
    ensures !TitleAhead(NonTitle(h) + rest)
  {
    if h == [] {
      assert NonTitle(h) + rest == rest;
    } else {
      NoTitleAhead(h[1..], rest);
      assert h == [h[0]] + h[1..];
      NonTitleCons(h[0], h[1..], rest);
      TitleAheadCons(h[0], NonTitle(h[1..]) + rest);
    }
  }

  // The lines of a stored body

  /** Trimming the tail cuts the lines behind the last text and trims that text's line. */
  lemma {:induction false} TrimTailParts(ls: seq<string>)
    ensures var t := TrimTail(ls);
            && |t| <= |ls|
            && (t != [] ==> t[|t| - 1] == TrimEnd(ls[|t| - 1]) && !Blank(ls[|t| - 1]))
            && (forall i :: 0 <= i < |t| - 1 ==> t[i] == ls[i])
            && AllBlank(ls[|t|..])
  {
    if ls != [] {
      var front, last := ls[..|ls| - 1], ls[|ls| - 1];
      assert ls == front + [last];
      if Blank(last) {
        TrimTailParts(front);
        var n := |TrimTail(front)|;
        assert ls[n..] == front[n..] + [last];
      }
    }
  }

  /** Which lines stand in front of the last text. */
  lemma BeforeLastText(ls: seq<string>, i: nat)
    requires i < |ls|
    ensures i + 1 < |TrimTail(ls)| <==> !AllBlank(ls[i + 1..])
  {
    TrimTailParts(ls);
    var n := |TrimTail(ls)|;
    if i + 1 < n {
      assert ls[i + 1..][n - 1 - (i + 1)] == ls[n - 1];
    } else {
      assert ls[i + 1..] == ls[n..][i + 1 - n..];
    }
  }

  /** The first line is a heading and stays one when the lines are trimmed at their end. */
  predicate StoredHeading(ls: seq<string>) {
    ls != [] && IsHeading(ls[0]) && (Trim(ls[0]) != "*" || !AllBlank(ls[1..]))
  }

  lemma TrimTailHead(ls: seq<string>)
    requires ls != [] && !Blank(ls[0])
    ensures TrimTail(ls) != []
    ensures TrimTail(ls)[0] == if AllBlank(ls[1..]) then TrimEnd(ls[0]) else ls[0]
  {
    TrimTailShape(ls);
    TrimTailParts(ls);
    BeforeLastText(ls, 0);
  }

  lemma FirstStoredHeading(ls: seq<string>)
    requires ls != [] && !Blank(ls[0])
    ensures TrimTail(ls) != []
    ensures IsHeading(StripCr(StripCr(TrimTail(ls)[0]))) <==> StoredHeading(ls)
  {
    TrimTailHead(ls);
    var first := TrimTail(ls)[0];
    TrimEndKind(ls[0]);
    TrimEndHeading(ls[0]);
    StripCrHeading(first);
    BlankStripCr(first);
    StripCrHeading(StripCr(first));
  }

  /** Some line with text at or in front of it and text behind it ends with two CRs. */
  predicate DoubledCr(ls: seq<string>) {
    exists i :: 0 <= i < |ls| && DoubleCr(ls[i]) && !AllBlank(ls[..i + 1]) && !AllBlank(ls[i + 1..])
  }

  predicate NoDoubleCr(ls: seq<string>) {
    forall i :: 0 <= i < |ls| ==> !DoubleCr(ls[i])
  }

  lemma {:induction false} StrippedTwice(ls: seq<string>)
    ensures StripCrs(StripCrs(ls)) == StripCrs(ls) <==> NoDoubleCr(ls)
  {
    if ls != [] {
      StrippedTwice(ls[1..]);
      DoubleCrIsStripTwice(ls[0]);
      DoubleCrsCons(ls[0], ls[1..]);
      assert ls == [ls[0]] + ls[1..];
    }
  }

  lemma TrimmedNoDoubleCr(line: string)
    ensures !DoubleCr(TrimEnd(line))
  {
    TrimEndSplits(line);
    SpacesAreWhitespace();
  }

  lemma InnerLine(ls: seq<string>, i: nat)
    requires i < |ls| && !AllBlank(ls[i + 1..])
    ensures i < |TrimTail(ls)| && TrimTail(ls)[i] == ls[i]
  {
    TrimTailParts(ls);
    BeforeLastText(ls, i);
  }

  lemma DoubleCrIsInner(ls: seq<string>, i: nat)
    requires ls != [] && !Blank(ls[0]) && i < |TrimTail(ls)| && DoubleCr(TrimTail(ls)[i])
    ensures i < |ls| && DoubleCr(ls[i]) && !AllBlank(ls[..i + 1]) && !AllBlank(ls[i + 1..])
  {
    var t := TrimTail(ls);
    TrimTailParts(ls);
    TrimmedNoDoubleCr(ls[|t| - 1]);
    BeforeLastText(ls, i);
    assert ls[..i + 1][0] == ls[0];
  }

  lemma InnerDoubleCr(ls: seq<string>)
    requires ls != [] && !Blank(ls[0])
    ensures NoDoubleCr(TrimTail(ls)) <==> !DoubledCr(ls)
  {
    if i :| 0 <= i < |ls| && DoubleCr(ls[i]) && !AllBlank(ls[..i + 1]) && !AllBlank(ls[i + 1..]) {
      InnerLine(ls, i);
    }
    if i :| 0 <= i < |TrimTail(ls)| && DoubleCr(TrimTail(ls)[i]) {
      DoubleCrIsInner(ls, i);
    }
  }

  lemma BlankPrefix(blanks: seq<string>, ls: seq<string>, i: nat)
    requires AllBlank(blanks) && i <= |ls|
    ensures AllBlank((blanks + ls)[..|blanks| + i]) <==> AllBlank(ls[..i])
    ensures (blanks + ls)[|blanks| + i..] == ls[i..]
  {
    var all := (blanks + ls)[..|blanks| + i];
    assert all == blanks + ls[..i];
    assert forall j :: 0 <= j < i ==> all[|blanks| + j] == ls[..i][j];
  }

  lemma BlankFront(blanks: seq<string>, ls: seq<string>, k: nat)
    requires AllBlank(blanks) && k <= |blanks|
    ensures AllBlank((blanks + ls)[..k])
  {
    assert (blanks + ls)[..k] == blanks[..k];
  }

  lemma BehindBlanks(blanks: seq<string>, ls: seq<string>)
    requires AllBlank(blanks)
    ensures DoubledCr(blanks + ls) <==> DoubledCr(ls)
  {
    var all, n := blanks + ls, |blanks|;
    if i :| 0 <= i < |ls| && DoubleCr(ls[i]) && !AllBlank(ls[..i + 1]) && !AllBlank(ls[i + 1..]) {
      BlankPrefix(blanks, ls, i + 1);
      assert all[n + i] == ls[i];
    }
    if i :| 0 <= i < |all| && DoubleCr(all[i]) && !AllBlank(all[..i + 1]) && !AllBlank(all[i + 1..]) {
      BlankFront(blanks, ls, if i < n then i + 1 else 0);
      BlankPrefix(blanks, ls, i - n + 1);
      assert all[i] == ls[i - n];
    }
  }

  lemma {:induction false} LeadingBlanks(ls: seq<string>) returns (blanks: seq<string>)
    ensures AllBlank(blanks) && ls == blanks + DropLeadingBlank(ls)
  {
    if ls != [] && Blank(ls[0]) {
      var more := LeadingBlanks(ls[1..]);
      blanks := [ls[0]] + more;
      AllBlankCons(ls[0], more);
      assert ls == [ls[0]] + ls[1..];
    } else {
      blanks := [];
    }
  }

  lemma DoubledCrDropped(ls: seq<string>)
    ensures DoubledCr(DropLeadingBlank(ls)) <==> DoubledCr(ls)
  {
    var blanks := LeadingBlanks(ls);
    BehindBlanks(blanks, DropLeadingBlank(ls));
  }

  // Which title sources a pass leaves

  /**
   A title source is left for the next pass: a title line or a heading right under the
   dropped heading, or a heading under a header that held nothing but title lines.
   */
  predicate LeavesTitleSource(ls: seq<string>) {
    var e := HeaderLength(ls);
    if DropsHeading(ls) then
      var rest := DropLeadingBlank(ls[e + 1..]);
      HasTitle(rest[..HeaderLength(rest)]) || StoredHeading(rest)
    else
      HasTitle(ls[..e]) && AllBlank(NonTitle(ls[..e])) && StoredHeading(ls[e..])
  }

  lemma UnderDroppedHeading(ls: seq<string>)
    requires DropsHeading(ls)
    ensures OrgKept(ls) == DropLeadingBlank(ls[HeaderLength(ls) + 1..])
  {
    var e := HeaderLength(ls);
    BlankHeader(ls[..e], ls[e + 1..]);
  }

  lemma {:induction false} NonTitleIsHeader(h: seq<string>)
    requires AllHeader(h)
    ensures AllHeader(NonTitle(h))
  {
    if h != [] {
      NonTitleIsHeader(h[1..]);
    }
  }

  lemma HeaderNotHeading(h: seq<string>, rest: seq<string>)
    requires AllHeader(h) && !AllBlank(h)
    ensures var kept := DropLeadingBlank(h + rest); kept != [] && !IsHeading(kept[0])
  {
    DropLeadingBlankAppend(h, rest);
    DropLeadingBlankEmpty(h);
    DropLeadingBlankSuffix(h);
    var kept := DropLeadingBlank(h);
    assert IsHeaderLine(kept[0]);
    TitleLineIsHeader(kept[0]);
  }

  /** With no heading dropped, only a heading that follows nothing but title lines is left. */
  lemma UnderKeptHeader(ls: seq<string>)
    requires !DropsHeading(ls)
    ensures !TitleAhead(OrgKept(ls))
    ensures StoredHeading(OrgKept(ls)) <==> LeavesTitleSource(ls)
  {
    var e := HeaderLength(ls);
    var h, rest := ls[..e], ls[e..];
    NoTitleAhead(h, rest);
    TitleAheadDropped(NonTitle(h) + rest);
    NonTitleIsHeader(h);
    if AllBlank(NonTitle(h)) {
      DropLeadingBlankEmpty(NonTitle(h));
      DropLeadingBlankAppend(NonTitle(h), rest);
      assert OrgKept(ls) == rest;
      BlankAfterTitles(ls);
    } else {
      HeaderNotHeading(NonTitle(h), rest);
    }
  }

  lemma BlankAfterTitles(ls: seq<string>)
    requires !DropsHeading(ls)
    ensures var e := HeaderLength(ls);
            StoredHeading(ls[e..]) && AllBlank(NonTitle(ls[..e])) ==> HasTitle(ls[..e])
  {
    NonTitleIdentity(ls[..HeaderLength(ls)]);
  }

  lemma TitleSourceLeft(ls: seq<string>)
    ensures TitleAhead(OrgKept(ls)) || StoredHeading(OrgKept(ls)) <==> LeavesTitleSource(ls)
  {
    if DropsHeading(ls) {
      UnderDroppedHeading(ls);
      HeaderTitleAhead(OrgKept(ls));
    } else {
      UnderKeptHeader(ls);
    }
  }

  // The condition

  lemma CanonIsStripped(ls: seq<string>)
    requires ls != [] && !Blank(ls[0])
    ensures Canon(ls) == StripCrs(TrimTail(ls)) && Canon(ls) != []
  {
    TrimTailHead(ls);
    TrimEndKind(ls[0]);
    BlankStripCr(TrimTail(ls)[0]);
  }

  /** A stored body is settled exactly when its kept lines leave no title source and no CR. */
  lemma SettledKept(kept: seq<string>)
    requires kept != [] && !Blank(kept[0]) && LfFree(kept)
    ensures Settled(Unlines(Canon(kept))) <==> !TitleAhead(kept) && !StoredHeading(kept) && !DoubledCr(kept)
  {
    var t := TrimTail(kept);
    CanonIsStripped(kept);
    TrimTailShape(kept);
    LfFreeStripCrs(t);
    var ls := StripCrs(t);
    LinesOfUnlines(ls);
    CrBeforeLfOfUnlines(ls);
    StrippedTwice(t);
    InnerDoubleCr(kept);
    FirstStoredHeading(kept);
    HeaderTitleAhead(StripCrs(ls));
    TitleAheadStripped(ls);
    TitleAheadStripped(t);
    TitleAheadTrimmed(kept);
  }

  /** A body is stored exactly when some authored line has text. */
  lemma StoredExactly(body: string)
    ensures CanonicalizeOrg(body).Some? <==> !AllBlank(AuthoredLines(Lines(body)))
  {
    var authored := AuthoredLines(Lines(body));
    CanonicalizeOrgShape(body);
    DropLeadingBlankEmpty(authored);
    DropLeadingBlankSuffix(authored);
    if OrgKept(Lines(body)) != [] {
      CanonIsStripped(OrgKept(Lines(body)));
    }
  }

  /**
   A second pass changes nothing exactly when the body leaves no title source under the first
   one, and no authored line between the first and the last text ends with two CRs.
   */
  lemma OrgIdempotence(body: string)
    requires CanonicalizeOrg(body).Some?
    ensures var ls := Lines(body);
            var c := CanonicalizeOrg(body).value;
            CanonicalizeOrg(c) == Some(c) <==> !LeavesTitleSource(ls) && !DoubledCr(AuthoredLines(ls))
  {
    var ls := Lines(body);
    OrgSecondPass(body);
    CanonicalizeOrgShape(body);
    StoredExactly(body);
    DropLeadingBlankEmpty(AuthoredLines(ls));
    DropLeadingBlankSuffix(AuthoredLines(ls));
    OrgKeptLfFree(ls);
    SettledKept(OrgKept(ls));
    TitleSourceLeft(ls);
    DoubledCrDropped(AuthoredLines(ls));
  }
}
