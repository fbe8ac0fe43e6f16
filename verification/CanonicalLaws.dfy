/**
 The laws of body canonicalization: exactly when a second pass changes nothing, and
 that a pass removes no authored content.
 */
module CanonicalLaws {
  import opened Wrappers
  import opened Text
  import opened PostText
  import opened Render

  // Whitespace normalization is idempotent exactly on bodies without CR CR LF

  predicate CrCrLfAt(s: string, i: nat) {
    i + 2 < |s| && s[i] == '\r' && s[i + 1] == '\r' && s[i + 2] == '\n'
  }

  predicate CrCrLf(s: string) {
    exists i :: 0 <= i < |s| && CrCrLfAt(s, i)
  }

  /** A line that still ends with a CR after losing one. */
  predicate DoubleCr(line: string) {
    |line| >= 2 && line[|line| - 1] == '\r' && line[|line| - 2] == '\r'
  }

  lemma CrCrLfInside(head: string, rest: string, i: nat)
    requires '\n' !in head && CrCrLfAt(head + "\n" + rest, i)
    ensures DoubleCr(head) || (i > |head| && CrCrLfAt(rest, i - |head| - 1))
  {
    var s, n := head + "\n" + rest, |head|;
    assert s[n] == '\n' && forall k :: 0 <= k < n ==> s[k] == head[k];
  }

  lemma CrCrLfEnds(head: string, rest: string)
    requires DoubleCr(head)
    ensures CrCrLfAt(head + "\n" + rest, |head| - 2)
  {
  }

  lemma CrCrLfBehind(head: string, rest: string, i: nat)
    requires CrCrLfAt(rest, i)
    ensures CrCrLfAt(head + "\n" + rest, |head| + 1 + i)
  {
  }

  lemma CrCrLfCons(head: string, rest: string)
    requires '\n' !in head
    ensures CrCrLf(head + "\n" + rest) <==> DoubleCr(head) || CrCrLf(rest)
  {
    if DoubleCr(head) {
      CrCrLfEnds(head, rest);
    } else if i :| 0 <= i < |head + "\n" + rest| && CrCrLfAt(head + "\n" + rest, i) {
      CrCrLfInside(head, rest, i);
    } else if i :| 0 <= i < |rest| && CrCrLfAt(rest, i) {
      CrCrLfBehind(head, rest, i);
    }
  }

  lemma DoubleCrIsStripTwice(line: string)
    ensures DoubleCr(line) <==> StripCr(StripCr(line)) != StripCr(line)
  {
  }

  lemma DoubleCrsCons(head: string, tail: seq<string>)
    ensures var ls := [head] + tail;
            StripCrs(StripCrs(ls)) == StripCrs(ls) <==>
            StripCr(StripCr(head)) == StripCr(head) && StripCrs(StripCrs(tail)) == StripCrs(tail)
  {
    var ls := [head] + tail;
    assert StripCrs(ls) == [StripCr(head)] + StripCrs(tail);
    assert StripCrs(StripCrs(ls)) == [StripCr(StripCr(head))] + StripCrs(StripCrs(tail));
  }

  lemma SingleLineCrs(line: string)
    requires '\n' !in line && !DoubleCr(line)
    ensures !CrCrLf(Join([line])) && StripCrs(StripCrs([line])) == StripCrs([line])
  {
    DoubleCrIsStripTwice(line);
  }

  lemma CrCrLfOfJoinStep(head: string, tail: seq<string>)
    requires '\n' !in head && tail != []
    requires CrCrLf(Join(tail)) <==> StripCrs(StripCrs(tail)) != StripCrs(tail)
    ensures var ls := [head] + tail; CrCrLf(Join(ls)) <==> StripCrs(StripCrs(ls)) != StripCrs(ls)
  {
    assert Join([head] + tail) == head + "\n" + Join(tail);
    CrCrLfCons(head, Join(tail));
    DoubleCrIsStripTwice(head);
    DoubleCrsCons(head, tail);
  }

  lemma {:induction false} CrCrLfOfJoin(ls: seq<string>)
    requires LfFree(ls) && ls != [] && !DoubleCr(ls[|ls| - 1])
    ensures CrCrLf(Join(ls)) <==> StripCrs(StripCrs(ls)) != StripCrs(ls)
  {
    var head, tail := ls[0], ls[1..];
    assert ls == [head] + tail;
    if tail == [] {
      SingleLineCrs(head);
    } else {
      CrCrLfOfJoin(tail);
      CrCrLfOfJoinStep(head, tail);
    }
  }

  lemma TrimIsTrimStartOfTrimEnd(s: string)
    ensures Trim(s) == TrimStart(TrimEnd(s))
  {
    TrimStartSplits(s);
    var n :| 0 <= n <= |s| && Blank(s[..n]) && TrimStart(s) == s[n..];
    var t := s[n..];
    assert s == s[..n] + t;
    if Blank(t) {
      BlankAppend(s[..n], t);
      TrimSplits(s);
      TrimEndSplits(s);
    } else {
      TrimEndAppend(s[..n], t);
      TrimEndSplits(t);
      TrimStartBlankPrefix(s[..n], TrimEnd(t));
      assert TrimEnd(t)[0] == t[0];
    }
  }

  /** Trimming a joined text at its start drops its leading blank lines and indents its first line. */
  lemma {:induction false} TrimStartOfJoin(ls: seq<string>)
    ensures TrimStart(Join(ls)) == TrimStart(Join(DropLeadingBlank(ls)))
  {
    if ls != [] && Blank(ls[0]) {
      SpacesAreWhitespace();
      if |ls| == 1 {
        TrimStartSplits(ls[0]);
      } else {
        BlankAppend(ls[0], "\n");
        TrimStartBlankPrefix(ls[0] + "\n", Join(ls[1..]));
        TrimStartOfJoin(ls[1..]);
      }
    }
  }

  lemma TrimStartOfFirst(ls: seq<string>)
    requires ls != [] && !Blank(ls[0])
    ensures TrimStart(Join(ls)) == Join([TrimStart(ls[0])] + ls[1..])
  {
    if |ls| > 1 {
      TrimStartAppend(ls[0], "\n" + Join(ls[1..]));
      assert ls[0] + ("\n" + Join(ls[1..])) == Join(ls);
      assert ([TrimStart(ls[0])] + ls[1..])[1..] == ls[1..];
    }
  }

  lemma TrimStartKeepsDoubleCr(line: string)
    requires !Blank(line)
    ensures DoubleCr(TrimStart(line)) <==> DoubleCr(line)
  {
    TrimStartSplits(line);
    var n :| 0 <= n <= |line| && Blank(line[..n]) && TrimStart(line) == line[n..];
    SpacesAreWhitespace();
    assert !IsWhitespace(line[n]);
  }

  /** Replacing the first line by its unindented form does not change where CRs double up. */
  lemma DoubleCrsOfUnindented(ls: seq<string>)
    requires ls != [] && !Blank(ls[0])
    ensures var us := [TrimStart(ls[0])] + ls[1..];
            StripCrs(StripCrs(us)) != StripCrs(us) <==> StripCrs(StripCrs(ls)) != StripCrs(ls)
  {
    var head, tail := ls[0], ls[1..];
    assert ls == [head] + tail;
    StrippedHead(head, tail);
    StrippedHead(TrimStart(head), tail);
    TrimStartKeepsDoubleCr(head);
  }

  lemma StrippedHead(head: string, tail: seq<string>)
    ensures var ls := [head] + tail;
            StripCrs(StripCrs(ls)) == StripCrs(ls) <==> !DoubleCr(head) && StripCrs(StripCrs(tail)) == StripCrs(tail)
  {
    DoubleCrIsStripTwice(head);
    DoubleCrsCons(head, tail);
  }

  lemma NormalizeCanonicalFixed(ls: seq<string>)
    requires CanonicalLines(ls)
    ensures Normalize(Unlines(ls)) == Unlines(ls) <==> StripCrs(ls) == ls
  {
    NormalizeCanonical(ls);
    StrippingShortens(ls);
  }

  /**
   Normalizing twice is normalizing once exactly when the trimmed body holds no CR CR LF.
   In particular it is idempotent on every body without carriage returns.
   */
  lemma NormalizeIdempotence(body: string)
    ensures Normalize(Normalize(body)) == Normalize(body) <==> !CrCrLf(Trim(body))
  {
    var ps := Pieces(body);
    var t := TrimTail(ps);
    var d := DropLeadingBlank(t);
    NormalizeShape(body);
    NormalizeCanonicalFixed(Canon(ps));
    StripCrsKeepsBlankness(t);
    assert Canon(ps) == StripCrs(d);
    TrimOfPieces(body);
    TrimTailShape(ps);
    if t == [] {
      assert d == [];
      assert StripCrs([]) == [];
    } else {
      DropLeadingBlankKeepsInk(t);
      DropLeadingBlankSuffix(t);
      DoubleCrsOfUnindented(d);
      var us := [TrimStart(d[0])] + d[1..];
      TrimStartOfFirst(d);
      UnindentedLast(d);
      CrCrLfOfJoin(us);
    }
  }

  lemma TrimOfPieces(body: string)
    ensures Trim(body) == TrimStart(Join(DropLeadingBlank(TrimTail(Pieces(body)))))
  {
    TrimIsTrimStartOfTrimEnd(body);
    JoinOfPieces(body);
    TrimEndOfJoin(Pieces(body));
    TrimStartOfJoin(TrimTail(Pieces(body)));
  }

  lemma UnindentedLast(ls: seq<string>)
    requires EndsInInk(ls) && LfFree(ls) && !Blank(ls[0])
    ensures var us := [TrimStart(ls[0])] + ls[1..];
            LfFree(us) && !DoubleCr(us[|us| - 1])
  {
    var us := [TrimStart(ls[0])] + ls[1..];
    LfFreeTrimStart(ls[0]);
    assert forall i :: 1 <= i < |us| ==> us[i] == ls[i];
    InkLastLine(ls);
    assert !DoubleCr(ls[|ls| - 1]);
    if |ls| == 1 {
      TrimStartKeepsDoubleCr(ls[0]);
    }
  }

  // A second Org pass

  /** A stored Org body on which another pass does nothing. */
  predicate Settled(c: string) {
    var ls := Lines(c);
    && !CrBeforeLf(c)
    && !HasTitle(ls[..HeaderLength(ls)])
    && ls != []
    && !IsHeading(ls[0])
  }

  lemma CanonicalizeOrgShape(body: string)
    ensures var ls := Canon(OrgKept(Lines(body)));
            && CanonicalLines(ls)
            && Normalize(Join(OrgKept(Lines(body)))) == Unlines(ls)
            && CanonicalizeOrg(body) == if ls == [] then None else Some(Unlines(ls))
  {
    var kept := OrgKept(Lines(body));
    OrgKeptLfFree(Lines(body));
    NormalizeJoin(kept);
    var ls := Canon(kept);
    BodyDoor(Unlines(ls));
    if ls != [] {
      UnlinesBlank(ls);
    }
  }

  lemma UnlinesBlank(ls: seq<string>)
    requires ls != [] && !Blank(ls[0])
    ensures !Blank(Unlines(ls))
  {
    BlankAppend(ls[0], "\n" + Unlines(ls[1..]));
    assert ls[0] + ("\n" + Unlines(ls[1..])) == Unlines(ls);
  }

  lemma OrgKeptLfFree(ls: seq<string>)
    requires LfFree(ls)
    ensures LfFree(OrgKept(ls))
  {
    NonTitleIdentity(ls[..HeaderLength(ls)]);
    DropLeadingBlankSuffix(AuthoredLines(ls));
  }

  /** Blank lines in front are no title sources, and are dropped. */
  lemma BlankHeader(h: seq<string>, rest: seq<string>)
    requires AllBlank(h) && !HasTitle(h)
    ensures DropLeadingBlank(NonTitle(h) + rest) == DropLeadingBlank(rest)
  {
    NonTitleIdentity(h);
    DropLeadingBlankEmpty(h);
    DropLeadingBlankAppend(h, rest);
  }

  // How much text a list of lines amounts to

  lemma {:induction false} UnlinesLength(a: seq<string>, b: seq<string>)
    ensures |Unlines(a + b)| == |Unlines(a)| + |Unlines(b)|
  {
    if a == [] {
      assert a + b == b;
    } else {
      assert (a + b)[1..] == a[1..] + b;
      UnlinesLength(a[1..], b);
    }
  }

  lemma CanonShortens(ls: seq<string>)
    ensures |Unlines(Canon(ls))| <= |Unlines(ls)|
  {
    TrimTailShortens(ls);
    StrippingShortens(TrimTail(ls));
    DropShortens(StripCrs(TrimTail(ls)));
  }

  lemma DropShortens(ls: seq<string>)
    ensures |Unlines(DropLeadingBlank(ls))| <= |Unlines(ls)|
  {
    DropLeadingBlankSuffix(ls);
    var r := DropLeadingBlank(ls);
    var n := |ls| - |r|;
    assert ls == ls[..n] + r;
    UnlinesLength(ls[..n], r);
  }

  lemma {:induction false} TrimTailShortens(ls: seq<string>)
    ensures |Unlines(TrimTail(ls))| <= |Unlines(ls)|
  {
    if ls != [] {
      var front, last := ls[..|ls| - 1], ls[|ls| - 1];
      assert ls == front + [last];
      UnlinesLength(front, [last]);
      if Blank(last) {
        TrimTailShortens(front);
      } else {
        TrimEndSplits(last);
        UnlinesLength(front, [TrimEnd(last)]);
      }
    }
  }

  /** Removing the title sources keeps every line, or keeps strictly less text. */
  lemma AuthoredShortens(ls: seq<string>)
    ensures |Unlines(AuthoredLines(ls))| <= |Unlines(ls)|
    ensures if HasTitle(ls[..HeaderLength(ls)]) || DropsHeading(ls)
            then |Unlines(AuthoredLines(ls))| < |Unlines(ls)|
            else AuthoredLines(ls) == ls
  {
    var e := HeaderLength(ls);
    var h, rest := ls[..e], ls[e..];
    assert ls == h + rest;
    UnlinesLength(h, rest);
    NonTitleIdentity(h);
    if DropsHeading(ls) {
      assert rest == [ls[e]] + ls[e + 1..];
      UnlinesLength([ls[e]], ls[e + 1..]);
      UnlinesLength(NonTitle(h), ls[e + 1..]);
    } else {
      UnlinesLength(NonTitle(h), rest);
    }
  }

  /** The scan keeps every line, or keeps strictly less text. */
  lemma OrgKeptShortens(ls: seq<string>)
    requires ls != [] && !Blank(ls[0])
    ensures |Unlines(OrgKept(ls))| <= |Unlines(ls)|
    ensures if HasTitle(ls[..HeaderLength(ls)]) || IsHeading(ls[0])
            then |Unlines(OrgKept(ls))| < |Unlines(ls)|
            else OrgKept(ls) == ls
  {
    HeadingAtStart(ls);
    AuthoredShortens(ls);
    DropShortens(AuthoredLines(ls));
  }

  lemma HeadingAtStart(ls: seq<string>)
    requires ls != [] && !Blank(ls[0])
    ensures DropsHeading(ls) <==> IsHeading(ls[0])
  {
    TitleLineIsHeader(ls[0]);
    if HeaderLength(ls) > 0 {
      assert ls[..HeaderLength(ls)][0] == ls[0];
    }
  }

  /**
   A second Org pass leaves a stored body alone exactly when it is settled; on any other
   stored body it errs or makes the body strictly shorter.
   */
  lemma OrgSecondPass(body: string)
    requires CanonicalizeOrg(body).Some?
    ensures var c := CanonicalizeOrg(body).value;
            if Settled(c) then CanonicalizeOrg(c) == Some(c)
            else CanonicalizeOrg(c).None? || |CanonicalizeOrg(c).value| < |c|
  {
    CanonicalizeOrgShape(body);
    var ls := Canon(OrgKept(Lines(body)));
    var c := Unlines(ls);
    var ms := StripCrs(ls);
    LinesOfUnlines(ls);
    CrBeforeLfOfUnlines(ls);
    BlankStripCr(ls[0]);
    OrgKeptShortens(ms);
    CanonicalizeOrgShape(c);
    if Settled(c) {
      NormalizeCanonical(ls);
    } else {
      CanonShortens(OrgKept(ms));
      StrippingShortens(ls);
    }
  }

  /** Repeating the pass always stops, at a settled body or with an error. */
  function SettledForm(body: string): (r: Option<string>)
    ensures r.Some? ==> Settled(r.value) && CanonicalizeOrg(r.value) == r
    decreases match CanonicalizeOrg(body) case None => 0 case Some(c) => |c| + 1
  {
    match CanonicalizeOrg(body)
    case None => None
    case Some(c) =>
      OrgSecondPass(body);
      if Settled(c) then Some(c) else SettledForm(c)
  }

  lemma PassOnLines(ls: seq<string>, kept: seq<string>)
    requires LfFree(ls) && StripCrs(ls) == ls && OrgKept(ls) == kept
    requires kept != [] && CanonicalLines(kept) && StripCrs(kept) == kept
    ensures CanonicalizeOrg(Unlines(ls)) == Some(Unlines(kept))
  {
    LinesOfUnlines(ls);
    CanonicalizeOrgShape(Unlines(ls));
    NormalizeCanonical(kept);
  }

  /** A heading under a title header outlives one pass and is the title source of the next. */
  lemma HeadingUnderTitle(title: string, heading: string, text: string)
    requires LfFree([title, heading, text]) && StripCrs([title, heading, text]) == [title, heading, text]
    requires IsTitleLine(title) && IsHeading(heading)
    requires !IsHeaderLine(text) && !IsHeading(text) && EndsInInk([text])
    ensures CanonicalizeOrg(Unlines([title, heading, text])) == Some(Unlines([heading, text]))
    ensures CanonicalizeOrg(Unlines([heading, text])) == Some(Unlines([text]))
  {
    var ls, rest := [title, heading, text], [heading, text];
    assert ls[1..] == rest && rest[1..] == [text];
    StripCrsOfSuffix(ls);
    StripCrsOfSuffix(rest);
    TitleLineIsHeader(heading);
    TitleIsKeptOut(title, rest);
    assert [title] + rest == ls;
    PassOnLines(ls, rest);
    HeadingIsKeptOut(heading, text);
    PassOnLines(rest, [text]);
  }

  lemma TitleIsKeptOut(title: string, rest: seq<string>)
    requires IsTitleLine(title) && rest != [] && !IsHeaderLine(rest[0])
    ensures OrgKept([title] + rest) == rest
  {
    var ls := [title] + rest;
    TitleLineIsHeader(title);
    HeaderLengthAt(ls, 1);
    assert ls[..1] == [title] && [title][0] == title && NonTitle([title]) == [];
    assert ls[1..] == rest && AuthoredLines(ls) == rest;
  }

  lemma HeadingIsKeptOut(heading: string, text: string)
    requires IsHeading(heading) && !Blank(text)
    ensures OrgKept([heading, text]) == [text]
  {
    var ls := [heading, text];
    TitleLineIsHeader(heading);
    HeaderLengthAt(ls, 0);
    assert ls[..0] == [] && ls[1..] == [text] && AuthoredLines(ls) == [text];
  }

  lemma StripCrsOfSuffix(ls: seq<string>)
    requires ls != [] && StripCrs(ls) == ls
    ensures StripCrs(ls[1..]) == ls[1..]
  {
  }

  /** So stored bodies are not always settled. */
  lemma OrgPassIsNotIdempotent()
    ensures CanonicalizeOrg(Unlines(["#+TITLE:T", "* H", "x"])) == Some(Unlines(["* H", "x"]))
    ensures CanonicalizeOrg(Unlines(["* H", "x"])) == Some(Unlines(["x"]))
  {
    ExampleTitle();
    ExampleHeading();
    ExampleText();
    ExamplePlain();
    HeadingUnderTitle("#+TITLE:T", "* H", "x");
  }

  lemma ExamplePlain()
    ensures LfFree(["#+TITLE:T", "* H", "x"]) && StripCrs(["#+TITLE:T", "* H", "x"]) == ["#+TITLE:T", "* H", "x"]
  {
  }

  lemma LowercaseCons(c: char, s: string)
    ensures ToAsciiLowercase([c] + s) == [AsciiLower(c)] + ToAsciiLowercase(s)
  {
  }

  lemma ExampleKeyword()
    ensures ToAsciiLowercase("TITLE:") == "title:"
  {
    LowercaseCons('T', "ITLE:");
    LowercaseCons('I', "TLE:");
    LowercaseCons('T', "LE:");
    LowercaseCons('L', "E:");
    LowercaseCons('E', ":");
    LowercaseCons(':', "");
  }

  lemma LowercaseMarked(keyword: string, value: string)
    requires ToAsciiLowercase(keyword) == "title:"
    ensures ToAsciiLowercase("#+" + keyword + value) == "#+title:" + ToAsciiLowercase(value)
  {
    LowercaseOfThree("#+", keyword, value);
    MarkIsLower();
  }

  lemma LowercaseOfThree(a: string, b: string, c: string)
    ensures ToAsciiLowercase(a + b + c) == ToAsciiLowercase(a) + ToAsciiLowercase(b) + ToAsciiLowercase(c)
  {
    LowercaseAppend(a + b, c);
    LowercaseAppend(a, b);
  }

  lemma HashIsInk(line: string)
    requires line != [] && line[0] == '#'
    ensures TrimStart(line) == line
  {
    GraphicIsNotWhitespace('#');
  }

  /** `#+` and a title keyword in any case, then any value. */
  lemma TitleLineOf(keyword: string, value: string)
    requires ToAsciiLowercase(keyword) == "title:"
    ensures IsTitleLine("#+" + keyword + value)
  {
    HashIsInk("#+" + keyword + value);
    LowercaseMarked(keyword, value);
  }

  lemma LowercaseAppend(a: string, b: string)
    ensures ToAsciiLowercase(a + b) == ToAsciiLowercase(a) + ToAsciiLowercase(b)
  {
  }

  lemma MarkIsLower()
    ensures ToAsciiLowercase("#+") == "#+" && "#+" + "title:" == "#+title:"
  {
  }

  lemma ExampleTitle()
    ensures IsTitleLine("#+TITLE:T")
  {
    ExampleKeyword();
    TitleLineOf("TITLE:", "T");
    assert "#+" + "TITLE:" + "T" == "#+TITLE:T";
  }

  lemma ExampleHeading()
    ensures IsHeading("* H")
  {
    GraphicIsNotWhitespace('*');
    assert "* H"[..2] == "* ";
  }

  lemma ExampleText()
    ensures !IsHeaderLine("x") && !IsHeading("x") && EndsInInk(["x"])
  {
    GraphicIsNotWhitespace('x');
    assert "x"[0] == 'x';
  }

  // Nothing authored is lost

  lemma {:induction false} InkTrimTail(ls: seq<string>)
    ensures Ink(Unlines(TrimTail(ls))) == Ink(Unlines(ls))
  {
    if ls != [] {
      var front, last := ls[..|ls| - 1], ls[|ls| - 1];
      assert ls == front + [last];
      InkUnlinesSnoc(front, last);
      if Blank(last) {
        InkTrimTail(front);
        InkBlank(last);
      } else {
        TrimEndSplits(last);
        InkUnlinesSnoc(front, TrimEnd(last));
        assert last == TrimEnd(last) + last[|TrimEnd(last)|..];
        InkAppend(TrimEnd(last), last[|TrimEnd(last)|..]);
        InkBlank(last[|TrimEnd(last)|..]);
      }
    }
  }

  lemma InkUnlinesSnoc(ls: seq<string>, line: string)
    ensures Ink(Unlines(ls + [line])) == Ink(Unlines(ls)) + Ink(line)
  {
    UnlinesSnoc(ls, line);
    InkAppend(Unlines(ls) + line, "\n");
    InkAppend(Unlines(ls), line);
  }

  lemma {:induction false} InkStripCrs(ls: seq<string>)
    ensures Ink(Unlines(StripCrs(ls))) == Ink(Unlines(ls))
  {
    if ls != [] {
      InkStripCrs(ls[1..]);
      InkStripCr(ls[0]);
      InkUnlinesCons(ls[0], ls[1..]);
      InkUnlinesCons(StripCr(ls[0]), StripCrs(ls[1..]));
      assert ls == [ls[0]] + ls[1..];
    }
  }

  /**
   The text an Org pass stores has, in order, every non-whitespace scalar of the authored
   lines: all lines but the `#+title:` lines of the header and at most one heading.
   A pass errs exactly when those lines are all blank.
   */
  lemma OrgKeepsAuthoredInk(body: string)
    ensures var authored := AuthoredLines(Lines(body));
            match CanonicalizeOrg(body)
            case Some(c) => Ink(c) == Ink(Unlines(authored))
            case None => AllBlank(authored)
  {
    CanonicalizeOrgShape(body);
    var authored := AuthoredLines(Lines(body));
    var kept := OrgKept(Lines(body));
    InkDropLeadingBlank(authored);
    InkTrimTail(kept);
    InkStripCrs(TrimTail(kept));
    InkDropLeadingBlank(StripCrs(TrimTail(kept)));
    if Canon(kept) == [] {
      InkBlankLines(authored);
    }
  }

  lemma {:induction false} InkBlankLines(ls: seq<string>)
    requires Ink(Unlines(ls)) == []
    ensures AllBlank(ls)
  {
    if ls != [] {
      assert ls == [ls[0]] + ls[1..];
      InkUnlinesCons(ls[0], ls[1..]);
      InkBlank(ls[0]);
      InkBlankLines(ls[1..]);
      AllBlankCons(ls[0], ls[1..]);
    }
  }
}
