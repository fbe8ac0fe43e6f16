/**
 What is stored of a body, said of the text itself: which lines an Org pass removes, and what
 the whitespace pass makes of a text, scalar by scalar.
 */
module BodyText {
  import opened Wrappers
  import opened Text
  import opened PostText
  import opened Render
  import opened CanonicalLaws

  // Which lines an Org pass removes, line by line

  predicate AllHeader(ls: seq<string>) {
    forall k :: 0 <= k < |ls| ==> IsHeaderLine(ls[k])
  }

  /** `#+title:` in any case, behind any indentation. */
  ghost predicate TitleKeyword(line: string) {
    exists n :: 0 <= n <= |line| - 8 && Blank(line[..n]) && ToAsciiLowercase(line[n..n + 8]) == "#+title:"
  }

  /** Blank, or `#+` behind any indentation. */
  ghost predicate KeywordOrBlank(line: string) {
    Blank(line) || exists n :: 0 <= n <= |line| - 2 && Blank(line[..n]) && line[n] == '#' && line[n + 1] == '+'
  }

  /** One star and a space, behind any indentation. */
  ghost predicate StarLine(line: string) {
    exists n :: 0 <= n <= |line| - 2 && Blank(line[..n]) && line[n] == '*' && line[n + 1] == ' '
  }

  /**
   Line `i` gives the post its title: a title keyword with nothing but keywords and blank lines
   before it, or a heading with nothing but blank lines before it.
   */
  ghost predicate GivesTitle(ls: seq<string>, i: nat)
    requires i < |ls|
  {
    || (TitleKeyword(ls[i]) && forall k :: 0 <= k < i ==> KeywordOrBlank(ls[k]))
    || (StarLine(ls[i]) && forall k :: 0 <= k < i ==> Blank(ls[k]))
  }

  /** Those of the first `n` lines that give no title. */
  ghost function Others(ls: seq<string>, n: nat): seq<string>
    requires n <= |ls|
  {
    if n == 0 then [] else Others(ls, n - 1) + if GivesTitle(ls, n - 1) then [] else [ls[n - 1]]
  }

  /** The indentation of a line ends where its text starts. */
  lemma IndentEnds(line: string, n: nat)
    requires n < |line| && Blank(line[..n]) && !IsWhitespace(line[n])
    ensures TrimStart(line) == line[n..] && !Blank(line)
  {
    TrimStartBlankPrefix(line[..n], line[n..]);
    assert line == line[..n] + line[n..];
    BlankAppend(line[..n], line[n..]);
  }

  lemma TextStart(line: string) returns (n: nat)
    ensures n <= |line| && Blank(line[..n]) && TrimStart(line) == line[n..]
    ensures n < |line| ==> !IsWhitespace(line[n])
    ensures Blank(line) <==> n == |line|
  {
    TrimStartSplits(line);
    n :| 0 <= n <= |line| && Blank(line[..n]) && TrimStart(line) == line[n..];
    assert line == line[..n] + line[n..];
    BlankAppend(line[..n], line[n..]);
  }

  lemma StarLineIsHeading(line: string)
    ensures StarLine(line) <==> IsHeading(line)
  {
    var n := TextStart(line);
    GraphicIsNotWhitespace('*');
    if StarLine(line) {
      var k :| 0 <= k <= |line| - 2 && Blank(line[..k]) && line[k] == '*' && line[k + 1] == ' ';
      IndentEnds(line, k);
      assert line[k..][..2] == "* ";
    }
    if IsHeading(line) {
      assert line[n..][..2] == "* ";
      assert line[n] == line[n..][0] && line[n + 1] == line[n..][1];
    }
  }

  lemma KeywordOrBlankIsHeaderLine(line: string)
    ensures KeywordOrBlank(line) <==> IsHeaderLine(line)
  {
    var n := TextStart(line);
    GraphicIsNotWhitespace('#');
    if !Blank(line) {
      if KeywordOrBlank(line) {
        var k :| 0 <= k <= |line| - 2 && Blank(line[..k]) && line[k] == '#' && line[k + 1] == '+';
        IndentEnds(line, k);
        assert line[k..][..2] == "#+";
      }
      if IsHeaderLine(line) {
        assert line[n..][..2] == "#+";
        assert line[n] == line[n..][0] && line[n + 1] == line[n..][1];
      }
    }
  }

  lemma PrefixOfSum(head: string, tail: string, mark: string)
    requires |head| == |mark|
    ensures StartsWith(head + tail, mark) <==> head == mark
  {
    assert (head + tail)[..|mark|] == head;
  }

  lemma KeywordOfSum(t: string, head: string, tail: string, mark: string)
    requires |head| == |mark| && t == head + tail
    ensures StartsWith(ToAsciiLowercase(t), mark) <==> ToAsciiLowercase(head) == mark
  {
    LowercaseAppend(head, tail);
    PrefixOfSum(ToAsciiLowercase(head), ToAsciiLowercase(tail), mark);
  }

  lemma KeywordStarts(t: string, mark: string)
    ensures StartsWith(ToAsciiLowercase(t), mark) <==> |t| >= |mark| && ToAsciiLowercase(t[..|mark|]) == mark
  {
    if |t| >= |mark| {
      SliceAt(t, |mark|);
      KeywordOfSum(t, t[..|mark|], t[|mark|..], mark);
    }
  }

  lemma SliceAt<T>(s: seq<T>, n: nat)
    requires n <= |s|
    ensures s == s[..n] + s[n..]
  {
  }

  lemma TitleKeywordIsTitleLine(line: string, mark: string)
    requires mark == "#+title:" && |mark| == 8 && mark[0] == '#'
    ensures TitleKeyword(line) <==> IsTitleLine(line)
  {
    var n := TextStart(line);
    GraphicIsNotWhitespace('#');
    KeywordStarts(line[n..], mark);
    if n + 8 <= |line| {
      assert line[n..][..8] == line[n..n + 8];
    }
    if TitleKeyword(line) {
      var k :| 0 <= k <= |line| - 8 && Blank(line[..k]) && ToAsciiLowercase(line[k..k + 8]) == mark;
      assert AsciiLower(line[k..k + 8][0]) == '#';
      IndentEnds(line, k);
      assert line[k..][..8] == line[k..k + 8];
      KeywordStarts(line[k..], mark);
    }
  }

  lemma GivesTitleByParts(ls: seq<string>, i: nat)
    requires i < |ls|
    ensures GivesTitle(ls, i) <==>
            (IsTitleLine(ls[i]) && AllHeader(ls[..i])) || (IsHeading(ls[i]) && AllBlank(ls[..i]))
  {
    TitleKeywordIsTitleLine(ls[i], "#+title:");
    StarLineIsHeading(ls[i]);
    forall k | 0 <= k < i
      ensures KeywordOrBlank(ls[k]) <==> IsHeaderLine(ls[k])
    {
      KeywordOrBlankIsHeaderLine(ls[k]);
    }
    assert AllHeader(ls[..i]) <==> forall k :: 0 <= k < i ==> IsHeaderLine(ls[k]);
  }

  lemma {:induction false} OthersOfHeader(ls: seq<string>, n: nat)
    requires n <= HeaderLength(ls)
    ensures Others(ls, n) == NonTitle(ls[..n])
  {
    if n > 0 {
      var line := ls[n - 1];
      OthersOfHeader(ls, n - 1);
      GivesTitleByParts(ls, n - 1);
      TitleLineIsHeader(line);
      assert ls[..n] == ls[..n - 1] + [line];
      NonTitleAppend(ls[..n - 1], [line]);
      assert NonTitle([line]) == if IsTitleLine(line) then [] else [line] + [];
    }
  }

  lemma AssociateLines(a: seq<string>, b: seq<string>, c: seq<string>)
    ensures a + b + c == a + (b + c)
  {
  }

  lemma OthersStep(ls: seq<string>, n: nat)
    requires n < |ls|
    ensures Others(ls, n + 1) == Others(ls, n) + if GivesTitle(ls, n) then [] else [ls[n]]
  {
  }

  lemma SliceSnoc<T>(s: seq<T>, i: nat, n: nat)
    requires i <= n < |s|
    ensures s[i..n + 1] == s[i..n] + [s[n]]
  {
  }

  /** Behind the header of `e` lines, only the line right after it can give a title. */
  lemma {:induction false} OthersOfRest(ls: seq<string>, e: nat, start: nat, n: nat)
    requires e == HeaderLength(ls) < n <= |ls| && start == e + if GivesTitle(ls, e) then 1 else 0
    ensures Others(ls, n) == NonTitle(ls[..e]) + ls[start..n]
  {
    OthersStep(ls, n - 1);
    if n == e + 1 {
      OthersOfHeader(ls, e);
      assert ls[start..n] == if start == n then [] else [ls[n - 1]];
    } else {
      OthersOfRest(ls, e, start, n - 1);
      NoneBehind(ls, n - 1);
      SliceSnoc(ls, start, n - 1);
      AssociateLines(NonTitle(ls[..e]), ls[start..n - 1], [ls[n - 1]]);
    }
  }

  lemma NoneBehind(ls: seq<string>, i: nat)
    requires HeaderLength(ls) < i < |ls|
    ensures !GivesTitle(ls, i)
  {
    var e := HeaderLength(ls);
    GivesTitleByParts(ls, i);
    assert ls[..i][e] == ls[e] && !IsHeaderLine(ls[e]);
  }

  lemma FirstBehindHeader(ls: seq<string>)
    requires HeaderLength(ls) < |ls|
    ensures GivesTitle(ls, HeaderLength(ls)) <==> DropsHeading(ls)
  {
    var e := HeaderLength(ls);
    GivesTitleByParts(ls, e);
    TitleLineIsHeader(ls[e]);
    if AllBlank(ls[..e]) {
      forall k | 0 <= k < e
        ensures !IsTitleLine(ls[..e][k])
      {
        TitleLineIsHeader(ls[..e][k]);
      }
    }
  }

  lemma RemovedInHeader(ls: seq<string>)
    requires HeaderLength(ls) == |ls|
    ensures AuthoredLines(ls) == NonTitle(ls)
  {
    assert ls[..|ls|] == ls && ls[|ls|..] == [];
    assert NonTitle(ls) + [] == NonTitle(ls);
  }

  lemma AuthoredByStart(ls: seq<string>)
    ensures AuthoredLines(ls) == NonTitle(ls[..HeaderLength(ls)]) + ls[BodyStart(ls)..]
  {
  }

  lemma SliceToEnd<T>(s: seq<T>, n: nat)
    requires n <= |s|
    ensures s[n..|s|] == s[n..]
  {
  }

  /** An Org pass removes the lines that give a title and no other. */
  lemma RemovedExactly(ls: seq<string>)
    ensures AuthoredLines(ls) == Others(ls, |ls|)
  {
    if HeaderLength(ls) == |ls| {
      RemovedInHeader(ls);
      OthersOfHeader(ls, |ls|);
      assert ls[..|ls|] == ls;
    } else {
      AuthoredByStart(ls);
      FirstBehindHeader(ls);
      SliceToEnd(ls, BodyStart(ls));
      OthersOfRest(ls, HeaderLength(ls), BodyStart(ls), |ls|);
    }
  }

  // What the whitespace pass stores

  /** The text without each CR that stands directly in front of an LF. */
  function DropCrs(s: string): string {
    if s == [] then []
    else if s[0] == '\r' && |s| > 1 && s[1] == '\n' then DropCrs(s[1..])
    else [s[0]] + DropCrs(s[1..])
  }

  lemma {:induction false} DropCrsOfLine(line: string, rest: string)
    requires '\n' !in line
    ensures DropCrs(line + "\n" + rest) == StripCr(line) + "\n" + DropCrs(rest)
  {
    var s := line + "\n" + rest;
    if line == [] {
      assert s[1..] == rest;
    } else {
      assert s[1..] == line[1..] + "\n" + rest;
      DropCrsOfLine(line[1..], rest);
      StripCrCons(line);
    }
  }

  lemma StripCrCons(line: string)
    requires line != []
    ensures StripCr(line) == if line == "\r" then [] else [line[0]] + StripCr(line[1..])
  {
    assert line == [line[0]] + line[1..];
  }

  lemma {:induction false} DropCrsWithoutLf(s: string)
    requires '\n' !in s
    ensures DropCrs(s) == s
  {
    if s != [] {
      DropCrsWithoutLf(s[1..]);
    }
  }

  /** Reading the lines of a text and closing each with an LF. */
  lemma {:induction false} UnlinesOfLines(s: string)
    requires s != [] && s[|s| - 1] != '\n'
    ensures Unlines(Lines(s)) == DropCrs(s) + "\n"
    decreases |s|
  {
    if '\n' in s {
      var i := IndexOf(s, '\n');
      var line, rest := s[..i], s[i + 1..];
      CutAtLf(s);
      UnlinesOfLines(rest);
      LinesStep(line, rest);
      DropCrsOfLine(line, rest);
      assert ([StripCr(line)] + Lines(rest))[1..] == Lines(rest);
      Associate(StripCr(line) + "\n", DropCrs(rest), "\n");
    } else {
      DropCrsWithoutLf(s);
      assert Lines(s) == [s];
    }
  }

  lemma Associate(a: string, b: string, c: string)
    ensures a + b + c == a + (b + c)
  {
  }

  lemma LineOfSum(line: string, rest: string, b: string)
    requires '\n' !in line && Lines(rest + b) == Lines(rest) + Lines(b)
    ensures Lines(line + "\n" + rest + b) == Lines(line + "\n" + rest) + Lines(b)
  {
    LinesStep(line, rest);
    LinesStep(line, rest + b);
    Associate(line + "\n", rest, b);
    AssociateLines([StripCr(line)], Lines(rest), Lines(b));
  }

  lemma {:induction false} LinesOfSum(a: string, b: string)
    requires a == [] || a[|a| - 1] == '\n'
    ensures Lines(a + b) == Lines(a) + Lines(b)
    decreases |a|
  {
    if a == [] {
      assert a + b == b;
    } else {
      var i := IndexOf(a, '\n');
      CutAtLf(a);
      LinesOfSum(a[i + 1..], b);
      LineOfSum(a[..i], a[i + 1..], b);
    }
  }

  lemma IndexBehind(s: string, c: char, k: nat)
    requires k <= |s| && c !in s[..k]
    ensures IndexOf(s, c) >= k
  {
    assert forall j :: 0 <= j < k ==> s[j] == s[..k][j];
  }

  /** The first line of the text is not blank. */
  ghost predicate StartsWithText(t: string) {
    exists k :: 0 <= k < |t| && '\n' !in t[..k] && !IsWhitespace(t[k])
  }

  lemma FirstLineHasText(t: string)
    requires StartsWithText(t)
    ensures Lines(t) != [] && !Blank(Lines(t)[0])
  {
    var k :| 0 <= k < |t| && '\n' !in t[..k] && !IsWhitespace(t[k]);
    SpacesAreWhitespace();
    IndexBehind(t, '\n', k);
    var i := IndexOf(t, '\n');
    if i < |t| {
      assert t[..i][k] == t[k];
      BlankStripCr(t[..i]);
    }
  }

  predicate EndsLine(s: string) {
    s == [] || s[|s| - 1] == '\n'
  }

  lemma KeptBehindBlanks(before: string, t: string)
    requires Blank(before) && EndsLine(before)
    requires Lines(t) != [] && !Blank(Lines(t)[0])
    ensures DropLeadingBlank(Lines(before + t)) == Lines(t)
  {
    LinesOfSum(before, t);
    LinesAllBlank(before);
    DropLeadingBlankEmpty(Lines(before));
    DropLeadingBlankAppend(Lines(before), Lines(t));
  }

  /** The text `t` goes from the first line that has text to the last scalar that is text. */
  ghost predicate Cut(body: string, before: string, t: string, after: string) {
    && body == before + t + after
    && Blank(before) && EndsLine(before) && Blank(after)
    && StartsWithText(t) && !IsWhitespace(t[|t| - 1])
  }

  lemma EndTrimmed(s: string, after: string)
    requires s != [] && !IsWhitespace(s[|s| - 1]) && Blank(after)
    ensures TrimEnd(s + after) == s
  {
    TrimEndBlankSuffix(s, after);
  }

  lemma CutIsKept(body: string, before: string, t: string, after: string)
    requires Cut(body, before, t, after)
    ensures NormalizedLines(body) == Lines(t)
  {
    FirstLineHasText(t);
    EndTrimmed(before + t, after);
    KeptBehindBlanks(before, t);
  }

  /**
   The whitespace pass keeps the text from its first line with text to its last scalar that is
   text, drops each CR in front of an LF there, and adds one LF.
   */
  lemma NormalizedText(body: string, before: string, t: string, after: string)
    requires Cut(body, before, t, after)
    ensures Normalize(body) == DropCrs(t) + "\n"
  {
    SpacesAreWhitespace();
    CutIsKept(body, before, t, after);
    UnlinesOfLines(t);
  }

  lemma CutAt(body: string, n: nat, k: nat, m: nat)
    requires n <= k < m <= |body| && Blank(body[..n]) && EndsLine(body[..n]) && Blank(body[m..])
    requires '\n' !in body[n..k] && !IsWhitespace(body[k]) && !IsWhitespace(body[m - 1])
    ensures Cut(body, body[..n], body[n..m], body[m..])
  {
    var t := body[n..m];
    assert t[..k - n] == body[n..k] && t[k - n] == body[k];
    SplitTwice(body, n, m);
  }

  lemma SplitTwice(s: string, n: nat, m: nat)
    requires n <= m <= |s|
    ensures s == s[..n] + s[n..m] + s[m..]
  {
  }

  lemma TextRange(body: string) returns (k: nat, m: nat)
    requires !Blank(body)
    ensures k < m <= |body| && Blank(body[..k]) && Blank(body[m..])
    ensures !IsWhitespace(body[k]) && !IsWhitespace(body[m - 1])
  {
    TrimEndSplits(body);
    m := |TrimEnd(body)|;
    k := TextStart(body);
    assert TrimEnd(body)[m - 1] == body[m - 1];
    assert forall i :: 0 <= i < k ==> body[..k][i] == body[i];
  }

  /** Every body with text can be cut so; of any other nothing is stored. */
  lemma CutOf(body: string) returns (before: string, t: string, after: string)
    ensures if Blank(body) then Normalize(body) == "" else Cut(body, before, t, after)
  {
    before, t, after := "", "", "";
    if Blank(body) {
      TrimEndSplits(body);
    } else {
      var k, m := TextRange(body);
      var n := LineStart(body, k);
      BlankPart(body, n, k);
      CutAt(body, n, k, m);
      before, t, after := body[..n], body[n..m], body[m..];
    }
  }

  lemma BlankPart(s: string, n: nat, k: nat)
    requires n <= k <= |s| && Blank(s[..k])
    ensures Blank(s[..n])
  {
    assert forall i :: 0 <= i < n ==> s[..n][i] == s[..k][i];
  }

  /** Where the line that holds position `k` starts. */
  lemma {:induction false} LineStart(body: string, k: nat) returns (n: nat)
    requires k <= |body|
    ensures n <= k && (n == 0 || body[n - 1] == '\n') && '\n' !in body[n..k]
  {
    n := k;
    if k > 0 && body[k - 1] != '\n' {
      n := LineStart(body, k - 1);
      assert body[n..k] == body[n..k - 1] + [body[k - 1]];
    }
  }

  /**
   What each format stores of a body: HTML as it stands, Markdown normalized, Org normalized
   without the lines that give a title; a body that leaves no text is refused.
   */
  lemma StoredByFormat(body: string)
    ensures CanonicalizeBody(body, Html) == Some(body)
    ensures CanonicalizeBody(body, Markdown) == if Blank(body) then None else Some(Normalize(body))
    ensures var others := Others(Lines(body), |Lines(body)|);
            CanonicalizeBody(body, Org) ==
            if AllBlank(others) then None else Some(Normalize(Join(DropLeadingBlank(others))))
  {
    NormalizeKeepsInk(body);
    InkBlank(body);
    InkBlank(Normalize(body));
    BodyDoor(Normalize(body));
    RemovedExactly(Lines(body));
    OrgKeepsAuthoredInk(body);
    OrgStores(body);
  }

  lemma OrgStores(body: string)
    ensures CanonicalizeOrg(body).Some? ==>
              CanonicalizeOrg(body).value == Normalize(Join(OrgKept(Lines(body))))
              && !AllBlank(AuthoredLines(Lines(body)))
  {
    CanonicalizeOrgShape(body);
    var authored := AuthoredLines(Lines(body));
    if AllBlank(authored) {
      DropLeadingBlankEmpty(authored);
    }
  }
}
