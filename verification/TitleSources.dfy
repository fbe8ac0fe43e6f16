/**
 The Org title scanner and the Org canonicalizer (`common/src/render.rs`) read the same
 lines by different rules: which line of a body is published as its title, and what becomes
 of the title lines that canonicalization removes.
 */
module TitleSources {
  import opened Wrappers
  import opened Text
  import opened PostText
  import opened Render
  import opened CanonicalLaws
  import opened OrgIdempotence
  import opened Titles

  // The lines with content, trimmed, are the same in a text and in the trimmed text

  function Texts(ls: seq<string>): seq<string> {
    if ls == [] then [] else if Blank(ls[0]) then Texts(ls[1..]) else [Trim(ls[0])] + Texts(ls[1..])
  }

  lemma TextsCons(line: string, ls: seq<string>)
    ensures Texts([line] + ls) == (if Blank(line) then [] else [Trim(line)]) + Texts(ls)
  {
    assert ([line] + ls)[1..] == ls;
  }

  lemma {:induction false} TextsSnoc(ls: seq<string>, line: string)
    ensures Texts(ls + [line]) == Texts(ls) + if Blank(line) then [] else [Trim(line)]
  {
    if ls == [] {
      assert ls + [line] == [line];
      TextsCons(line, []);
    } else {
      TextsSnoc(ls[1..], line);
      assert ls + [line] == [ls[0]] + (ls[1..] + [line]);
      TextsCons(ls[0], ls[1..] + [line]);
    }
  }

  lemma {:induction false} TextsOfLines(s: string)
    ensures Texts(Lines(s)) == Texts(Pieces(s))
    decreases |s|
  {
    var i := IndexOf(s, '\n');
    if s != [] && i < |s| {
      TextsOfLines(s[i + 1..]);
      TrimStripCr(s[..i]);
      BlankStripCr(s[..i]);
      TextsCons(StripCr(s[..i]), Lines(s[i + 1..]));
      TextsCons(s[..i], Pieces(s[i + 1..]));
    }
  }

  /** The pieces of a text with one more scalar in front. */
  function AddFront(c: char, ps: seq<string>): seq<string>
    requires ps != []
  {
    if c == '\n' then [""] + ps else [[c] + ps[0]] + ps[1..]
  }

  /** The pieces of a text with one more scalar behind. */
  function AddBack(ps: seq<string>, c: char): seq<string>
    requires ps != []
  {
    if c == '\n' then ps + [""] else ps[..|ps| - 1] + [ps[|ps| - 1] + [c]]
  }

  lemma PiecesCons(c: char, t: string)
    ensures Pieces([c] + t) == AddFront(c, Pieces(t))
  {
    var s, i := [c] + t, IndexOf(t, '\n');
    assert s[1..] == t;
    if c != '\n' && i < |t| {
      assert s[..i + 1] == [c] + t[..i] && s[i + 2..] == t[i + 1..];
    }
  }

  lemma FrontAndBack(d: char, ps: seq<string>, c: char)
    requires ps != []
    ensures AddFront(d, AddBack(ps, c)) == AddBack(AddFront(d, ps), c)
  {
    var front, last := ps[..|ps| - 1], ps[|ps| - 1];
    if c == '\n' {
      if d != '\n' {
        assert (ps + [""])[1..] == ps[1..] + [""];
      }
    } else if d == '\n' {
      assert ([""] + ps)[..|ps|] == [""] + front;
    } else if |ps| == 1 {
      assert [d] + (ps[0] + [c]) == ([d] + ps[0]) + [c];
    } else {
      var first, middle := [d] + ps[0], ps[1..|ps| - 1];
      assert ([first] + ps[1..])[..|ps| - 1] == [first] + middle;
      assert (front + [last + [c]])[1..] == middle + [last + [c]];
    }
  }

  lemma {:induction false} PiecesSnoc(t: string, c: char)
    ensures Pieces(t + [c]) == AddBack(Pieces(t), c)
  {
    if t == [] {
      assert t + [c] == [c] + t;
      PiecesCons(c, t);
    } else {
      var d, rest := t[0], t[1..];
      assert t == [d] + rest && t + [c] == [d] + (rest + [c]);
      PiecesSnoc(rest, c);
      PiecesCons(d, rest);
      PiecesCons(d, rest + [c]);
      FrontAndBack(d, Pieces(rest), c);
    }
  }

  lemma SpaceBefore(c: char, line: string)
    requires IsWhitespace(c)
    ensures Trim([c] + line) == Trim(line) && (Blank([c] + line) <==> Blank(line))
  {
    assert ([c] + line)[1..] == line;
    BlankAppend([c], line);
  }

  lemma SpaceAfter(line: string, c: char)
    requires IsWhitespace(c)
    ensures Trim(line + [c]) == Trim(line) && (Blank(line + [c]) <==> Blank(line))
  {
    TrimBlankSuffix(line, [c]);
    BlankAppend(line, [c]);
  }

  lemma TextsBefore(c: char, t: string)
    requires IsWhitespace(c)
    ensures Texts(Pieces([c] + t)) == Texts(Pieces(t))
  {
    var ps := Pieces(t);
    PiecesCons(c, t);
    SpaceBefore(c, ps[0]);
    TextsCons("", ps);
    TextsCons(ps[0], ps[1..]);
    TextsCons([c] + ps[0], ps[1..]);
    assert ps == [ps[0]] + ps[1..];
  }

  lemma TextsAfter(t: string, c: char)
    requires IsWhitespace(c)
    ensures Texts(Pieces(t + [c])) == Texts(Pieces(t))
  {
    PiecesSnoc(t, c);
    TextsOfAddBack(Pieces(t), c);
  }

  lemma TextsOfAddBack(ps: seq<string>, c: char)
    requires ps != [] && IsWhitespace(c)
    ensures Texts(AddBack(ps, c)) == Texts(ps)
  {
    if c == '\n' {
      TextsSnoc(ps, "");
    } else {
      var front, last := ps[..|ps| - 1], ps[|ps| - 1];
      SpaceAfter(last, c);
      TextsSnoc(front, last);
      TextsSnoc(front, last + [c]);
      assert ps == front + [last];
    }
  }

  lemma {:induction false} TextsOfTrimStart(s: string)
    ensures Texts(Pieces(TrimStart(s))) == Texts(Pieces(s))
  {
    if s != [] && IsWhitespace(s[0]) {
      TextsOfTrimStart(s[1..]);
      TextsBefore(s[0], s[1..]);
      assert s == [s[0]] + s[1..];
    }
  }

  lemma {:induction false} TextsOfTrimEnd(s: string)
    ensures Texts(Pieces(TrimEnd(s))) == Texts(Pieces(s))
  {
    if s != [] && IsWhitespace(s[|s| - 1]) {
      var front, last := s[..|s| - 1], s[|s| - 1];
      TextsOfTrimEnd(front);
      TextsOfSnoc(s, front, last);
    }
  }

  lemma TextsOfSnoc(s: string, front: string, last: char)
    requires s == front + [last] && IsWhitespace(last)
    ensures Texts(Pieces(s)) == Texts(Pieces(front))
  {
    TextsAfter(front, last);
  }

  /** Trimming a body changes none of its lines with content, apart from their ends. */
  lemma TextsOfTrim(s: string)
    ensures Texts(Lines(Trim(s))) == Texts(Lines(s))
  {
    TextsOfLines(s);
    TextsOfLines(Trim(s));
    TextsOfTrimStart(s);
    TextsOfTrimEnd(TrimStart(s));
  }

  // The scanner on the lines of the body

  function LinesTitle(ls: seq<string>): Option<string> {
    if ls == [] then None
    else
      match OrgTitleLine(ls[0])
      case Skip => LinesTitle(ls[1..])
      case Found(title) => Some(title)
      case Stop => None
  }

  lemma {:induction false} LinesTitleIsOrgTitle(ls: seq<string>)
    ensures match OrgTitle(ls)
            case None => LinesTitle(ls) == None
            case Some((title, _)) => LinesTitle(ls) == Some(title)
  {
    if ls != [] && OrgTitleLine(ls[0]) == Skip {
      LinesTitleIsOrgTitle(ls[1..]);
    }
  }

  lemma {:induction false} LinesTitleOfTexts(ls: seq<string>)
    ensures LinesTitle(Texts(ls)) == LinesTitle(ls)
  {
    if ls != [] {
      TrimSplits(ls[0]);
      TrimOfTrimmed(Trim(ls[0]));
      LinesTitleOfTexts(ls[1..]);
      assert OrgTitleLine(Trim(ls[0])) == OrgTitleLine(ls[0]);
    }
  }

  lemma {:induction false} LinesTitleHasText(ls: seq<string>)
    ensures match LinesTitle(ls)
            case None => true
            case Some(t) => t != [] && Trimmed(t)
  {
    if ls != [] {
      FoundTitlesHaveText(ls[0]);
      LinesTitleHasText(ls[1..]);
    }
  }

  /** A title with a line separator inside is refused. */
  function TitleResult(title: string): Result<Option<string>, InvalidPostTitle> {
    if OneLine(title) then Ok(Some(title)) else Err(InvalidPostTitle)
  }

  lemma DerivedFromLines(body: string)
    ensures DerivedTitle(None, body, Org) ==
            match LinesTitle(Lines(body))
            case None => Ok(None)
            case Some(t) => TitleResult(t)
  {
    var trimmed := Lines(Trim(body));
    TextsOfTrim(body);
    LinesTitleOfTexts(trimmed);
    LinesTitleOfTexts(Lines(body));
    LinesTitleIsOrgTitle(trimmed);
    LinesTitleHasText(trimmed);
    if LinesTitle(trimmed).Some? {
      TrimOfTrimmed(LinesTitle(trimmed).value);
    }
  }

  // What each kind of line says

  /** The text of a heading line. */
  function HeadingText(line: string): string
    requires IsHeading(line)
  {
    Trim(TrimStart(line)[2..])
  }

  /** A heading without text is trimmed to its star. */
  lemma TrimmedStar(line: string, u: string)
    requires TrimStart(line) == "* " + u && Blank(u)
    ensures Trim(line) == "*"
  {
    GraphicIsNotWhitespace('*');
    SpacesAreWhitespace();
    assert "* " + u == "*" + (" " + u);
    BlankAppend(" ", u);
    TrimEndBlankSuffix("*", " " + u);
  }

  lemma TrimmedHeading(line: string, u: string)
    requires TrimStart(line) == "* " + u && !Blank(u)
    ensures Trim(line) == "* " + TrimEnd(u) && Trim(TrimEnd(u)) == Trim(u)
  {
    TrimEndAppend("* ", u);
    TrimEndSplits(u);
    assert u == TrimEnd(u) + u[|TrimEnd(u)|..];
    TrimBlankSuffix(TrimEnd(u), u[|TrimEnd(u)|..]);
  }

  lemma OrgTitleLineOfHeading(line: string)
    requires IsHeading(line)
    ensures OrgTitleLine(line) == if HeadingText(line) == [] then Stop else Found(HeadingText(line))
  {
    var u := TrimStart(line)[2..];
    assert TrimStart(line) == "* " + u;
    TrimSplits(u);
    if Blank(u) {
      TrimmedStar(line, u);
      NoHeaderKey("*");
    } else {
      TrimmedHeading(line, u);
      var trimmed := "* " + TrimEnd(u);
      NoHeaderKey(trimmed);
      assert trimmed[..2] == "* " && trimmed[2..] == TrimEnd(u);
    }
  }

  /** The key part of a line starting with an asterisk is never an Org header key. */
  lemma NoHeaderKey(trimmed: string)
    requires trimmed != [] && trimmed[0] == '*'
    ensures match SplitOnce(trimmed, ':')
            case Some((key, _)) => ToAsciiLowercase(key) != "#+title" && !StartsWith(key, "#+")
            case None => true
  {
    match SplitOnce(trimmed, ':')
    case None =>
    case Some((key, _)) =>
      assert key != [] ==> key[0] == '*' && ToAsciiLowercase(key)[0] == '*';
  }

  /** A `#+` line without a colon: no keyword, so the scanner takes it for text and stops. */
  predicate Bare(line: string) {
    ':' !in line && StartsWith(TrimStart(line), "#+")
  }

  /** The value of a `#+title:` line. */
  function TitleValue(line: string): string
    requires IsTitleLine(line)
  {
    Trim(TrimStart(line)[8..])
  }

  predicate Titled(line: string) {
    IsTitleLine(line) && TitleValue(line) != []
  }

  /** The scan ends at this header line. */
  predicate Settles(line: string) {
    Bare(line) || Titled(line)
  }

  lemma BlankHasNoColon(b: string)
    requires Blank(b)
    ensures ':' !in b
  {
    GraphicIsNotWhitespace(':');
  }

  lemma ColonSurvivesTrim(line: string)
    ensures ':' in Trim(line) <==> ':' in line
  {
    TrimSplits(line);
    var n: nat, m: nat :| TrimsTo(line, n, m);
    BlankHasNoColon(line[..n]);
    BlankHasNoColon(line[m..]);
    assert line == line[..n] + Trim(line) + line[m..];
  }

  lemma {:induction false} FirstColonAt(t: string, n: nat)
    requires n < |t| && t[n] == ':' && ':' !in t[..n]
    ensures IndexOf(t, ':') == n
  {
    if n > 0 {
      assert t[..n][0] == t[0] && t[1..][..n - 1] == t[..n][1..];
      FirstColonAt(t[1..], n - 1);
    }
  }

  lemma ColonIsCaseless(c: char)
    ensures AsciiLower(c) == ':' <==> c == ':'
  {
  }

  lemma LowercaseAt(t: string, i: nat)
    requires i < |t|
    ensures ToAsciiLowercase(t)[i] == ':' <==> t[i] == ':'
  {
    ColonIsCaseless(t[i]);
  }

  lemma LowercasePrefix(t: string, k: nat)
    requires k <= |t|
    ensures ToAsciiLowercase(t[..k]) == ToAsciiLowercase(t)[..k]
  {
  }

  lemma TitleMarkParts(l: string)
    ensures StartsWith(l, TITLE_MARK) <==> |l| >= 8 && l[..7] == "#+title" && l[7] == ':'
  {
    if |l| >= 8 {
      assert l[..8] == l[..7] + [l[7]];
      assert TITLE_MARK == "#+title" + ":";
    }
  }

  lemma LowercaseHasColon(t: string)
    ensures ':' in t ==> ':' in ToAsciiLowercase(t)
  {
    if i :| 0 <= i < |t| && t[i] == ':' {
      LowercaseAt(t, i);
    }
  }

  lemma KeywordHasNoColon()
    ensures ':' !in "#+title"
  {
  }

  lemma MarkedKey(t: string, lower: string)
    requires lower == ToAsciiLowercase(t) && |lower| >= 8 && lower[..7] == "#+title"
    ensures ToAsciiLowercase(t[..7]) == "#+title"
  {
    LowercasePrefix(t, 7);
  }

  /** The colon of a title mark is the first one of the line. */
  lemma TitleMarkEndsKey(t: string, lower: string)
    requires lower == ToAsciiLowercase(t) && StartsWith(lower, TITLE_MARK)
    ensures |t| >= 8 && IndexOf(t, ':') == 7 && ToAsciiLowercase(t[..7]) == "#+title"
  {
    TitleMarkParts(lower);
    MarkedKey(t, lower);
    KeyEndsAtColon(t);
  }

  lemma KeyEndsAtColon(t: string)
    requires |t| >= 8 && ToAsciiLowercase(t)[7] == ':' && ToAsciiLowercase(t[..7]) == "#+title"
    ensures IndexOf(t, ':') == 7
  {
    LowercaseAt(t, 7);
    KeywordHasNoColon();
    LowercaseHasColon(t[..7]);
    FirstColonAt(t, 7);
  }

  lemma TitleKeyStarts(t: string)
    requires ':' in t && ToAsciiLowercase(t[..IndexOf(t, ':')]) == "#+title"
    ensures StartsWith(ToAsciiLowercase(t), TITLE_MARK)
  {
    LowercasePrefix(t, IndexOf(t, ':'));
    LowercaseAt(t, 7);
    TitleMarkParts(ToAsciiLowercase(t));
  }

  lemma TrimmedText(line: string)
    requires !Blank(line)
    ensures Trim(line) <= TrimStart(line) && Trim(line) != []
    ensures TrimStart(line) == Trim(line) + TrimStart(line)[|Trim(line)|..] && Blank(TrimStart(line)[|Trim(line)|..])
  {
    TrimStartSplits(line);
    TrimEndSplits(TrimStart(line));
    TrimSplits(line);
  }

  lemma TrimmedHeader(line: string)
    requires !Blank(line)
    ensures StartsWith(Trim(line), "#+") <==> StartsWith(TrimStart(line), "#+")
    ensures StartsWith(ToAsciiLowercase(Trim(line)), TITLE_MARK) <==> IsTitleLine(line)
  {
    TrimmedText(line);
    var t, b := Trim(line), TrimStart(line)[|Trim(line)|..];
    GraphicIsNotWhitespace('#');
    GraphicIsNotWhitespace('+');
    PrefixBeforeBlanks(t, b, "#+");
    LowercaseOfBlanks(t, b);
    TitleMarkIsInk();
    PrefixBeforeBlanks(ToAsciiLowercase(t), b, TITLE_MARK);
  }

  lemma TrimmedValue(line: string)
    requires IsTitleLine(line)
    ensures |Trim(line)| >= 8 && Trim(Trim(line)[8..]) == TitleValue(line)
  {
    TitleLineIsHeader(line);
    TrimmedText(line);
    TrimmedHeader(line);
    var t, b := Trim(line), TrimStart(line)[|Trim(line)|..];
    TrimBlankSuffix(t[8..], b);
    assert TrimStart(line)[8..] == t[8..] + b;
  }

  /** How the scanner reads a line of the header. */
  lemma HeaderLineRead(line: string)
    requires IsHeaderLine(line)
    ensures OrgTitleLine(line) ==
            if Bare(line) then Stop else if Titled(line) then Found(TitleValue(line)) else Skip
  {
    if Blank(line) {
      TitleLineIsHeader(line);
      TrimSplits(line);
      TrimStartSplits(line);
    } else {
      TextHeaderRead(line);
    }
  }

  lemma KeyOfHeader(t: string)
    requires StartsWith(t, "#+") && ':' in t
    ensures StartsWith(t[..IndexOf(t, ':')], "#+")
  {
    var k := IndexOf(t, ':');
    assert t[0] == '#' && t[1] == '+';
    assert k >= 2;
    assert t[..k][..2] == t[..2];
  }

  lemma KeywordRead(line: string)
    requires !Blank(line) && StartsWith(Trim(line), "#+") && ':' in Trim(line)
    ensures OrgTitleLine(line) == if Titled(line) then Found(TitleValue(line)) else Skip
  {
    var t := Trim(line);
    KeyOfHeader(t);
    TrimmedHeader(line);
    if IsTitleLine(line) {
      TitleMarkEndsKey(t, ToAsciiLowercase(t));
      TrimmedValue(line);
    } else if ToAsciiLowercase(t[..IndexOf(t, ':')]) == "#+title" {
      TitleKeyStarts(t);
    }
  }

  lemma TextHeaderRead(line: string)
    requires !Blank(line) && StartsWith(TrimStart(line), "#+")
    ensures OrgTitleLine(line) ==
            if Bare(line) then Stop else if Titled(line) then Found(TitleValue(line)) else Skip
  {
    TrimmedText(line);
    TrimmedHeader(line);
    ColonSurvivesTrim(line);
    if ':' in line {
      KeywordRead(line);
    } else {
      assert Trim(line)[0] == '#';
    }
  }

  lemma StarOfTrimmed(line: string)
    requires !Blank(line)
    ensures StartsWith(Trim(line), "* ") ==> IsHeading(line)
  {
    TrimmedText(line);
  }

  /** How the scanner reads a line that is no header line. */
  lemma BodyLineRead(line: string)
    requires !IsHeaderLine(line)
    ensures OrgTitleLine(line) ==
            if IsHeading(line) && HeadingText(line) != [] then Found(HeadingText(line)) else Stop
  {
    if IsHeading(line) {
      OrgTitleLineOfHeading(line);
    } else {
      TrimmedText(line);
      TrimmedHeader(line);
      StarOfTrimmed(line);
      if ':' in Trim(line) {
        KeyStart(Trim(line), IndexOf(Trim(line), ':'));
      }
    }
  }

  lemma KeyStart(t: string, k: nat)
    requires k <= |t|
    ensures StartsWith(t[..k], "#+") ==> StartsWith(t, "#+")
    ensures ToAsciiLowercase(t[..k]) == "#+title" ==> StartsWith(t, "#+")
  {
    if ToAsciiLowercase(t[..k]) == "#+title" {
      assert AsciiLower(t[..k][0]) == '#' && AsciiLower(t[..k][1]) == '+';
      assert t[..2] == "#+";
    }
  }

  // The published title

  /** Position of the first line at which the scan ends, or the end of the header. */
  function Settler(h: seq<string>): (i: nat)
    ensures i <= |h| && (i < |h| ==> Settles(h[i]))
    ensures forall k :: 0 <= k < i ==> !Settles(h[k])
  {
    if h == [] || Settles(h[0]) then 0 else 1 + Settler(h[1..])
  }

  lemma {:induction false} HeaderTitles(h: seq<string>, rest: seq<string>)
    requires AllHeader(h)
    ensures LinesTitle(h + rest) ==
            var i := Settler(h);
            if i == |h| then LinesTitle(rest)
            else if Bare(h[i]) then None
            else Some(TitleValue(h[i]))
  {
    if h == [] {
      assert h + rest == rest;
    } else {
      HeaderLineRead(h[0]);
      assert (h + rest)[0] == h[0] && (h + rest)[1..] == h[1..] + rest;
      HeaderTitles(h[1..], rest);
    }
  }

  /**
   The title derived from an Org body is the value of the first `#+title:` line of the header
   that has text, when no `#+` line without a colon comes before it. Without such a line it
   is the text of a heading right behind the header.
   */
  lemma PublishedTitle(body: string)
    ensures var ls := Lines(body);
            var e := HeaderLength(ls);
            var i := Settler(ls[..e]);
            DerivedTitle(None, body, Org) ==
            if i < e then if Bare(ls[i]) then Ok(None) else TitleResult(TitleValue(ls[i]))
            else if e < |ls| && IsHeading(ls[e]) && HeadingText(ls[e]) != [] then TitleResult(HeadingText(ls[e]))
            else Ok(None)
  {
    var ls := Lines(body);
    var e := HeaderLength(ls);
    DerivedFromLines(body);
    assert ls == ls[..e] + ls[e..];
    HeaderTitles(ls[..e], ls[e..]);
    if e < |ls| {
      BodyLineRead(ls[e]);
    }
  }

  /**
   When canonicalization removes a leading heading as the title source, the title derived
   from the same body is that heading's text: nothing is removed under one title and
   published under another. A heading without text gives no title, and a text with a line
   separator inside gives an error.
   */
  lemma ScannersAgree(body: string)
    requires DropsHeading(Lines(body))
    ensures var text := HeadingText(Lines(body)[HeaderLength(Lines(body))]);
            DerivedTitle(None, body, Org) == if text == [] then Ok(None) else TitleResult(text)
  {
    var ls := Lines(body);
    PublishedTitle(body);
    BlankHeaderSettles(ls[..HeaderLength(ls)]);
  }

  lemma BlankHeaderSettles(h: seq<string>)
    requires AllBlank(h)
    ensures Settler(h) == |h|
  {
    var i := Settler(h);
    if i < |h| {
      TitleLineIsHeader(h[i]);
      TrimStartSplits(h[i]);
    }
  }

  // Other formats

  predicate HeadingMarked(t: string) {
    StartsWith(t, "# ")
  }

  /** Position of the first text marked as a heading, or the end. */
  function FirstMarked(texts: seq<string>): (i: nat)
    ensures i <= |texts| && (i < |texts| ==> HeadingMarked(texts[i]))
    ensures forall k :: 0 <= k < i ==> !HeadingMarked(texts[k])
  {
    if texts == [] || HeadingMarked(texts[0]) then 0 else 1 + FirstMarked(texts[1..])
  }

  lemma {:induction false} MarkdownTitleOfTexts(ls: seq<string>)
    ensures var texts := Texts(ls);
            var i := FirstMarked(texts);
            match MarkdownTitle(ls)
            case None => i == |texts|
            case Some((title, _)) => i < |texts| && title == Trim(texts[i][2..])
  {
    if ls != [] {
      TrimSplits(ls[0]);
      MarkdownTitleOfTexts(ls[1..]);
      assert ls == [ls[0]] + ls[1..];
      TextsCons(ls[0], ls[1..]);
    }
  }

  lemma {:induction false} TextsAreTrimmed(ls: seq<string>)
    ensures forall i :: 0 <= i < |Texts(ls)| ==> Texts(ls)[i] != [] && Trimmed(Texts(ls)[i])
  {
    if ls != [] {
      TrimSplits(ls[0]);
      TextsAreTrimmed(ls[1..]);
    }
  }

  /** Behind the mark of a trimmed line there is always text. */
  lemma MarkedHasText(t: string)
    requires Trimmed(t) && HeadingMarked(t)
    ensures Trim(t[2..]) != [] && Trimmed(Trim(t[2..]))
  {
    SpacesAreWhitespace();
    assert |t| > 2;
    assert t[2..][|t| - 3] == t[|t| - 1];
    TrimSplits(t[2..]);
  }

  /**
   The title derived from a Markdown body is what follows the first `# ` that starts a line,
   with or without other text before it; without such a line there is none.
   */
  lemma PublishedMarkdownTitle(body: string)
    ensures var texts := Texts(Lines(body));
            var i := FirstMarked(texts);
            DerivedTitle(None, body, Markdown) ==
            if i == |texts| then Ok(None) else TitleResult(Trim(texts[i][2..]))
  {
    var texts := Texts(Lines(body));
    var i := FirstMarked(texts);
    TextsOfTrim(body);
    MarkdownTitleOfTexts(Lines(Trim(body)));
    TextsAreTrimmed(Lines(body));
    if i < |texts| {
      MarkedHasText(texts[i]);
      TrimOfTrimmed(Trim(texts[i][2..]));
    }
  }

  /** An explicit title is taken as it is, and an HTML body derives none. */
  lemma NoTitleToDerive(explicit: Option<string>, body: string, format: PostFormat)
    ensures explicit.Some? ==> DerivedTitle(explicit, body, format) == Ok(explicit)
    ensures explicit.None? && format == Html ==> DerivedTitle(explicit, body, format) == Ok(None)
  {
  }

  lemma {:induction false} FirstText(ls: seq<string>)
    requires !AllBlank(ls)
    ensures Texts(ls) != [] && Texts(ls)[0] == Trim(FirstNonBlank(ls))
    decreases |ls|
  {
    if Blank(ls[0]) {
      AllBlankCons(ls[0], ls[1..]);
      assert ls == [ls[0]] + ls[1..];
      FirstText(ls[1..]);
    }
  }

  // What the scanners leave of a body besides the title

  predicate HeadingLine(line: string) {
    StartsWith(Trim(line), "# ")
  }

  /** The lines that are not blank. */
  function Written(ls: seq<string>): seq<string> {
    if ls == [] then [] else (if Blank(ls[0]) then [] else [ls[0]]) + Written(ls[1..])
  }

  /**
   The Markdown scanner takes the first heading line out of a text and drops the blank lines
   in front of it; a text without one it refuses.
   */
  lemma {:induction false} MarkdownLeaves(ls: seq<string>)
    ensures match MarkdownTitle(ls)
            case None => forall i :: 0 <= i < |ls| ==> !HeadingLine(ls[i])
            case Some((title, rest)) =>
              exists k :: 0 <= k < |ls| && HeadingLine(ls[k]) && (forall i :: 0 <= i < k ==> !HeadingLine(ls[i]))
                          && title == Trim(Trim(ls[k])[2..]) && rest == Written(ls[..k]) + ls[k + 1..]
  {
    if ls != [] && HeadingLine(ls[0]) {
      assert Written(ls[..0]) + ls[1..] == ls[1..];
    } else if ls != [] {
      var tail := ls[1..];
      MarkdownLeaves(tail);
      match MarkdownTitle(tail)
      case None =>
      case Some((title, rest)) =>
        var k :| 0 <= k < |tail| && HeadingLine(tail[k]) && (forall i :: 0 <= i < k ==> !HeadingLine(tail[i]))
                 && title == Trim(Trim(tail[k])[2..]) && rest == Written(tail[..k]) + tail[k + 1..];
        WrittenCons(ls, k);
        assert HeadingLine(ls[k + 1]);
    }
  }

  lemma WrittenCons(ls: seq<string>, k: nat)
    requires k < |ls| - 1
    ensures Written(ls[..k + 1]) + ls[k + 2..] ==
            (if Trim(ls[0]) == [] then [] else [ls[0]]) + (Written(ls[1..][..k]) + ls[1..][k + 1..])
  {
    TrimSplits(ls[0]);
    assert ls[..k + 1][1..] == ls[1..][..k];
  }

  /** The Org scanner leaves the lines behind the first line that settles the title. */
  lemma {:induction false} OrgLeaves(ls: seq<string>)
    requires OrgTitle(ls).Some?
    ensures var (title, rest) := OrgTitle(ls).value;
            exists k :: 0 <= k < |ls| && OrgTitleLine(ls[k]) == Found(title) && rest == ls[k + 1..]
                        && forall i :: 0 <= i < k ==> OrgTitleLine(ls[i]).Skip?
  {
    if OrgTitleLine(ls[0]).Skip? {
      OrgLeaves(ls[1..]);
      var (title, rest) := OrgTitle(ls[1..]).value;
      var k :| 0 <= k < |ls| - 1 && OrgTitleLine(ls[1..][k]) == Found(title) && rest == ls[1..][k + 1..]
               && forall i :: 0 <= i < k ==> OrgTitleLine(ls[1..][i]).Skip?;
      assert OrgTitleLine(ls[k + 1]) == Found(title) && rest == ls[k + 2..];
    }
  }

  // Titles that are lost

  /** The lines `ls`, with another title line in place of line `j`. */
  predicate Retitles(ls: seq<string>, other: seq<string>, j: nat) {
    && j < HeaderLength(ls)
    && IsTitleLine(ls[j])
    && |other| == |ls|
    && IsTitleLine(other[j])
    && forall k :: 0 <= k < |ls| && k != j ==> other[k] == ls[k]
  }

  lemma RetitledHeader(ls: seq<string>, other: seq<string>, j: nat)
    requires Retitles(ls, other, j)
    ensures HeaderLength(other) == HeaderLength(ls)
    ensures other[HeaderLength(ls)..] == ls[HeaderLength(ls)..]
  {
    var e := HeaderLength(ls);
    TitleLineIsHeader(other[j]);
    HeaderLengthAt(other, e);
  }

  lemma {:induction false} RetitledLines(h: seq<string>, other: seq<string>, j: nat)
    requires j < |h| && IsTitleLine(h[j]) && |other| == |h| && IsTitleLine(other[j])
    requires forall k :: 0 <= k < |h| && k != j ==> other[k] == h[k]
    ensures NonTitle(other) == NonTitle(h) && HasTitle(other) && HasTitle(h)
  {
    if j == 0 {
      assert other[1..] == h[1..];
    } else {
      RetitledLines(h[1..], other[1..], j - 1);
    }
  }

  lemma SettlerUpTo(h: seq<string>, other: seq<string>, i: nat)
    requires i < |h| && i < |other| && Settles(h[i])
    requires forall k :: 0 <= k <= i ==> other[k] == h[k]
    ensures Settler(other) == Settler(h) <= i
  {
  }

  lemma RetitledKept(ls: seq<string>, other: seq<string>, j: nat)
    requires Retitles(ls, other, j)
    ensures OrgKept(other) == OrgKept(ls)
  {
    var e := HeaderLength(ls);
    RetitledHeader(ls, other, j);
    RetitledLines(ls[..e], other[..e], j);
  }

  lemma RetitledSettler(ls: seq<string>, other: seq<string>, i: nat, j: nat)
    requires Retitles(ls, other, j) && i < j && Settles(ls[i])
    ensures var e, k := HeaderLength(ls), Settler(ls[..HeaderLength(ls)]);
            HeaderLength(other) == e && Settler(other[..e]) == k < e && other[k] == ls[k]
  {
    var e := HeaderLength(ls);
    RetitledHeader(ls, other, j);
    SettlerUpTo(ls[..e], other[..e], i);
  }

  /**
   A title line behind the line that settles the title is lost: whatever its value, the
   stored body and the derived title are the same.
   */
  lemma LaterTitleIsLost(body: string, other: string, i: nat, j: nat)
    requires Retitles(Lines(body), Lines(other), j) && i < j && Settles(Lines(body)[i])
    ensures CanonicalizeOrg(other) == CanonicalizeOrg(body)
    ensures DerivedTitle(None, other, Org) == DerivedTitle(None, body, Org)
  {
    RetitledKept(Lines(body), Lines(other), j);
    RetitledSettler(Lines(body), Lines(other), i, j);
    PublishedTitle(body);
    PublishedTitle(other);
  }

  lemma TitleLineHasColon(line: string)
    requires IsTitleLine(line)
    ensures ':' in line
  {
    var t := TrimStart(line);
    TitleMarkEndsKey(t, ToAsciiLowercase(t));
    TrimStartIsSuffix(line);
  }

  /** The lines of a body made of two title lines and a text. */
  lemma TwoTitleLines(first: string, second: string, text: string)
    requires IsTitleLine(first) && IsTitleLine(second) && !IsHeaderLine(text) && !IsHeading(text)
    ensures HeaderLength([first, second, text]) == 2 && OrgKept([first, second, text]) == [text]
  {
    var ls := [first, second, text];
    TitleLineIsHeader(first);
    TitleLineIsHeader(second);
    HeaderLengthAt(ls, 2);
    assert ls[..2] == [first, second] && ls[2..] == [text] && [first, second][1..] == [second];
    NoTitleLeft(first, second);
    assert [first, second][0] == first && HasTitle([first, second]);
    assert AuthoredLines(ls) == [text];
  }

  lemma NoTitleLeft(first: string, second: string)
    requires IsTitleLine(first) && IsTitleLine(second)
    ensures NonTitle([first, second]) == []
  {
    var one, two := [second], [first, second];
    assert two[1..] == one && one[1..] == [];
    assert NonTitle(one) == [];
  }

  lemma FirstLineSettles(first: string, second: string, text: string)
    requires Titled(first)
    ensures Settler([first, second, text][..2]) == 0 && !Bare(first)
  {
    assert [first, second, text][..2][0] == first;
    TitleLineHasColon(first);
  }

  /** Of two title lines with text the first is published, and the second is stored nowhere. */
  lemma SecondTitleIsLost(first: string, second: string, text: string)
    requires LfFree([first, second, text]) && StripCrs([first, second, text]) == [first, second, text]
    requires Titled(first) && Titled(second)
    requires !IsHeaderLine(text) && !IsHeading(text) && EndsInInk([text])
    ensures var body := Unlines([first, second, text]);
            && DerivedTitle(None, body, Org) == TitleResult(TitleValue(first))
            && CanonicalizeOrg(body) == Some(Unlines([text]))
  {
    var ls := [first, second, text];
    TwoTitleLines(first, second, text);
    FirstLineSettles(first, second, text);
    LinesOfUnlines(ls);
    PublishedTitle(Unlines(ls));
    StripCrsOfSuffix(ls);
    StripCrsOfSuffix([second, text]);
    assert ls[1..] == [second, text] && [second, text][1..] == [text];
    PassOnLines(ls, [text]);
  }

  /** Such a body. */
  lemma TwoTitles()
    ensures DerivedTitle(None, Unlines(["#+TITLE:T", "#+TITLE:U", "x"]), Org) == Ok(Some("T"))
    ensures CanonicalizeOrg(Unlines(["#+TITLE:T", "#+TITLE:U", "x"])) == Some(Unlines(["x"]))
  {
    TitledExample("T");
    TitledExample("U");
    ExampleText();
    PlainExample();
    SecondTitleIsLost("#+TITLE:T", "#+TITLE:U", "x");
  }

  lemma PlainExample()
    ensures LfFree(["#+TITLE:T", "#+TITLE:U", "x"])
    ensures StripCrs(["#+TITLE:T", "#+TITLE:U", "x"]) == ["#+TITLE:T", "#+TITLE:U", "x"]
    ensures OneLine("T") && "#+TITLE:" + "T" == "#+TITLE:T" && "#+TITLE:" + "U" == "#+TITLE:U"
  {
  }

  lemma TitledExample(value: string)
    requires value == "T" || value == "U"
    ensures Titled("#+TITLE:" + value) && TitleValue("#+TITLE:" + value) == value
  {
    var line := "#+TITLE:" + value;
    ExampleKeyword();
    TitleLineOf("TITLE:", value);
    assert line == "#+" + "TITLE:" + value;
    HashIsInk(line);
    GraphicIsNotWhitespace(value[0]);
    TrimOfTrimmed(value);
    assert line[8..] == value;
  }
}
