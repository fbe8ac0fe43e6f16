/**
 Title derivation (`common/src/render.rs`): the two scanners that look for a title in a
 body, and the choice between an explicit and a derived title.
 */
module Titles {
  import opened Wrappers
  import opened Text
  import opened PostText
  import opened Render

  datatype InvalidPostTitle = InvalidPostTitle

  /** What one line means to the Org title scanner. */
  datatype TitleLine = Skip | Found(title: string) | Stop

  function HeadingTitle(trimmed: string): TitleLine {
    if StartsWith(trimmed, "* ") then Found(Trim(trimmed[2..])) else Stop
  }

  function OrgTitleLine(line: string): TitleLine {
    var trimmed := Trim(line);
    if trimmed == [] then Skip
    else
      match SplitOnce(trimmed, ':')
      case Some((key, value)) =>
        if ToAsciiLowercase(key) == "#+title" && Trim(value) != [] then Found(Trim(value))
        else if StartsWith(key, "#+") then Skip
        else HeadingTitle(trimmed)
      case None => HeadingTitle(trimmed)
  }

  /** The title and the lines after it. */
  function OrgTitle(ls: seq<string>): Option<(string, seq<string>)> {
    if ls == [] then None
    else
      match OrgTitleLine(ls[0])
      case Skip => OrgTitle(ls[1..])
      case Found(title) => Some((title, ls[1..]))
      case Stop => None
  }

  function ExtractedOrg(body: string): Option<(string, string)> {
    match OrgTitle(Lines(body))
    case None => None
    case Some((title, rest)) => Some((title, Trim(Join(rest))))
  }

  /** What is extracted once the lines before position `i` have left `output`. */
  function OrgRest(ls: seq<string>, i: nat, found: Option<string>, output: seq<string>): Option<(string, seq<string>)>
    requires i <= |ls|
  {
    match found
    case Some(title) => Some((title, output + ls[i..]))
    case None => OrgTitle(ls[i..])
  }

  lemma OrgStep(ls: seq<string>, i: nat)
    requires i < |ls|
    ensures OrgRest(ls, i, None, []) ==
            match OrgTitleLine(ls[i])
            case Skip => OrgRest(ls, i + 1, None, [])
            case Found(title) => OrgRest(ls, i + 1, Some(title), [])
            case Stop => None
  {
    assert ls[i..][1..] == ls[i + 1..] && [] + ls[i + 1..] == ls[i + 1..];
  }

  lemma OrgFoundStep(ls: seq<string>, i: nat, title: string, output: seq<string>)
    requires i < |ls|
    ensures OrgRest(ls, i, Some(title), output) == OrgRest(ls, i + 1, Some(title), output + [ls[i]])
  {
    assert output + ls[i..] == output + [ls[i]] + ls[i + 1..];
  }

  /** One line of the scan, tested as the program does. */
  method ReadTitleLine(line: string) returns (r: TitleLine)
    ensures r == OrgTitleLine(line)
  {
    var trimmed := Trim(line);
    if trimmed == [] {
      return Skip;
    }
    var pair := SplitOnce(trimmed, ':');
    if pair.Some? {
      var key, value := pair.value.0, pair.value.1;
      if ToAsciiLowercase(key) == "#+title" {
        var title := Trim(value);
        if title != [] {
          return Found(title);
        }
      }
      if StartsWith(key, "#+") {
        return Skip;
      }
    }
    if StartsWith(trimmed, "* ") {
      return Found(Trim(trimmed[2..]));
    }
    r := Stop;
  }

  method ExtractOrgTitle(body: string) returns (r: Option<(string, string)>)
    ensures r == ExtractedOrg(body)
  {
    var output: seq<string> := [];
    var found: Option<string> := None;
    var ls := Lines(body);
    assert ls[0..] == ls;
    var i := 0;
    while i < |ls|
      invariant 0 <= i <= |ls|
      invariant OrgTitle(ls) == OrgRest(ls, i, found, output)
      invariant found.None? ==> output == []
    {
      if found.Some? {
        OrgFoundStep(ls, i, found.value, output);
        output := output + [ls[i]];
      } else {
        OrgStep(ls, i);
        var line := ReadTitleLine(ls[i]);
        match line
        case Skip =>
        case Found(title) => found := Some(title);
        case Stop => return None;
      }
      i := i + 1;
    }
    assert ls[i..] == [] && output + [] == output;
    if found.Some? {
      r := Some((found.value, Trim(Join(output))));
    } else {
      r := None;
    }
  }

  /** The first `# ` line, and the other lines without the blank ones before it. */
  function MarkdownTitle(ls: seq<string>): Option<(string, seq<string>)> {
    if ls == [] then None
    else
      var trimmed := Trim(ls[0]);
      if StartsWith(trimmed, "# ") then Some((Trim(trimmed[2..]), ls[1..]))
      else
        match MarkdownTitle(ls[1..])
        case None => None
        case Some((title, rest)) => Some((title, if trimmed == [] then rest else [ls[0]] + rest))
  }

  function ExtractedMarkdown(body: string): Option<(string, string)> {
    match MarkdownTitle(Lines(body))
    case None => None
    case Some((title, rest)) => Some((title, Trim(Join(rest))))
  }

  /** What is extracted once the lines before position `i` have left `output`. */
  function MarkdownRest(ls: seq<string>, i: nat, found: Option<string>, output: seq<string>)
    : Option<(string, seq<string>)>
    requires i <= |ls|
  {
    match found
    case Some(title) => Some((title, output + ls[i..]))
    case None =>
      match MarkdownTitle(ls[i..])
      case None => None
      case Some((title, rest)) => Some((title, output + rest))
  }

  lemma MarkdownFoundStep(ls: seq<string>, i: nat, title: string, output: seq<string>)
    requires i < |ls|
    ensures MarkdownRest(ls, i, Some(title), output) == MarkdownRest(ls, i + 1, Some(title), output + [ls[i]])
  {
    assert output + ls[i..] == output + [ls[i]] + ls[i + 1..];
  }

  lemma MarkdownStep(ls: seq<string>, i: nat, output: seq<string>)
    requires i < |ls|
    ensures var trimmed := Trim(ls[i]);
            MarkdownRest(ls, i, None, output) ==
            if StartsWith(trimmed, "# ") then MarkdownRest(ls, i + 1, Some(Trim(trimmed[2..])), output)
            else MarkdownRest(ls, i + 1, None, if trimmed == [] then output else output + [ls[i]])
  {
    assert ls[i..][1..] == ls[i + 1..];
    match MarkdownTitle(ls[i + 1..])
    case None =>
    case Some((title, rest)) => assert output + ([ls[i]] + rest) == output + [ls[i]] + rest;
  }

  method ExtractMarkdownTitle(body: string) returns (r: Option<(string, string)>)
    ensures r == ExtractedMarkdown(body)
  {
    var output: seq<string> := [];
    var found: Option<string> := None;
    var ls := Lines(body);
    MarkdownStart(ls);
    var i := 0;
    while i < |ls|
      invariant 0 <= i <= |ls|
      invariant MarkdownTitle(ls) == MarkdownRest(ls, i, found, output)
    {
      var line := ls[i];
      if found.None? {
        MarkdownStep(ls, i, output);
        var trimmed := Trim(line);
        i := i + 1;
        if trimmed == [] {
          continue;
        }
        if StartsWith(trimmed, "# ") {
          found := Some(Trim(trimmed[2..]));
          continue;
        }
      } else {
        MarkdownFoundStep(ls, i, found.value, output);
        i := i + 1;
      }
      output := output + [line];
    }
    assert ls[i..] == [] && output + [] == output;
    if found.Some? {
      r := Some((found.value, Trim(Join(output))));
    } else {
      r := None;
    }
  }

  lemma MarkdownStart(ls: seq<string>)
    ensures MarkdownRest(ls, 0, None, []) == MarkdownTitle(ls)
  {
    assert ls[0..] == ls;
    match MarkdownTitle(ls)
    case None =>
    case Some((_, rest)) => assert [] + rest == rest;
  }

  /** The title part of `derive_post_naming`: an explicit title wins, a bad heading fails. */
  function DerivedTitle(explicit: Option<string>, body: string, format: PostFormat)
    : Result<Option<string>, InvalidPostTitle>
  {
    if explicit.Some? then Ok(explicit)
    else
      var extracted :=
        match format
        case Markdown => ExtractedMarkdown(Trim(body))
        case Org => ExtractedOrg(Trim(body))
        case Html => None;
      match extracted
      case None => Ok(None)
      case Some((title, _)) =>
        match ParseTitle(title)
        case Some(t) => Ok(Some(t))
        case None => Err(InvalidPostTitle)
  }

  // The first line with content

  /** The text before the first LF. */
  function FirstLine(s: string): string {
    s[..IndexOf(s, '\n')]
  }

  function FirstNonBlank(ls: seq<string>): (line: string)
    requires !AllBlank(ls)
    ensures !Blank(line)
    decreases |ls|
  {
    if Blank(ls[0]) then
      AllBlankCons(ls[0], ls[1..]);
      assert ls == [ls[0]] + ls[1..];
      FirstNonBlank(ls[1..])
    else ls[0]
  }

  lemma TrimBlankSuffix(s: string, b: string)
    requires Blank(b)
    ensures Trim(s + b) == Trim(s)
  {
    if Blank(s) {
      BlankAppend(s, b);
      TrimSplits(s);
      TrimSplits(s + b);
    } else {
      TrimStartAppend(s, b);
      TrimEndBlankSuffix(TrimStart(s), b);
    }
  }

  lemma TrimStripCr(line: string)
    ensures Trim(StripCr(line)) == Trim(line)
  {
    if StripCr(line) != line {
      SpacesAreWhitespace();
      assert line == StripCr(line) + "\r";
      TrimBlankSuffix(StripCr(line), "\r");
    }
  }

  lemma LinesHead(s: string)
    requires s != []
    ensures Lines(s) != [] && Trim(Lines(s)[0]) == Trim(FirstLine(s))
    ensures Blank(Lines(s)[0]) <==> Blank(FirstLine(s))
  {
    var i := IndexOf(s, '\n');
    if i == |s| {
      assert s[..i] == s;
    } else {
      TrimStripCr(s[..i]);
      BlankStripCr(s[..i]);
    }
  }

  /** Splitting into lines and skipping the blank ones finds what trimming and cutting finds. */
  lemma {:induction false} FirstContent(s: string)
    requires !Blank(s)
    ensures !AllBlank(Lines(s))
    ensures Trim(FirstNonBlank(Lines(s))) == Trim(FirstLine(TrimStart(s)))
    decreases |s|
  {
    LinesAllBlank(s);
    LinesHead(s);
    var i := IndexOf(s, '\n');
    if Blank(FirstLine(s)) {
      assert i == |s| ==> FirstLine(s) == s;
      var rest := s[i + 1..];
      BlankFirstLine(s, i);
      FirstContent(rest);
      assert Lines(s)[1..] == Lines(rest);
    } else {
      FirstLineOfTrimStart(s);
    }
  }

  lemma BlankFirstLine(s: string, i: nat)
    requires i < |s| && s[i] == '\n' && Blank(s[..i])
    ensures TrimStart(s) == TrimStart(s[i + 1..]) && (Blank(s[i + 1..]) ==> Blank(s))
  {
    var head, rest := s[..i] + "\n", s[i + 1..];
    SpacesAreWhitespace();
    BlankAppend(s[..i], "\n");
    assert s == head + rest;
    TrimStartBlankPrefix(head, rest);
    BlankAppend(head, rest);
  }

  lemma FirstLineOfTrimStart(s: string)
    requires !Blank(FirstLine(s))
    ensures Trim(FirstLine(TrimStart(s))) == Trim(FirstLine(s))
  {
    var i := IndexOf(s, '\n');
    if i == |s| {
      assert s[..i] == s;
      LfFreeTrimStart(s);
      WholeFirstLine(TrimStart(s));
      TrimStartIdempotent(s);
    } else {
      assert s == s[..i] + "\n" + s[i + 1..];
      FirstLineBeforeLf(s[..i], s[i + 1..]);
      TrimStartIdempotent(s[..i]);
    }
  }

  lemma WholeFirstLine(s: string)
    requires '\n' !in s
    ensures FirstLine(s) == s
  {
    assert s[..|s|] == s;
  }

  lemma FirstLineBeforeLf(head: string, rest: string)
    requires '\n' !in head && !Blank(head)
    ensures FirstLine(TrimStart(head + "\n" + rest)) == TrimStart(head)
  {
    TrimStartAppend(head, "\n" + rest);
    assert head + ("\n" + rest) == head + "\n" + rest;
    LfFreeTrimStart(head);
    IndexOfAppend(TrimStart(head), rest);
    assert TrimStart(head) + ("\n" + rest) == TrimStart(head) + "\n" + rest;
  }

  lemma TrimStartIdempotent(s: string)
    ensures Trim(TrimStart(s)) == Trim(s)
  {
    TrimStartSplits(s);
  }

  /** A derived Org title is never empty: the line was trimmed before its marker was removed. */
  lemma FoundTitlesHaveText(line: string)
    ensures OrgTitleLine(line).Found? ==> OrgTitleLine(line).title != [] && Trimmed(OrgTitleLine(line).title)
  {
    TrimSplits(line);
    var trimmed := Trim(line);
    if StartsWith(trimmed, "* ") {
      TrimSplits(trimmed[2..]);
      SpacesAreWhitespace();
      assert trimmed[1] == ' ';
      assert trimmed[2..][|trimmed| - 3] == trimmed[|trimmed| - 1];
    }
    if SplitOnce(trimmed, ':').Some? {
      TrimSplits(SplitOnce(trimmed, ':').value.1);
    }
  }
}
