/**
 Post body canonicalization (`common/src/render.rs`): the whitespace pass shared by
 Markdown and Org, and the Org pass that also removes the title source.

 A body is treated as its list of lines. `OrgKept` says declaratively which lines an
 Org pass keeps; the scanning loop of the program is proved to compute exactly it.
 */
module Render {
  import opened Wrappers
  import opened Text
  import opened PostText

  datatype PostFormat = Markdown | Org | Html

  // Whitespace normalization

  function NormalizedLines(body: string): seq<string> {
    DropLeadingBlank(Lines(TrimEnd(body)))
  }

  function Normalize(body: string): string {
    Unlines(NormalizedLines(body))
  }

  lemma {:induction false} UnlinesSnoc(ls: seq<string>, line: string)
    ensures Unlines(ls + [line]) == Unlines(ls) + line + "\n"
  {
    if ls == [] {
      assert ls + [line] == [line];
    } else {
      assert (ls + [line])[1..] == ls[1..] + [line];
      UnlinesSnoc(ls[1..], line);
    }
  }

  method NormalizeBodyWhitespace(body: string) returns (out: string)
    ensures out == Normalize(body)
  {
    out := [];
    var started := false;
    var ls := Lines(TrimEnd(body));
    var i := 0;
    while i < |ls|
      invariant 0 <= i <= |ls|
      invariant out == Unlines(DropLeadingBlank(ls[..i]))
      invariant started <==> DropLeadingBlank(ls[..i]) != []
    {
      var line := ls[i];
      assert ls[..i + 1] == ls[..i] + [line];
      DropLeadingBlankSnoc(ls[..i], line);
      TrimSplits(line);
      if started || Trim(line) != [] {
        started := true;
        UnlinesSnoc(DropLeadingBlank(ls[..i]), line);
        out := out + line + "\n";
      }
      i := i + 1;
    }
    assert ls[..i] == ls;
  }

  /** Lines in stored form: no LF inside, first line not blank, last line ending in a non-space. */
  predicate CanonicalLines(ls: seq<string>) {
    LfFree(ls) && (ls != [] ==> !Blank(ls[0]) && EndsInInk(ls))
  }

  /** What normalization makes of a text given by its lines. */
  function Canon(ls: seq<string>): seq<string> {
    DropLeadingBlank(StripCrs(TrimTail(ls)))
  }

  lemma InkLastLine(ls: seq<string>)
    requires EndsInInk(ls)
    ensures StripCr(ls[|ls| - 1]) == ls[|ls| - 1]
  {
  }

  lemma InkLastLineStripped(ls: seq<string>)
    requires EndsInInk(ls)
    ensures EndsInInk(StripCrs(ls))
  {
    var last := ls[|ls| - 1];
    assert StripCr(last) == last by {
      InkLastLine(ls);
    }
    assert |StripCrs(ls)| == |ls| && StripCrs(ls)[|ls| - 1] == last;
  }

  lemma DropLeadingBlankKeepsInk(ls: seq<string>)
    requires EndsInInk(ls)
    ensures DropLeadingBlank(ls) != [] && EndsInInk(DropLeadingBlank(ls))
  {
    var last := ls[|ls| - 1];
    assert !Blank(last);
    DropLeadingBlankEmpty(ls);
    DropLeadingBlankSuffix(ls);
    var r := DropLeadingBlank(ls);
    assert r[|r| - 1] == last;
  }

  lemma LfFreeStripCrs(ls: seq<string>)
    requires LfFree(ls)
    ensures LfFree(StripCrs(ls))
  {
  }

  lemma NormalizeJoin(ls: seq<string>)
    requires LfFree(ls)
    ensures Normalize(Join(ls)) == Unlines(Canon(ls))
    ensures CanonicalLines(Canon(ls))
  {
    TrimEndOfJoin(ls);
    TrimTailShape(ls);
    var t := TrimTail(ls);
    if t != [] {
      InkLastLine(t);
      InkLastLineStripped(t);
      LinesOfJoin(t);
      var s := StripCrs(t);
      LfFreeStripCrs(t);
      DropLeadingBlankKeepsInk(s);
      DropLeadingBlankSuffix(s);
    }
  }

  /** A normalized body is its own lines, each closed by an LF. */
  lemma NormalizeShape(body: string)
    ensures Normalize(body) == Unlines(Canon(Pieces(body)))
    ensures CanonicalLines(Canon(Pieces(body)))
  {
    JoinOfPieces(body);
    NormalizeJoin(Pieces(body));
  }

  lemma {:induction false} UnlinesIsJoin(ls: seq<string>)
    requires ls != []
    ensures Unlines(ls) == Join(ls) + "\n"
  {
    if |ls| > 1 {
      UnlinesIsJoin(ls[1..]);
    }
  }

  lemma {:induction false} StripCrsKeepsBlankness(ls: seq<string>)
    ensures DropLeadingBlank(StripCrs(ls)) == StripCrs(DropLeadingBlank(ls))
  {
    if ls != [] {
      BlankStripCr(ls[0]);
      StripCrsKeepsBlankness(ls[1..]);
    }
  }

  /** Normalizing lines already in stored form only strips a CR in front of an LF. */
  lemma NormalizeCanonical(ls: seq<string>)
    requires CanonicalLines(ls)
    ensures Canon(ls) == StripCrs(ls)
    ensures Normalize(Unlines(ls)) == Unlines(StripCrs(ls))
  {
    if ls != [] {
      TrimTailOfCanonical(ls);
      BlankStripCr(ls[0]);
      assert StripCrs(ls)[0] == StripCr(ls[0]);
      NormalizeJoin(ls);
      TrimEndUnlines(ls);
    }
  }

  lemma TrimEndUnlines(ls: seq<string>)
    requires ls != []
    ensures TrimEnd(Unlines(ls)) == TrimEnd(Join(ls))
  {
    UnlinesIsJoin(ls);
    SpacesAreWhitespace();
    TrimEndBlankSuffix(Join(ls), "\n");
  }

  lemma TrimTailOfCanonical(ls: seq<string>)
    requires EndsInInk(ls)
    ensures TrimTail(ls) == ls
  {
    var last := ls[|ls| - 1];
    assert TrimEnd(last) == last;
    assert ls == ls[..|ls| - 1] + [last];
  }

  // The non-whitespace scalars of a text, in order

  function Ink(s: string): string {
    if s == [] then []
    else if IsWhitespace(s[0]) then Ink(s[1..])
    else [s[0]] + Ink(s[1..])
  }

  lemma {:induction false} InkAppend(a: string, b: string)
    ensures Ink(a + b) == Ink(a) + Ink(b)
  {
    if a == [] {
      assert a + b == b;
    } else {
      assert (a + b)[1..] == a[1..] + b;
      InkAppend(a[1..], b);
    }
  }

  lemma {:induction false} InkBlank(s: string)
    ensures Ink(s) == [] <==> Blank(s)
  {
    if s != [] {
      InkBlank(s[1..]);
      assert s == [s[0]] + s[1..];
      BlankAppend([s[0]], s[1..]);
    }
  }

  lemma InkStripCr(line: string)
    ensures Ink(StripCr(line)) == Ink(line)
  {
    if StripCr(line) != line {
      assert line == StripCr(line) + "\r";
      InkAppend(StripCr(line), "\r");
    }
  }

  lemma InkLinesStep(line: string, rest: string)
    requires '\n' !in line && Ink(Unlines(Lines(rest))) == Ink(rest)
    ensures Ink(Unlines(Lines(line + "\n" + rest))) == Ink(line + "\n" + rest)
  {
    LinesStep(line, rest);
    InkStripCr(line);
    InkUnlinesCons(StripCr(line), Lines(rest));
    InkAcrossLf(line, rest);
  }

  lemma InkAcrossLf(line: string, rest: string)
    ensures Ink(line + "\n" + rest) == Ink(line) + Ink(rest)
  {
    InkAppend(line + "\n", rest);
    InkAppend(line, "\n");
  }

  lemma InkSingleLine(s: string)
    requires s != [] && IndexOf(s, '\n') == |s|
    ensures Ink(Unlines(Lines(s))) == Ink(s)
  {
    assert Lines(s) == [s] && Unlines([s]) == s + "\n";
    InkAppend(s, "\n");
  }

  lemma CutAtLf(s: string)
    requires '\n' in s
    ensures var i := IndexOf(s, '\n');
            s == s[..i] + "\n" + s[i + 1..] && '\n' !in s[..i]
  {
  }

  lemma {:induction false} InkLines(s: string)
    ensures Ink(Unlines(Lines(s))) == Ink(s)
    decreases |s|
  {
    if '\n' in s {
      var i := IndexOf(s, '\n');
      CutAtLf(s);
      InkLines(s[i + 1..]);
      InkLinesStep(s[..i], s[i + 1..]);
    } else if s != [] {
      InkSingleLine(s);
    }
  }

  lemma InkUnlinesCons(line: string, ls: seq<string>)
    ensures Ink(Unlines([line] + ls)) == Ink(line) + Ink(Unlines(ls))
  {
    assert ([line] + ls)[1..] == ls;
    InkAppend(line + "\n", Unlines(ls));
    InkAppend(line, "\n");
  }

  lemma {:induction false} InkDropLeadingBlank(ls: seq<string>)
    ensures Ink(Unlines(DropLeadingBlank(ls))) == Ink(Unlines(ls))
  {
    if ls != [] && Blank(ls[0]) {
      InkDropLeadingBlank(ls[1..]);
      assert ls == [ls[0]] + ls[1..];
      InkUnlinesCons(ls[0], ls[1..]);
      InkBlank(ls[0]);
    }
  }

  /** Normalization keeps every non-whitespace scalar, in order. */
  lemma NormalizeKeepsInk(body: string)
    ensures Ink(Normalize(body)) == Ink(body)
  {
    TrimEndSplits(body);
    var t := TrimEnd(body);
    assert body == t + body[|t|..];
    InkAppend(t, body[|t|..]);
    InkBlank(body[|t|..]);
    InkLines(t);
    InkDropLeadingBlank(Lines(t));
  }

  /** So a valid body always normalizes to a valid body: the Markdown arm never errs. */
  lemma MarkdownNeverErrs(body: string)
    requires ValidBody(body)
    ensures CanonicalizeBody(body, Markdown) == Some(Normalize(body))
  {
    BodyDoor(body);
    BodyDoor(Normalize(body));
    NormalizeKeepsInk(body);
    InkBlank(body);
    InkBlank(Normalize(body));
  }

  // Exactly when normalization is idempotent

  predicate CrLfAt(s: string, i: nat) {
    i + 1 < |s| && s[i] == '\r' && s[i + 1] == '\n'
  }

  predicate CrBeforeLf(s: string) {
    exists i :: 0 <= i < |s| && CrLfAt(s, i)
  }

  lemma CrLfInside(head: string, rest: string, i: nat)
    requires '\n' !in head && CrLfAt(head + "\n" + rest, i)
    ensures StripCr(head) != head || (i > |head| && CrLfAt(rest, i - |head| - 1))
  {
    var s, n := head + "\n" + rest, |head|;
    assert s[n] == '\n' && forall k :: 0 <= k < n ==> s[k] == head[k];
  }

  lemma CrLfEnds(head: string, rest: string)
    requires StripCr(head) != head
    ensures CrLfAt(head + "\n" + rest, |head| - 1)
  {
  }

  lemma CrLfBehind(head: string, rest: string, i: nat)
    requires CrLfAt(rest, i)
    ensures CrLfAt(head + "\n" + rest, |head| + 1 + i)
  {
  }

  lemma CrBeforeLfCons(head: string, rest: string)
    requires '\n' !in head
    ensures CrBeforeLf(head + "\n" + rest) <==> StripCr(head) != head || CrBeforeLf(rest)
  {
    if StripCr(head) != head {
      CrLfEnds(head, rest);
    } else if i :| 0 <= i < |head + "\n" + rest| && CrLfAt(head + "\n" + rest, i) {
      CrLfInside(head, rest, i);
    } else if i :| 0 <= i < |rest| && CrLfAt(rest, i) {
      CrLfBehind(head, rest, i);
    }
  }

  /** The stored text has a CR before an LF exactly when some line ends with a CR. */
  lemma {:induction false} CrBeforeLfOfUnlines(ls: seq<string>)
    requires LfFree(ls)
    ensures CrBeforeLf(Unlines(ls)) <==> StripCrs(ls) != ls
  {
    if ls != [] {
      CrBeforeLfOfUnlines(ls[1..]);
      CrBeforeLfCons(ls[0], Unlines(ls[1..]));
      assert ls == [ls[0]] + ls[1..];
      assert StripCrs(ls) == [StripCr(ls[0])] + StripCrs(ls[1..]);
    }
  }

  lemma {:induction false} StrippingShortens(ls: seq<string>)
    ensures StripCrs(ls) == ls || |Unlines(StripCrs(ls))| < |Unlines(ls)|
  {
    if ls != [] {
      StrippingShortens(ls[1..]);
      assert ls == [ls[0]] + ls[1..];
    }
  }

  // Org canonicalization

  predicate IsTitleLine(line: string) {
    StartsWith(ToAsciiLowercase(TrimStart(line)), "#+title:")
  }

  /** A blank line or one whose text starts with `#+`. */
  predicate IsHeaderLine(line: string) {
    Blank(line) || StartsWith(TrimStart(line), "#+")
  }

  /** A top-level Org heading. */
  predicate IsHeading(line: string) {
    StartsWith(TrimStart(line), "* ")
  }

  function HeaderLength(ls: seq<string>): (n: nat)
    ensures n <= |ls|
    ensures forall i :: 0 <= i < n ==> IsHeaderLine(ls[i])
    ensures n < |ls| ==> !IsHeaderLine(ls[n])
  {
    if ls != [] && IsHeaderLine(ls[0]) then 1 + HeaderLength(ls[1..]) else 0
  }

  predicate HasTitle(ls: seq<string>) {
    exists i :: 0 <= i < |ls| && IsTitleLine(ls[i])
  }

  function NonTitle(ls: seq<string>): seq<string> {
    if ls == [] then []
    else if IsTitleLine(ls[0]) then NonTitle(ls[1..])
    else [ls[0]] + NonTitle(ls[1..])
  }

  /** The heading right after the header region is the title source. */
  predicate DropsHeading(ls: seq<string>) {
    var e := HeaderLength(ls);
    e < |ls| && IsHeading(ls[e]) && !HasTitle(ls[..e]) && AllBlank(ls[..e])
  }

  /** Every line that is not a title source. */
  function AuthoredLines(ls: seq<string>): seq<string> {
    var e := HeaderLength(ls);
    NonTitle(ls[..e]) + if DropsHeading(ls) then ls[e + 1..] else ls[e..]
  }

  function OrgKept(ls: seq<string>): seq<string> {
    DropLeadingBlank(AuthoredLines(ls))
  }

  function CanonicalizeOrg(body: string): Option<string> {
    ParseBody(Normalize(Join(OrgKept(Lines(body)))))
  }

  function CanonicalizeBody(body: string, format: PostFormat): Option<string> {
    match format
    case Html => Some(body)
    case Markdown => ParseBody(Normalize(body))
    case Org => CanonicalizeOrg(body)
  }

  // The scanning loop computes OrgKept

  lemma TitleMarkIsHeader(t: string)
    requires StartsWith(ToAsciiLowercase(t), "#+title:")
    ensures StartsWith(t, "#+")
  {
    var lower := ToAsciiLowercase(t);
    assert lower[0] == '#' && lower[1] == '+';
    assert t[0] == '#' && t[1] == '+';
    assert t[..2] == "#+";
  }

  lemma TitleLineIsHeader(line: string)
    ensures IsTitleLine(line) ==> !Blank(line) && StartsWith(TrimStart(line), "#+")
    ensures IsHeading(line) ==> !IsHeaderLine(line)
  {
    var t := TrimStart(line);
    TrimStartSplits(line);
    if IsTitleLine(line) {
      TitleMarkIsHeader(t);
    }
    if IsHeading(line) {
      assert t[0] == '*';
    }
  }

  lemma {:induction false} HeaderLengthAt(ls: seq<string>, n: nat)
    requires n <= |ls|
    requires forall i :: 0 <= i < n ==> IsHeaderLine(ls[i])
    requires n < |ls| ==> !IsHeaderLine(ls[n])
    ensures HeaderLength(ls) == n
  {
    if n > 0 {
      HeaderLengthAt(ls[1..], n - 1);
    }
  }

  lemma {:induction false} NonTitleAppend(a: seq<string>, b: seq<string>)
    ensures NonTitle(a + b) == NonTitle(a) + NonTitle(b)
  {
    if a == [] {
      assert a + b == b;
    } else {
      assert (a + b)[1..] == a[1..] + b;
      NonTitleAppend(a[1..], b);
    }
  }

  lemma {:induction false} NonTitleIdentity(ls: seq<string>)
    ensures |NonTitle(ls)| <= |ls|
    ensures !HasTitle(ls) ==> NonTitle(ls) == ls
    ensures HasTitle(ls) ==> |Unlines(NonTitle(ls))| < |Unlines(ls)|
    ensures |Unlines(NonTitle(ls))| <= |Unlines(ls)|
    ensures LfFree(ls) ==> LfFree(NonTitle(ls))
  {
    if ls != [] {
      NonTitleIdentity(ls[1..]);
      assert ls == [ls[0]] + ls[1..];
      if HasTitle(ls) && !IsTitleLine(ls[0]) {
        var i :| 0 <= i < |ls| && IsTitleLine(ls[i]);
        assert IsTitleLine(ls[1..][i - 1]);
      }
    }
  }

  /** Without a title line, nothing kept in the header means the header is blank. */
  lemma HeaderKeptEmpty(h: seq<string>)
    requires !HasTitle(h)
    ensures DropLeadingBlank(NonTitle(h)) == [] <==> AllBlank(h)
  {
    NonTitleIdentity(h);
    DropLeadingBlankEmpty(h);
  }

  lemma HeaderStep(prefix: seq<string>, line: string)
    ensures HasTitle(prefix + [line]) <==> HasTitle(prefix) || IsTitleLine(line)
    ensures DropLeadingBlank(NonTitle(prefix + [line])) ==
            if IsTitleLine(line) then DropLeadingBlank(NonTitle(prefix))
            else if Blank(line) && DropLeadingBlank(NonTitle(prefix)) == [] then []
            else DropLeadingBlank(NonTitle(prefix)) + [line]
  {
    NonTitleAppend(prefix, [line]);
    if IsTitleLine(line) {
      assert NonTitle([line]) == [];
      assert NonTitle(prefix) + [] == NonTitle(prefix);
    } else {
      assert NonTitle([line]) == [line] + [] == [line];
      DropLeadingBlankSnoc(NonTitle(prefix), line);
    }
    HasTitleSnoc(prefix, line);
  }

  lemma HasTitleSnoc(prefix: seq<string>, line: string)
    ensures HasTitle(prefix + [line]) <==> HasTitle(prefix) || IsTitleLine(line)
  {
    var all := prefix + [line];
    assert all[|prefix|] == line;
    assert forall i :: 0 <= i < |prefix| ==> all[i] == prefix[i];
  }

  /** Where the kept lines start after the header region. */
  ghost function BodyStart(ls: seq<string>): (n: nat)
    ensures n <= |ls|
  {
    HeaderLength(ls) + if DropsHeading(ls) then 1 else 0
  }

  /** The state of the scan after its first `i` lines. */
  ghost predicate Scanned(ls: seq<string>, i: nat, kept: seq<string>, inHeader: bool, sawTitle: bool)
    requires i <= |ls|
  {
    if inHeader then
      && i <= HeaderLength(ls)
      && kept == DropLeadingBlank(NonTitle(ls[..i]))
      && (sawTitle <==> HasTitle(ls[..i]))
    else
      && BodyStart(ls) <= i
      && kept == DropLeadingBlank(NonTitle(ls[..HeaderLength(ls)]) + ls[BodyStart(ls)..i])
  }

  lemma ScanHeaderLine(ls: seq<string>, i: nat, kept: seq<string>, sawTitle: bool)
    requires i < |ls| && Scanned(ls, i, kept, true, sawTitle) && IsHeaderLine(ls[i])
    ensures var drop := IsTitleLine(ls[i]) || (Blank(ls[i]) && kept == []);
            Scanned(ls, i + 1, if drop then kept else kept + [ls[i]], true, sawTitle || IsTitleLine(ls[i]))
  {
    assert ls[..i + 1] == ls[..i] + [ls[i]];
    HeaderStep(ls[..i], ls[i]);
    assert i != HeaderLength(ls);
  }

  lemma ScanHeaderEnd(ls: seq<string>, i: nat, kept: seq<string>, sawTitle: bool)
    requires i < |ls| && Scanned(ls, i, kept, true, sawTitle) && !IsHeaderLine(ls[i])
    ensures var drop := !sawTitle && kept == [] && IsHeading(ls[i]);
            Scanned(ls, i + 1, if drop then kept else kept + [ls[i]], false, sawTitle)
  {
    HeaderLengthAt(ls, i);
    if !sawTitle {
      HeaderKeptEmpty(ls[..i]);
    }
    var h := NonTitle(ls[..i]);
    if DropsHeading(ls) {
      assert h + ls[BodyStart(ls)..i + 1] == h;
    } else {
      assert h + ls[BodyStart(ls)..i + 1] == h + [ls[i]];
      DropLeadingBlankSnoc(h, ls[i]);
    }
  }

  lemma ScanBodyLine(ls: seq<string>, i: nat, kept: seq<string>, sawTitle: bool)
    requires i < |ls| && Scanned(ls, i, kept, false, sawTitle)
    ensures Scanned(ls, i + 1, if kept == [] && Blank(ls[i]) then kept else kept + [ls[i]], false, sawTitle)
  {
    var before := NonTitle(ls[..HeaderLength(ls)]) + ls[BodyStart(ls)..i];
    assert NonTitle(ls[..HeaderLength(ls)]) + ls[BodyStart(ls)..i + 1] == before + [ls[i]];
    DropLeadingBlankSnoc(before, ls[i]);
  }

  lemma ScanComplete(ls: seq<string>, kept: seq<string>, inHeader: bool, sawTitle: bool)
    requires Scanned(ls, |ls|, kept, inHeader, sawTitle)
    ensures kept == OrgKept(ls)
  {
    if inHeader {
      assert ls[..|ls|] == ls && ls[|ls|..] == [];
      assert NonTitle(ls) + [] == NonTitle(ls);
    } else {
      assert ls[BodyStart(ls)..|ls|] == ls[BodyStart(ls)..];
    }
  }

  /** The tests of the scan, in the order the program makes them. */
  lemma LineTests(line: string)
    ensures Trim(line) == [] <==> Blank(line)
    ensures TrimStart(line) == [] <==> Blank(line)
    ensures IsTitleLine(line) || IsHeading(line) ==> !Blank(line)
    ensures IsTitleLine(line) ==> IsHeaderLine(line)
  {
    TrimStartSplits(line);
    TrimSplits(line);
    TitleLineIsHeader(line);
  }

  datatype ScanState = ScanState(kept: seq<string>, inHeader: bool, sawTitle: bool)

  /** One line of the scan, by the tests the program makes. */
  function ScanStep(s: ScanState, line: string): ScanState {
    var t := TrimStart(line);
    if !s.inHeader then
      if s.kept == [] && Trim(line) == [] then s else s.(kept := s.kept + [line])
    else if t == [] then
      if s.kept == [] then s else s.(kept := s.kept + [line])
    else if StartsWith(ToAsciiLowercase(t), "#+title:") then s.(sawTitle := true)
    else if StartsWith(t, "#+") then s.(kept := s.kept + [line])
    else if !s.sawTitle && s.kept == [] && StartsWith(t, "* ") then s.(inHeader := false)
    else s.(kept := s.kept + [line], inHeader := false)
  }

  ghost predicate InScan(ls: seq<string>, i: nat, s: ScanState)
    requires i <= |ls|
  {
    Scanned(ls, i, s.kept, s.inHeader, s.sawTitle)
  }

  lemma ScanLine(ls: seq<string>, i: nat, s: ScanState)
    requires i < |ls| && InScan(ls, i, s)
    ensures InScan(ls, i + 1, ScanStep(s, ls[i]))
  {
    LineTests(ls[i]);
    if !s.inHeader {
      ScanBodyLine(ls, i, s.kept, s.sawTitle);
    } else if IsHeaderLine(ls[i]) {
      ScanHeaderLine(ls, i, s.kept, s.sawTitle);
    } else {
      ScanHeaderEnd(ls, i, s.kept, s.sawTitle);
    }
  }

  /** The tests of a line while the scan is in the header. */
  method ReadHeaderLine(line: string, lines: seq<string>, titleSeen: bool)
    returns (kept: seq<string>, inHeader: bool, sawTitle: bool)
    ensures ScanState(kept, inHeader, sawTitle) == ScanStep(ScanState(lines, true, titleSeen), line)
  {
    kept, inHeader, sawTitle := lines, true, titleSeen;
    var t := TrimStart(line);
    if t == [] {
      if kept != [] {
        kept := kept + [line];
      }
    } else if StartsWith(ToAsciiLowercase(t), "#+title:") {
      sawTitle := true;
    } else if StartsWith(t, "#+") {
      kept := kept + [line];
    } else {
      inHeader := false;
      if !(!sawTitle && kept == [] && StartsWith(t, "* ")) {
        kept := kept + [line];
      }
    }
  }

  /** `inHeader`: still scanning the leading blank, `#+` and title region. */
  method CanonicalizeOrgBody(body: string) returns (r: Option<string>)
    ensures r == CanonicalizeOrg(body)
  {
    var kept: seq<string> := [];
    var inHeader := true;
    var sawTitle := false;
    var ls := Lines(body);
    var i := 0;
    while i < |ls|
      invariant 0 <= i <= |ls|
      invariant InScan(ls, i, ScanState(kept, inHeader, sawTitle))
    {
      var line := ls[i];
      ScanLine(ls, i, ScanState(kept, inHeader, sawTitle));
      if inHeader {
        kept, inHeader, sawTitle := ReadHeaderLine(line, kept, sawTitle);
      } else if !(kept == [] && Trim(line) == []) {
        kept := kept + [line];
      }
      i := i + 1;
    }
    ScanComplete(ls, kept, inHeader, sawTitle);
    var normalized := NormalizeBodyWhitespace(Join(kept));
    r := ParseBody(normalized);
  }
}
