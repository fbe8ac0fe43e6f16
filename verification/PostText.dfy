/**
 The validating text types of a Post: a body holds at least one non-blank line and is
 stored verbatim; a title is one trimmed, non-empty logical line.
 */
module PostText {
  import opened Wrappers
  import opened Text

  predicate ValidBody(s: string) {
    !AllBlank(Lines(s))
  }

  /** `PostBody::from_str`: validates, never normalizes. */
  function ParseBody(s: string): Option<string> {
    if ValidBody(s) then Some(s) else None
  }

  /** The body door accepts a text exactly when it has some non-whitespace scalar. */
  lemma BodyDoor(s: string)
    ensures ParseBody(s) == if Blank(s) then None else Some(s)
  {
    LinesAllBlank(s);
  }

  predicate IsLineSeparator(c: char) {
    c in {'\n', '\r', '\U{0B}', '\U{0C}', '\U{85}', '\U{2028}', '\U{2029}'}
  }

  predicate OneLine(s: string) {
    forall i :: 0 <= i < |s| ==> !IsLineSeparator(s[i])
  }

  /** `PostTitle::from_str`: separators are refused before anything is trimmed away. */
  function ParseTitle(s: string): Option<string> {
    if !OneLine(s) || Trim(s) == [] then None else Some(Trim(s))
  }

  predicate ValidTitle(t: string) {
    ParseTitle(t) == Some(t)
  }

  /** Parsing a title yields a value that parses to itself. */
  lemma TitleDoor(s: string)
    ensures ParseTitle(s).Some? ==> ValidTitle(ParseTitle(s).value)
  {
    TrimSplits(s);
    TrimOfTrimmed(Trim(s));
    OneLineOfTrim(s);
  }

  lemma OneLineOfTrim(s: string)
    ensures OneLine(s) ==> OneLine(Trim(s))
  {
    TrimSplits(s);
    var n: nat, m: nat :| TrimsTo(s, n, m);
    assert forall i :: 0 <= i < |Trim(s)| ==> Trim(s)[i] == s[n + i];
  }

  /** Whitespace on one line. */
  predicate Margin(s: string) {
    Blank(s) && OneLine(s)
  }

  /** One line of text between margins. */
  predicate TitleBetween(s: string, before: string, t: string, after: string) {
    && s == before + t + after && Margin(before) && Margin(after)
    && t != [] && !IsWhitespace(t[0]) && !IsWhitespace(t[|t| - 1]) && OneLine(t)
  }

  lemma OneLineParts(a: string, b: string)
    ensures OneLine(a + b) <==> OneLine(a) && OneLine(b)
  {
    assert forall i :: 0 <= i < |a| ==> (a + b)[i] == a[i];
    assert forall i :: 0 <= i < |b| ==> (a + b)[|a| + i] == b[i];
  }

  lemma TrimBetween(before: string, t: string, after: string)
    requires Blank(before) && Blank(after) && t != [] && Trimmed(t)
    ensures Trim(before + t + after) == t
  {
    assert before + t + after == before + (t + after);
    TrimStartBlankPrefix(before, t + after);
    assert (t + after)[0] == t[0];
    TrimOfTrimmed(t);
    TrimEndBlankSuffix(t, after);
  }

  lemma InThree(s: string, n: nat, m: nat)
    requires n <= m <= |s|
    ensures s == s[..n] + s[n..m] + s[m..]
  {
  }

  lemma OneLineInThree(a: string, b: string, c: string)
    ensures OneLine(a + b + c) <==> OneLine(a) && OneLine(b) && OneLine(c)
  {
    OneLineParts(a + b, c);
    OneLineParts(a, b);
  }

  lemma TitleHasMargins(s: string, t: string)
    requires ParseTitle(s) == Some(t)
    ensures exists before, after :: TitleBetween(s, before, t, after)
  {
    TrimSplits(s);
    var n: nat, m: nat :| TrimsTo(s, n, m);
    InThree(s, n, m);
    OneLineInThree(s[..n], t, s[m..]);
    assert TitleBetween(s, s[..n], t, s[m..]);
  }

  lemma TitleOfMargins(s: string, before: string, t: string, after: string)
    requires TitleBetween(s, before, t, after)
    ensures ParseTitle(s) == Some(t)
  {
    TrimBetween(before, t, after);
    OneLineInThree(before, t, after);
  }

  /** A text is the title `t` exactly when it is `t` between margins: nothing in it breaks the line. */
  lemma TitleIsExact(s: string, t: string)
    ensures ParseTitle(s) == Some(t) <==> exists before, after :: TitleBetween(s, before, t, after)
  {
    if ParseTitle(s) == Some(t) {
      TitleHasMargins(s, t);
    }
    if before, after :| TitleBetween(s, before, t, after) {
      TitleOfMargins(s, before, t, after);
    }
  }

  /** Two title lines joined never make a title. */
  lemma JoinedTitlesAreRejected(titles: seq<string>)
    requires |titles| > 1
    ensures ParseTitle(Join(titles)).None?
  {
    assert Join(titles)[|titles[0]|] == '\n';
  }
}
