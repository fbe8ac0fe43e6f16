/**
 Rust `str` operations on sequences of Unicode scalar values: the trimming family,
 the two line splitters, and joining. `Pieces` and `TrimTail` are specification
 devices: they let a whole text be reasoned about as a list of LF-free lines.
 */
module Text {
  import opened Wrappers

  datatype Ranges = NoRange | Range(lo: char, hi: char, rest: Ranges)

  predicate InRanges(c: char, ranges: Ranges) {
    match ranges
    case NoRange => false
    case Range(lo, hi, rest) => lo <= c <= hi || InRanges(c, rest)
  }

  /** The scalars with the Unicode White_Space property. */
  const WHITE_SPACE: Ranges :=
    Range('\t', '\r', Range(' ', ' ', Range('\U{85}', '\U{85}', Range('\U{A0}', '\U{A0}', Range('\U{1680}', '\U{1680}',
    Range('\U{2000}', '\U{200A}', Range('\U{2028}', '\U{2029}', Range('\U{202F}', '\U{202F}',
    Range('\U{205F}', '\U{205F}', Range('\U{3000}', '\U{3000}', NoRange))))))))))

  /** `char::is_whitespace` */
  predicate IsWhitespace(c: char) {
    InRanges(c, WHITE_SPACE)
  }

  lemma SpacesAreWhitespace()
    ensures IsWhitespace('\n') && IsWhitespace('\r') && IsWhitespace(' ') && IsWhitespace('\t')
  {
  }

  predicate Above(c: char, ranges: Ranges) {
    ranges.Range? ==> c < ranges.lo && Above(c, ranges.rest)
  }

  lemma {:induction false} AboveIsOutside(c: char, ranges: Ranges)
    requires Above(c, ranges)
    ensures !InRanges(c, ranges)
  {
    if ranges.Range? {
      AboveIsOutside(c, ranges.rest);
    }
  }

  lemma {:induction false} AboveIsMonotone(c: char, d: char, ranges: Ranges)
    requires c <= d && Above(d, ranges)
    ensures Above(c, ranges)
  {
    if ranges.Range? {
      AboveIsMonotone(c, d, ranges.rest);
    }
  }

  /** Printable ASCII other than the space is not whitespace. */
  lemma GraphicIsNotWhitespace(c: char)
    requires '!' <= c <= '~'
    ensures !IsWhitespace(c)
  {
    var beyondAscii := WHITE_SPACE.rest.rest;
    AboveIsMonotone(c, '~', beyondAscii);
    AboveIsOutside(c, beyondAscii);
    assert !InRanges(c, WHITE_SPACE.rest);
  }

  function TrimStart(s: string): string {
    if s != [] && IsWhitespace(s[0]) then TrimStart(s[1..]) else s
  }

  function TrimEnd(s: string): string {
    if s != [] && IsWhitespace(s[|s| - 1]) then TrimEnd(s[..|s| - 1]) else s
  }

  function Trim(s: string): string {
    TrimEnd(TrimStart(s))
  }

  predicate EndsWithDash(s: string) {
    s != [] && s[|s| - 1] == '-'
  }

  /** `s.trim_end_matches('-')` */
  function TrimDashes(s: string): string {
    if s != [] && s[|s| - 1] == '-' then TrimDashes(s[..|s| - 1]) else s
  }

  predicate Blank(s: string) {
    forall i :: 0 <= i < |s| ==> IsWhitespace(s[i])
  }

  /** Neither end is whitespace. */
  predicate Trimmed(s: string) {
    s != [] ==> !IsWhitespace(s[0]) && !IsWhitespace(s[|s| - 1])
  }

  predicate StartsWith(s: string, prefix: string) {
    prefix <= s
  }

  predicate EndsWith(s: string, suffix: string) {
    |suffix| <= |s| && s[|s| - |suffix|..] == suffix
  }

  function AsciiLower(c: char): char {
    if 'A' <= c <= 'Z' then c - 'A' + 'a' else c
  }

  /** `str::to_ascii_lowercase` */
  function ToAsciiLowercase(s: string): (r: string)
    ensures |r| == |s|
    ensures forall i :: 0 <= i < |s| ==> r[i] == AsciiLower(s[i])
  {
    if s == [] then [] else [AsciiLower(s[0])] + ToAsciiLowercase(s[1..])
  }

  /** `str::split_once(c)`: the parts around the first `c`, when there is one. */
  function SplitOnce(s: string, c: char): Option<(string, string)> {
    if c in s then
      var i := IndexOf(s, c);
      Some((s[..i], s[i + 1..]))
    else
      None
  }

  /** Position of the first `c`, or the length when there is none. */
  function IndexOf(s: string, c: char): (i: nat)
    ensures i <= |s|
    ensures c !in s[..i]
    ensures i < |s| ==> s[i] == c
    ensures c in s <==> i < |s|
  {
    if s == [] || s[0] == c then 0 else 1 + IndexOf(s[1..], c)
  }

  // Trimming

  lemma {:induction false} TrimStartIsSuffix(s: string)
    ensures |TrimStart(s)| <= |s| && TrimStart(s) == s[|s| - |TrimStart(s)|..]
    ensures TrimStart(s) != [] ==> !IsWhitespace(TrimStart(s)[0])
  {
    if s != [] && IsWhitespace(s[0]) {
      TrimStartIsSuffix(s[1..]);
    }
  }

  lemma {:induction false} TrimStartCutsBlanks(s: string, i: nat)
    requires i < |s| - |TrimStart(s)|
    ensures IsWhitespace(s[i])
  {
    if i > 0 {
      TrimStartCutsBlanks(s[1..], i - 1);
    }
  }

  lemma LfFreeTrimStart(line: string)
    requires '\n' !in line
    ensures '\n' !in TrimStart(line)
  {
    TrimStartIsSuffix(line);
  }

  lemma TrimStartSplits(s: string)
    ensures exists n :: 0 <= n <= |s| && Blank(s[..n]) && TrimStart(s) == s[n..]
    ensures TrimStart(s) != [] ==> !IsWhitespace(TrimStart(s)[0])
    ensures TrimStart(s) == [] <==> Blank(s)
  {
    TrimStartIsSuffix(s);
    var n := |s| - |TrimStart(s)|;
    forall i | 0 <= i < n
      ensures IsWhitespace(s[i])
    {
      TrimStartCutsBlanks(s, i);
    }
    assert Blank(s[..n]);
    assert TrimStart(s) != [] ==> TrimStart(s)[0] == s[n];
  }

  lemma {:induction false} TrimEndSplits(s: string)
    ensures TrimEnd(s) <= s && Blank(s[|TrimEnd(s)|..])
    ensures TrimEnd(s) != [] ==> !IsWhitespace(TrimEnd(s)[|TrimEnd(s)| - 1])
    ensures TrimEnd(s) == [] <==> Blank(s)
  {
    if s != [] && IsWhitespace(s[|s| - 1]) {
      var front := s[..|s| - 1];
      TrimEndSplits(front);
      assert s == front + [s[|s| - 1]];
      assert s[|TrimEnd(s)|..] == front[|TrimEnd(s)|..] + [s[|s| - 1]];
    }
  }

  /** Trimming cuts a blank prefix and a blank suffix, and nothing else. */
  lemma TrimSplits(s: string)
    ensures exists n, m :: TrimsTo(s, n, m)
    ensures Trimmed(Trim(s)) && (Trim(s) == [] <==> Blank(s))
  {
    TrimStartSplits(s);
    TrimRange(s);
    TrimmedEnds(TrimStart(s));
  }

  lemma Subslices(s: string, n: nat, k: nat)
    requires n + k <= |s|
    ensures s[n..][..k] == s[n..n + k] && s[n..][k..] == s[n + k..]
  {
  }

  lemma TrimRange(s: string)
    ensures exists n, m :: TrimsTo(s, n, m)
  {
    TrimStartSplits(s);
    var n :| 0 <= n <= |s| && Blank(s[..n]) && TrimStart(s) == s[n..];
    TrimEndSplits(s[n..]);
    var k := |TrimEnd(s[n..])|;
    Subslices(s, n, k);
    assert TrimEnd(s[n..]) == s[n..][..k];
    assert TrimsTo(s, n, n + k);
  }

  lemma TrimmedEnds(t: string)
    requires t != [] ==> !IsWhitespace(t[0])
    ensures Trimmed(TrimEnd(t)) && (TrimEnd(t) == [] <==> t == [])
  {
    TrimEndSplits(t);
    assert TrimEnd(t) != [] ==> TrimEnd(t)[0] == t[0];
  }

  ghost predicate TrimsTo(s: string, n: nat, m: nat) {
    n <= m <= |s| && Trim(s) == s[n..m] && Blank(s[..n]) && Blank(s[m..])
  }

  lemma TrimOfTrimmed(s: string)
    requires Trimmed(s)
    ensures TrimStart(s) == s && TrimEnd(s) == s && Trim(s) == s
  {
  }

  lemma {:induction false} TrimEndBlankSuffix(s: string, b: string)
    requires Blank(b)
    ensures TrimEnd(s + b) == TrimEnd(s)
  {
    if b == [] {
      assert s + b == s;
    } else {
      var front := b[..|b| - 1];
      assert (s + b)[..|s + b| - 1] == s + front;
      TrimEndBlankSuffix(s, front);
    }
  }

  lemma {:induction false} TrimEndAppend(s: string, t: string)
    requires !Blank(t)
    ensures TrimEnd(s + t) == s + TrimEnd(t)
  {
    var last := t[|t| - 1];
    assert (s + t)[|s + t| - 1] == last;
    if IsWhitespace(last) {
      var front := t[..|t| - 1];
      assert t == front + [last];
      assert (s + t)[..|s + t| - 1] == s + front;
      TrimEndAppend(s, front);
    }
  }

  lemma {:induction false} TrimStartBlankPrefix(b: string, s: string)
    requires Blank(b)
    ensures TrimStart(b + s) == TrimStart(s)
  {
    if b == [] {
      assert b + s == s;
    } else {
      assert (b + s)[1..] == b[1..] + s;
      TrimStartBlankPrefix(b[1..], s);
    }
  }

  lemma {:induction false} TrimStartAppend(s: string, t: string)
    requires !Blank(s)
    ensures TrimStart(s + t) == TrimStart(s) + t
  {
    assert (s + t)[0] == s[0];
    if IsWhitespace(s[0]) {
      assert s == [s[0]] + s[1..];
      assert (s + t)[1..] == s[1..] + t;
      TrimStartAppend(s[1..], t);
    }
  }

  // Lines

  predicate LfFree(ls: seq<string>) {
    forall i :: 0 <= i < |ls| ==> '\n' !in ls[i]
  }

  /** Drops one trailing CR. */
  function StripCr(line: string): (r: string)
    ensures r <= line
  {
    if line != [] && line[|line| - 1] == '\r' then line[..|line| - 1] else line
  }

  /** `str::lines`: a CR is dropped only in front of an LF, and no line follows a final LF. */
  function Lines(s: string): (ls: seq<string>)
    ensures LfFree(ls)
  {
    if s == [] then []
    else
      var i := IndexOf(s, '\n');
      if i == |s| then [s] else [StripCr(s[..i])] + Lines(s[i + 1..])
  }

  /** `str::split_inclusive('\n')`: every piece keeps its LF. */
  function SplitInclusive(s: string): seq<string> {
    if s == [] then []
    else
      var i := IndexOf(s, '\n');
      if i == |s| then [s] else [s[..i + 1]] + SplitInclusive(s[i + 1..])
  }

  function Concat(ls: seq<string>): string {
    if ls == [] then [] else ls[0] + Concat(ls[1..])
  }

  /** `ls.join("\n")` */
  function Join(ls: seq<string>): string {
    if ls == [] then [] else if |ls| == 1 then ls[0] else ls[0] + "\n" + Join(ls[1..])
  }

  /** Every line followed by an LF. */
  function Unlines(ls: seq<string>): string {
    if ls == [] then [] else ls[0] + "\n" + Unlines(ls[1..])
  }

  /** The text between LFs, all of it: a trailing LF yields a final empty piece. */
  function Pieces(s: string): (ps: seq<string>)
    ensures LfFree(ps) && ps != []
    decreases |s|
  {
    var i := IndexOf(s, '\n');
    if i == |s| then [s] else [s[..i]] + Pieces(s[i + 1..])
  }

  function StripCrs(ls: seq<string>): (r: seq<string>)
    ensures |r| == |ls|
    ensures forall i :: 0 <= i < |ls| ==> r[i] == StripCr(ls[i])
  {
    if ls == [] then [] else [StripCr(ls[0])] + StripCrs(ls[1..])
  }

  lemma {:induction false} IndexOfAppend(a: string, rest: string)
    requires '\n' !in a
    ensures IndexOf(a + "\n" + rest, '\n') == |a|
  {
    if a != [] {
      IndexOfAppend(a[1..], rest);
      assert (a + "\n" + rest)[1..] == a[1..] + "\n" + rest;
    }
  }

  lemma LinesStep(a: string, rest: string)
    requires '\n' !in a
    ensures Lines(a + "\n" + rest) == [StripCr(a)] + Lines(rest)
  {
    IndexOfAppend(a, rest);
    var s := a + "\n" + rest;
    assert s[..|a|] == a && s[|a| + 1..] == rest;
  }

  lemma {:induction false} LinesOfUnlines(ls: seq<string>)
    requires LfFree(ls)
    ensures Lines(Unlines(ls)) == StripCrs(ls)
  {
    if ls != [] {
      LinesStep(ls[0], Unlines(ls[1..]));
      LinesOfUnlines(ls[1..]);
      assert ls[0] + "\n" + Unlines(ls[1..]) == Unlines(ls);
    }
  }

  /** When the last line is not empty and has no trailing CR, joining and splitting only strips CRs. */
  lemma {:induction false} LinesOfJoin(ls: seq<string>)
    requires LfFree(ls) && ls != []
    requires ls[|ls| - 1] != [] && StripCr(ls[|ls| - 1]) == ls[|ls| - 1]
    ensures Lines(Join(ls)) == StripCrs(ls)
  {
    if |ls| == 1 {
      assert IndexOf(ls[0], '\n') == |ls[0]|;
    } else {
      var tail := ls[1..];
      assert tail[|tail| - 1] == ls[|ls| - 1];
      LinesStep(ls[0], Join(tail));
      LinesOfJoin(tail);
    }
  }

  lemma {:induction false} JoinOfPieces(s: string)
    ensures Join(Pieces(s)) == s
    decreases |s|
  {
    var i := IndexOf(s, '\n');
    if i < |s| {
      JoinOfPieces(s[i + 1..]);
      assert s == s[..i] + "\n" + s[i + 1..];
    }
  }

  lemma {:induction false} JoinSnoc(ls: seq<string>, last: string)
    requires ls != []
    ensures Join(ls + [last]) == Join(ls) + "\n" + last
  {
    assert (ls + [last])[1..] == ls[1..] + [last];
    if |ls| > 1 {
      JoinSnoc(ls[1..], last);
      assert ls[0] + "\n" + (Join(ls[1..]) + "\n" + last) == ls[0] + "\n" + Join(ls[1..]) + "\n" + last;
    } else {
      assert ls[1..] + [last] == [last];
    }
  }

  // Trailing whitespace, line by line

  /** The lines left when the joined text is trimmed at its end. */
  function TrimTail(ls: seq<string>): seq<string> {
    if ls == [] then []
    else if Blank(ls[|ls| - 1]) then TrimTail(ls[..|ls| - 1])
    else ls[..|ls| - 1] + [TrimEnd(ls[|ls| - 1])]
  }

  /** The last scalar of the last line is not whitespace. */
  predicate EndsInInk(ls: seq<string>) {
    ls != [] && ls[|ls| - 1] != [] && !IsWhitespace(ls[|ls| - 1][|ls[|ls| - 1]| - 1])
  }

  lemma {:induction false} TrimTailShape(ls: seq<string>)
    ensures LfFree(ls) ==> LfFree(TrimTail(ls))
    ensures TrimTail(ls) != [] ==> EndsInInk(TrimTail(ls))
    ensures TrimTail(ls) == [] <==> AllBlank(ls)
  {
    if ls != [] {
      var front, last := ls[..|ls| - 1], ls[|ls| - 1];
      if Blank(last) {
        TrimTailShape(front);
        assert ls == front + [last];
      } else {
        TrimEndSplits(last);
      }
    }
  }

  lemma TrimBlankLine(front: seq<string>, last: string)
    requires front != [] && Blank(last)
    ensures TrimEnd(Join(front + [last])) == TrimEnd(Join(front))
  {
    JoinSnoc(front, last);
    var tail := "\n" + last;
    assert Blank(tail) by {
      SpacesAreWhitespace();
    }
    TrimEndBlankSuffix(Join(front), tail);
    assert Join(front) + "\n" + last == Join(front) + tail;
  }

  lemma TrimInkLine(front: seq<string>, last: string)
    requires front != [] && !Blank(last)
    ensures TrimEnd(Join(front + [last])) == Join(front + [TrimEnd(last)])
  {
    JoinSnoc(front, last);
    JoinSnoc(front, TrimEnd(last));
    TrimEndAppend(Join(front) + "\n", last);
  }

  lemma {:induction false} TrimEndOfJoin(ls: seq<string>)
    ensures TrimEnd(Join(ls)) == Join(TrimTail(ls))
  {
    if |ls| == 1 {
      TrimEndSplits(ls[0]);
      assert ls[..0] + [TrimEnd(ls[0])] == [TrimEnd(ls[0])];
    } else if ls != [] {
      var front, last := ls[..|ls| - 1], ls[|ls| - 1];
      assert ls == front + [last];
      if Blank(last) {
        TrimBlankLine(front, last);
        TrimEndOfJoin(front);
      } else {
        TrimInkLine(front, last);
      }
    }
  }

  // Dropping leading blank lines

  function DropLeadingBlank(ls: seq<string>): seq<string> {
    if ls != [] && Blank(ls[0]) then DropLeadingBlank(ls[1..]) else ls
  }

  lemma {:induction false} DropLeadingBlankSuffix(ls: seq<string>)
    ensures var r := DropLeadingBlank(ls);
            |r| <= |ls| && r == ls[|ls| - |r|..] && (r != [] ==> !Blank(r[0]))
    ensures LfFree(ls) ==> LfFree(DropLeadingBlank(ls))
  {
    if ls != [] && Blank(ls[0]) {
      DropLeadingBlankSuffix(ls[1..]);
    }
  }

  lemma {:induction false} DropLeadingBlankEmpty(ls: seq<string>)
    ensures DropLeadingBlank(ls) == [] <==> AllBlank(ls)
  {
    if ls != [] {
      DropLeadingBlankEmpty(ls[1..]);
      AllBlankCons(ls[0], ls[1..]);
      assert ls == [ls[0]] + ls[1..];
    }
  }

  lemma DropLeadingBlankSnoc(ls: seq<string>, line: string)
    ensures DropLeadingBlank(ls + [line]) ==
            if DropLeadingBlank(ls) == [] && Blank(line) then [] else DropLeadingBlank(ls) + [line]
  {
    DropLeadingBlankAppend(ls, [line]);
    assert [line][1..] == [];
  }

  lemma {:induction false} DropLeadingBlankAppend(a: seq<string>, b: seq<string>)
    ensures DropLeadingBlank(a + b) ==
            if DropLeadingBlank(a) == [] then DropLeadingBlank(b) else DropLeadingBlank(a) + b
  {
    if a == [] {
      assert a + b == b;
    } else {
      assert (a + b)[1..] == a[1..] + b;
      DropLeadingBlankAppend(a[1..], b);
    }
  }

  // Blankness of a text and of its lines

  lemma BlankAppend(a: string, b: string)
    ensures Blank(a + b) <==> Blank(a) && Blank(b)
  {
    if Blank(a + b) {
      assert forall i :: 0 <= i < |a| ==> a[i] == (a + b)[i];
      assert forall i :: 0 <= i < |b| ==> b[i] == (a + b)[|a| + i];
    }
  }

  lemma BlankStripCr(line: string)
    ensures Blank(StripCr(line)) <==> Blank(line)
  {
    if StripCr(line) != line {
      assert line == StripCr(line) + "\r";
      BlankAppend(StripCr(line), "\r");
    }
  }

  predicate AllBlank(ls: seq<string>) {
    forall i :: 0 <= i < |ls| ==> Blank(ls[i])
  }

  lemma AllBlankCons(line: string, ls: seq<string>)
    ensures AllBlank([line] + ls) <==> Blank(line) && AllBlank(ls)
  {
    assert ([line] + ls)[0] == line;
    assert forall i :: 0 <= i < |ls| ==> ([line] + ls)[i + 1] == ls[i];
  }

  lemma BlankAroundLf(s: string, i: nat)
    requires i < |s| && s[i] == '\n'
    ensures Blank(s) <==> Blank(s[..i]) && Blank(s[i + 1..])
  {
    var tail := "\n" + s[i + 1..];
    assert s == s[..i] + tail;
    BlankAppend(s[..i], tail);
    BlankAppend("\n", s[i + 1..]);
  }

  /** A text has a non-blank line exactly when it has a non-whitespace scalar. */
  lemma {:induction false} LinesAllBlank(s: string)
    ensures AllBlank(Lines(s)) <==> Blank(s)
    decreases |s|
  {
    if s != [] {
      var i := IndexOf(s, '\n');
      if i == |s| {
        assert Lines(s)[0] == s;
      } else {
        var rest := s[i + 1..];
        LinesAllBlank(rest);
        BlankStripCr(s[..i]);
        BlankAroundLf(s, i);
        AllBlankCons(StripCr(s[..i]), Lines(rest));
      }
    }
  }
}
