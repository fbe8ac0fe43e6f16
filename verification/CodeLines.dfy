/**
 The line-ending repair and the admission budget of code highlighting
 (`host/src/code_highlight.rs`). The HTML renderer is known only by its lines: one line
 for each authored line, closed by an LF, and perhaps one line more.
 */
module CodeLines {
  import opened Wrappers
  import opened Text

  function PreserveRendererLineEnding(code: string, output: string): string {
    if !EndsWith(code, "\n") && EndsWith(output, "\n") then output[..|output| - 1]
    else if EndsWith(code, "\r\n") && EndsWith(output, "\n") && !EndsWith(output, "\r\n") then
      output[..|output| - 1] + "\r" + output[|output| - 1..]
    else output
  }

  /** The line separator an authored line ends with. */
  function Ending(line: string): string {
    if EndsWith(line, "\r\n") then "\r\n" else if EndsWith(line, "\n") then "\n" else ""
  }

  function Content(line: string): string {
    line[..|line| - |Ending(line)|]
  }

  predicate EndsWithCr(s: string) {
    s != [] && s[|s| - 1] == '\r'
  }

  lemma LastScalars(s: string)
    ensures EndsWith(s, "\n") <==> s != [] && s[|s| - 1] == '\n'
    ensures EndsWith(s, "\r\n") <==> |s| >= 2 && s[|s| - 2] == '\r' && s[|s| - 1] == '\n'
  {
    if s != [] {
      assert s[|s| - 1..] == [s[|s| - 1]];
    }
    if |s| >= 2 {
      assert s[|s| - 2..] == [s[|s| - 2], s[|s| - 1]];
    }
  }

  lemma ContentAndEnding(line: string)
    ensures line == Content(line) + Ending(line)
  {
  }

  /** A rendered line gets back the separator of its authored line. */
  lemma LineIsRepaired(line: string, body: string)
    requires !EndsWithCr(body)
    ensures PreserveRendererLineEnding(line, body + "\n") == body + Ending(line)
  {
    var output := body + "\n";
    LastScalars(line);
    LastScalars(output);
    assert output[|output| - 1..] == "\n" && output[..|output| - 1] == body;
    assert body + "\r" + "\n" == body + "\r\n";
    assert body + "" == body;
  }

  /** A body that ends with a CR keeps the single LF of the renderer. */
  lemma LineIsKept(line: string, body: string)
    requires EndsWithCr(body) && EndsWith(line, "\n")
    ensures PreserveRendererLineEnding(line, body + "\n") == body + "\n"
  {
    LastScalars(line);
    LastScalars(body + "\n");
  }

  function Repaired(source: seq<string>, lines: seq<string>): string
    requires |source| <= |lines|
  {
    if source == [] then []
    else PreserveRendererLineEnding(source[0], lines[0]) + Repaired(source[1..], lines[1..])
  }

  /** Authored lines take rendered lines in turn; a surplus rendered line is never used. */
  function Highlighted(lines: seq<string>, code: string): Option<string> {
    var source := SplitInclusive(code);
    if |source| <= |lines| then Some(Repaired(source, lines)) else None
  }

  lemma RepairedStep(source: seq<string>, lines: seq<string>, n: nat)
    requires n < |source| <= |lines|
    ensures Repaired(source[n..], lines[n..]) ==
            PreserveRendererLineEnding(source[n], lines[n]) + Repaired(source[n + 1..], lines[n + 1..])
  {
    assert source[n..][1..] == source[n + 1..] && lines[n..][1..] == lines[n + 1..];
  }

  method AuthoredHighlightedLines(lines: seq<string>, code: string) returns (r: Option<string>)
    ensures r == Highlighted(lines, code)
  {
    var source := SplitInclusive(code);
    var output: string := [];
    var next := 0;
    assert source[0..] == source && lines[0..] == lines;
    while next < |source|
      invariant 0 <= next <= |source| && next <= |lines|
      invariant |source| <= |lines| ==> Repaired(source, lines) == output + Repaired(source[next..], lines[next..])
    {
      if next >= |lines| {
        return None;
      }
      if |source| <= |lines| {
        RepairedStep(source, lines, next);
      }
      output := output + PreserveRendererLineEnding(source[next], lines[next]);
      next := next + 1;
    }
    assert source[next..] == [] && output + [] == output;
    r := Some(output);
  }

  // The authored source comes back

  lemma {:induction false} SplitInclusiveIsWhole(code: string)
    ensures Concat(SplitInclusive(code)) == code
    decreases |code|
  {
    if code != [] {
      var i := IndexOf(code, '\n');
      if i < |code| {
        SplitInclusiveIsWhole(code[i + 1..]);
        assert code == code[..i + 1] + code[i + 1..];
      }
    }
  }

  /** Each rendered line is the plain text of its authored line, closed by an LF. */
  predicate RendersPlainly(source: seq<string>, lines: seq<string>) {
    |source| <= |lines| && forall i :: 0 <= i < |source| ==> lines[i] == Content(source[i]) + "\n"
  }

  /** An authored line whose CR LF stands right after another CR. */
  predicate LosesCr(line: string) {
    Ending(line) == "\r\n" && EndsWithCr(Content(line))
  }

  lemma {:induction false} RepairedLines(source: seq<string>, lines: seq<string>)
    requires RendersPlainly(source, lines)
    requires forall i :: 0 <= i < |source| ==> Ending(source[i]) == "" ==> !EndsWithCr(source[i])
    ensures if exists i :: 0 <= i < |source| && LosesCr(source[i])
            then |Repaired(source, lines)| < |Concat(source)|
            else Repaired(source, lines) == Concat(source)
  {
    if source != [] {
      RepairedLines(source[1..], lines[1..]);
      FirstLineRepaired(source[0]);
      assert (exists i :: 0 <= i < |source| && LosesCr(source[i])) <==>
             LosesCr(source[0]) || exists i :: 0 <= i < |source[1..]| && LosesCr(source[1..][i]) by {
        if i :| 0 <= i < |source[1..]| && LosesCr(source[1..][i]) {
          assert LosesCr(source[i + 1]);
        }
        assert forall i :: 1 <= i < |source| ==> source[i] == source[1..][i - 1];
      }
    }
  }

  lemma FirstLineRepaired(line: string)
    requires Ending(line) == "" ==> !EndsWithCr(line)
    ensures var repaired := PreserveRendererLineEnding(line, Content(line) + "\n");
            if LosesCr(line) then |repaired| < |line| else repaired == line
  {
    var body := Content(line);
    ContentAndEnding(line);
    if EndsWithCr(body) {
      LastScalars(line);
      LineIsKept(line, body);
    } else {
      LineIsRepaired(line, body);
    }
  }

  /** A CR that no LF follows. */
  predicate HasUnpairedCarriageReturn(code: string) {
    (exists i :: 0 <= i < |code| - 1 && code[i] == '\r' && code[i + 1] != '\n') || EndsWithCr(code)
  }

  predicate UnpairedAt(code: string, i: nat) {
    i < |code| && code[i] == '\r' && (i + 1 == |code| || code[i + 1] != '\n')
  }

  lemma UnpairedSomewhere(code: string)
    ensures HasUnpairedCarriageReturn(code) <==> exists i: nat :: UnpairedAt(code, i)
  {
    if EndsWithCr(code) {
      assert UnpairedAt(code, |code| - 1);
    }
    if i: nat :| i < |code| - 1 && code[i] == '\r' && code[i + 1] != '\n' {
      assert UnpairedAt(code, i);
    }
  }

  ghost predicate Unpaired(code: string) {
    exists i: nat :: UnpairedAt(code, i)
  }

  predicate CrInText(lines: seq<string>) {
    exists line :: line in lines && '\r' in Content(line)
  }

  /** Every CR is part of a line separator exactly when no line's text contains one. */
  lemma {:induction false} UnpairedIsInText(code: string)
    ensures Unpaired(code) <==> CrInText(SplitInclusive(code))
    decreases |code|
  {
    if code != [] {
      var n := IndexOf(code, '\n');
      if n == |code| {
        UnpairedInLastLine(code);
        CrInTextCons(code, []);
      } else {
        var line, rest := code[..n + 1], code[n + 1..];
        UnpairedIsInText(rest);
        assert code == line + rest && line[..n] == code[..n];
        UnpairedInLine(line, rest);
        CrInTextCons(line, SplitInclusive(rest));
      }
    }
  }

  lemma CrInTextCons(first: string, rest: seq<string>)
    ensures CrInText([first] + rest) <==> '\r' in Content(first) || CrInText(rest)
  {
  }

  lemma UnpairedInLastLine(code: string)
    requires code != [] && '\n' !in code
    ensures Unpaired(code) <==> '\r' in Content(code)
  {
    LastScalars(code);
    assert Ending(code) == "" && Content(code) == code;
    if i: nat :| UnpairedAt(code, i) {
      assert code[i] in code;
    }
    if '\r' in code {
      var i: nat :| i < |code| && code[i] == '\r';
      assert UnpairedAt(code, i);
    }
  }

  predicate LfEnded(line: string) {
    line != [] && line[|line| - 1] == '\n' && '\n' !in line[..|line| - 1]
  }

  /** A CR in the text of a line is followed by neither an LF nor the end of the text. */
  lemma CrOfLine(line: string, rest: string, i: nat)
    requires LfEnded(line) && i < |Content(line)| && Content(line)[i] == '\r'
    ensures UnpairedAt(line + rest, i)
  {
    var n := |line|;
    LastScalars(line);
    assert line[..n - 1][i] == line[i];
    assert i + 1 < n - 1 ==> line[..n - 1][i + 1] == line[i + 1];
  }

  lemma UnpairedOfLine(line: string, rest: string, i: nat)
    requires LfEnded(line) && i < |line| && UnpairedAt(line + rest, i)
    ensures i < |Content(line)| && Content(line)[i] == '\r'
  {
    LastScalars(line);
    assert line[i] == '\r' && (i + 1 < |line| ==> (line + rest)[i + 1] == line[i + 1]);
  }

  lemma UnpairedBehind(line: string, rest: string, i: nat)
    ensures UnpairedAt(line + rest, |line| + i) <==> UnpairedAt(rest, i)
  {
  }

  lemma UnpairedInLine(line: string, rest: string)
    requires LfEnded(line)
    ensures Unpaired(line + rest) <==> '\r' in Content(line) || Unpaired(rest)
  {
    if '\r' in Content(line) {
      var i: nat :| i < |Content(line)| && Content(line)[i] == '\r';
      CrOfLine(line, rest, i);
    }
    if i: nat :| UnpairedAt(rest, i) {
      UnpairedBehind(line, rest, i);
    }
    if i: nat :| UnpairedAt(line + rest, i) {
      if i < |line| {
        UnpairedOfLine(line, rest, i);
      } else {
        UnpairedBehind(line, rest, i - |line|);
      }
    }
  }

  /**
   When no carriage return is unpaired and the renderer closes the plain text of each
   authored line with an LF, joining the repaired lines gives back the authored source,
   whatever further lines the renderer adds.
   */
  lemma SourceIsReproduced(lines: seq<string>, code: string)
    requires !HasUnpairedCarriageReturn(code) && RendersPlainly(SplitInclusive(code), lines)
    ensures Highlighted(lines, code) == Some(code)
  {
    var source := SplitInclusive(code);
    UnpairedSomewhere(code);
    UnpairedIsInText(code);
    SplitInclusiveIsWhole(code);
    forall i | 0 <= i < |source|
      ensures !LosesCr(source[i]) && !EndsWithCr(Content(source[i]))
    {
      assert source[i] in source;
    }
    RepairedLines(source, lines);
  }

  // The budget shared by the code blocks of one Post

  const BLOCK_LIMIT := 64 * 1024
  const POST_BYTES_LIMIT := 128 * 1024
  const POST_ATTEMPTS_LIMIT := 16

  /** What a block of `length` bytes needs to be attempted. */
  predicate Fits(bytes: nat, attempts: nat, known: bool, length: nat) {
    known && length <= BLOCK_LIMIT && attempts < POST_ATTEMPTS_LIMIT && bytes + length <= POST_BYTES_LIMIT
  }

  class HighlightBudget {
    var attemptedBytes: nat
    var attempts: nat

    /** The limits hold, so the subtraction in `Admit` never goes below zero. */
    ghost predicate Valid()
      reads this
    {
      attemptedBytes <= POST_BYTES_LIMIT && attempts <= POST_ATTEMPTS_LIMIT
    }

    constructor ()
      ensures Valid() && attemptedBytes == 0 && attempts == 0
    {
      attemptedBytes, attempts := 0, 0;
    }

    /** The part of `render` before any grammar is consulted. */
    method Admit(known: bool, length: nat) returns (admitted: bool)
      requires Valid()
      modifies this
      ensures Valid()
      ensures admitted <==> Fits(old(attemptedBytes), old(attempts), known, length)
      ensures attemptedBytes == old(attemptedBytes) + if admitted then length else 0
      ensures attempts == old(attempts) + if admitted then 1 else 0
    {
      if !known {
        return false;
      }
      var room: nat := POST_BYTES_LIMIT - attemptedBytes;
      if length > BLOCK_LIMIT || attempts >= POST_ATTEMPTS_LIMIT || length > room {
        return false;
      }
      attempts := attempts + 1;
      attemptedBytes := attemptedBytes + length;
      return true;
    }
  }

  /** The lengths admitted out of a Post's blocks, in document order. */
  function Admitted(blocks: seq<(bool, nat)>): seq<nat> {
    if blocks == [] then []
    else
      var before := Admitted(blocks[..|blocks| - 1]);
      var (known, length) := blocks[|blocks| - 1];
      if Fits(Sum(before), |before|, known, length) then before + [length] else before
  }

  function Sum(lengths: seq<nat>): nat {
    if lengths == [] then 0 else Sum(lengths[..|lengths| - 1]) + lengths[|lengths| - 1]
  }

  /** Whatever the blocks, the admitted ones stay within all three limits. */
  lemma {:induction false} AdmittedWithinLimits(blocks: seq<(bool, nat)>)
    ensures var a := Admitted(blocks);
            && Sum(a) <= POST_BYTES_LIMIT && |a| <= POST_ATTEMPTS_LIMIT
            && forall i :: 0 <= i < |a| ==> a[i] <= BLOCK_LIMIT
  {
    if blocks != [] {
      var before := Admitted(blocks[..|blocks| - 1]);
      AdmittedWithinLimits(blocks[..|blocks| - 1]);
      var length := blocks[|blocks| - 1].1;
      assert (before + [length])[..|before|] == before;
    }
  }
}
