/**
 Mailbox display names (`common/src/mailbox.rs`, `common/src/display_name.rs`): decoding a
 possibly quoted name, printing one with quotes only when needed (section 3.2.4 of RFC 5322),
 and printing a whole mailbox. The address grammar is not part of this model.
 */
module Mailbox {
  import opened Wrappers
  import opened Text

  const MAX_DISPLAY_NAME_CHARS := 255

  datatype InvalidDisplayName = InvalidDisplayName

  /** `DisplayName::from_str` */
  function ParseDisplayName(s: string): Result<string, InvalidDisplayName> {
    var trimmed := Trim(s);
    if trimmed == [] || |trimmed| > MAX_DISPLAY_NAME_CHARS then Err(InvalidDisplayName) else Ok(trimmed)
  }

  predicate ValidName(name: string) {
    ParseDisplayName(name) == Ok(name)
  }

  lemma ParsedNamesAreValid(s: string)
    requires ParseDisplayName(s).Ok?
    ensures ValidName(ParseDisplayName(s).value)
  {
    TrimSplits(s);
    TrimOfTrimmed(Trim(s));
  }

  // Decoding

  /** Drops each escaping backslash, and a lone one at the end. */
  function Unescape(s: string): string {
    if s == [] then []
    else if s[0] != '\\' then [s[0]] + Unescape(s[1..])
    else if |s| == 1 then []
    else [s[1]] + Unescape(s[2..])
  }

  predicate IsQuoted(trimmed: string) {
    |trimmed| >= 2 && trimmed[0] == '"' && trimmed[|trimmed| - 1] == '"'
  }

  function DecodedText(trimmed: string): string {
    if IsQuoted(trimmed) then Unescape(trimmed[1..|trimmed| - 1]) else trimmed
  }

  /** What `decode_display_name` returns; a blank display part is no name at all. */
  function Decoded(display: string): Result<Option<string>, InvalidDisplayName> {
    if Trim(display) == [] then Ok(None)
    else
      match ParseDisplayName(DecodedText(Trim(display)))
      case Ok(name) => Ok(Some(name))
      case Err(e) => Err(e)
  }

  /** The loop of `decode_display_name` over the text between the quotes. */
  method DecodeQuoted(chars: string) returns (decoded: string)
    ensures decoded == Unescape(chars)
  {
    decoded := [];
    var i := 0;
    while i < |chars|
      invariant 0 <= i <= |chars|
      invariant decoded + Unescape(chars[i..]) == Unescape(chars)
    {
      var ch := chars[i];
      UnescapeStep(chars, i);
      i := i + 1;
      if ch != '\\' {
        decoded := decoded + [ch];
      } else if i < |chars| {
        decoded := decoded + [chars[i]];
        i := i + 1;
      }
    }
    assert chars[i..] == [];
  }

  lemma UnescapeStep(chars: string, i: nat)
    requires i < |chars|
    ensures Unescape(chars[i..]) ==
            if chars[i] != '\\' then [chars[i]] + Unescape(chars[i + 1..])
            else if i + 1 == |chars| then []
            else [chars[i + 1]] + Unescape(chars[i + 2..])
  {
    assert chars[i..][1..] == chars[i + 1..];
    if i + 1 < |chars| {
      assert chars[i..][2..] == chars[i + 2..];
    }
  }

  method DecodeDisplayName(display: string) returns (r: Result<Option<string>, InvalidDisplayName>)
    ensures r == Decoded(display)
  {
    var trimmed := Trim(display);
    if trimmed == [] {
      return Ok(None);
    }
    var decoded := trimmed;
    if IsQuoted(trimmed) {
      decoded := DecodeQuoted(trimmed[1..|trimmed| - 1]);
    }
    match ParseDisplayName(decoded)
    case Ok(name) => r := Ok(Some(name));
    case Err(e) => r := Err(e);
  }

  // Printing

  const ATOM_PUNCTUATION := "!#$%&'*+-/=?^_`{|}~ \t"

  predicate IsPlain(c: char) {
    'A' <= c <= 'Z' || 'a' <= c <= 'z' || '0' <= c <= '9' || c in ATOM_PUNCTUATION
  }

  /** `needs_quoted_display_name` */
  predicate NeedsQuotes(name: string) {
    exists i :: 0 <= i < |name| && !IsPlain(name[i])
  }

  function Escape(name: string): string {
    if name == [] then []
    else (if name[0] == '"' || name[0] == '\\' then "\\" else "") + [name[0]] + Escape(name[1..])
  }

  function Quoted(name: string): string {
    "\"" + Escape(name) + "\""
  }

  method WriteQuotedDisplayName(name: string) returns (f: string)
    ensures f == Quoted(name)
  {
    f := "\"";
    var i := 0;
    while i < |name|
      invariant 0 <= i <= |name|
      invariant f + Escape(name[i..]) == "\"" + Escape(name)
    {
      assert name[i..][1..] == name[i + 1..];
      if name[i] == '"' || name[i] == '\\' {
        f := f + "\\";
      }
      f := f + [name[i]];
      i := i + 1;
    }
    assert name[i..] == [];
    f := f + "\"";
  }

  /** The display part of a printed mailbox. */
  function PrintedName(name: string): string {
    if NeedsQuotes(name) then Quoted(name) else name
  }

  datatype Mailbox = Mailbox(displayName: Option<string>, address: string)

  function Angle(address: string): string {
    " <" + address + ">"
  }

  function Printed(m: Mailbox): string {
    match m.displayName
    case Some(name) => PrintedName(name) + Angle(m.address)
    case None => m.address
  }

  /** `Display for Mailbox` */
  method Display(m: Mailbox) returns (f: string)
    ensures f == Printed(m)
  {
    match m.displayName
    case Some(name) =>
      if NeedsQuotes(name) {
        f := WriteQuotedDisplayName(name);
      } else {
        f := name;
      }
      f := f + (" <" + m.address + ">");
    case None => f := m.address;
  }

  // Printing and decoding are inverse

  lemma {:induction false} UnescapeOfEscape(name: string)
    ensures Unescape(Escape(name)) == name
  {
    if name != [] {
      UnescapeOfEscape(name[1..]);
      var e := Escape(name);
      if name[0] == '"' || name[0] == '\\' {
        assert e[0] == '\\' && e[1] == name[0] && e[2..] == Escape(name[1..]);
      } else {
        assert e[0] == name[0] && e[1..] == Escape(name[1..]);
      }
    }
  }

  lemma PlainIsNotSpecial(name: string)
    requires !NeedsQuotes(name)
    ensures '"' !in name && '\\' !in name && '<' !in name
  {
    assert !IsPlain('"') && !IsPlain('\\') && !IsPlain('<');
  }

  lemma QuotedIsTrimmed(name: string)
    ensures Trim(Quoted(name)) == Quoted(name)
  {
    GraphicIsNotWhitespace('"');
    TrimOfTrimmed(Quoted(name));
  }

  /** Decoding the printed form of a valid name gives back that name. */
  lemma DecodeOfPrinted(name: string)
    requires ValidName(name)
    ensures Decoded(PrintedName(name)) == Ok(Some(name))
  {
    if NeedsQuotes(name) {
      var q := Quoted(name);
      QuotedIsTrimmed(name);
      UnescapeOfEscape(name);
      assert q[1..|q| - 1] == Escape(name);
    } else {
      PlainIsNotSpecial(name);
    }
  }

  /** Every name decoding accepts is valid, and prints and decodes to itself. */
  lemma DecodedNamesSettle(display: string)
    requires Decoded(display).Ok? && Decoded(display).value.Some?
    ensures var name := Decoded(display).value.value;
            ValidName(name) && Decoded(PrintedName(name)) == Ok(Some(name))
  {
    ParsedNamesAreValid(DecodedText(Trim(display)));
    DecodeOfPrinted(Decoded(display).value.value);
  }

  // A printed mailbox names one mailbox only

  /** Reads a quoted string up to its closing quote: the raw content and what follows. */
  function ReadContent(s: string): Option<(string, string)> {
    if s == [] then None
    else if s[0] == '"' then Some(([], s[1..]))
    else if s[0] == '\\' && |s| == 1 then None
    else
      var n := if s[0] == '\\' then 2 else 1;
      match ReadContent(s[n..])
      case None => None
      case Some((content, rest)) => Some((s[..n] + content, rest))
  }

  /** The closing quote of a printed name is its first unescaped one, whatever follows. */
  lemma {:induction false} ReadOfEscape(name: string, rest: string)
    ensures ReadContent(Escape(name) + "\"" + rest) == Some((Escape(name), rest))
  {
    var s := Escape(name) + "\"" + rest;
    if name == [] {
      assert s == "\"" + rest;
    } else {
      ReadOfEscape(name[1..], rest);
      var tail := Escape(name[1..]);
      var n := if name[0] == '"' || name[0] == '\\' then 2 else 1;
      assert Escape(name)[n..] == tail;
      assert s[n..] == tail + "\"" + rest && s[..n] + tail == Escape(name);
    }
  }

  lemma QuotedPrefixCancels(a: string, b: string, x: string, y: string)
    requires Quoted(a) + x == Quoted(b) + y
    ensures a == b && x == y
  {
    assert (Quoted(a) + x)[1..] == Escape(a) + "\"" + x;
    assert (Quoted(b) + y)[1..] == Escape(b) + "\"" + y;
    ReadOfEscape(a, x);
    ReadOfEscape(b, y);
    UnescapeOfEscape(a);
    UnescapeOfEscape(b);
  }

  lemma PlainPrefixCancels(a: string, b: string, x: string, y: string)
    requires '<' !in a && '<' !in b && a + " <" + x == b + " <" + y
    ensures a == b && x == y
  {
    var s := a + " <" + x;
    assert s[|a| + 1] == '<' && s[|b| + 1] == '<';
    assert |a| == |b|;
    assert a == s[..|a|] && b == s[..|b|];
    assert x == s[|a| + 2..] && y == s[|b| + 2..];
  }

  /** An address the grammar accepts never ends in a closing angle bracket. */
  predicate PlausibleAddress(address: string) {
    address != [] && address[|address| - 1] != '>'
  }

  predicate ValidMailbox(m: Mailbox) {
    PlausibleAddress(m.address) && (m.displayName.Some? ==> ValidName(m.displayName.value))
  }

  /** Two valid mailboxes that print alike are equal. */
  lemma PrintedIsInjective(m: Mailbox, n: Mailbox)
    requires ValidMailbox(m) && ValidMailbox(n) && Printed(m) == Printed(n)
    ensures m == n
  {
    var p, q := Printed(m), Printed(n);
    assert m.displayName.Some? <==> p[|p| - 1] == '>';
    assert n.displayName.Some? <==> q[|q| - 1] == '>';
    if m.displayName.Some? {
      NamedFormsCancel(m.displayName.value, m.address, n.displayName.value, n.address);
    }
  }

  lemma NamedFormsCancel(a: string, x: string, b: string, y: string)
    requires a != [] && b != [] && PrintedName(a) + Angle(x) == PrintedName(b) + Angle(y)
    ensures a == b && x == y
  {
    QuoteShows(a, Angle(x));
    QuoteShows(b, Angle(y));
    if NeedsQuotes(a) {
      QuotedPrefixCancels(a, b, Angle(x), Angle(y));
      AngleCancels(x, y);
    } else {
      PlainFormsCancel(a, x, b, y);
    }
  }

  lemma AngleCancels(x: string, y: string)
    requires Angle(x) == Angle(y)
    ensures x == y
  {
    assert Angle(x)[2..|x| + 2] == x && Angle(y)[2..|y| + 2] == y;
  }

  lemma PlainFormsCancel(a: string, x: string, b: string, y: string)
    requires !NeedsQuotes(a) && !NeedsQuotes(b) && a + Angle(x) == b + Angle(y)
    ensures a == b && x == y
  {
    PlainIsNotSpecial(a);
    PlainIsNotSpecial(b);
    assert a + Angle(x) == a + " <" + (x + ">");
    assert b + Angle(y) == b + " <" + (y + ">");
    PlainPrefixCancels(a, b, x + ">", y + ">");
    assert (x + ">")[..|x|] == x && (y + ">")[..|y|] == y;
  }

  lemma QuoteShows(name: string, rest: string)
    requires name != []
    ensures (PrintedName(name) + rest)[0] == '"' <==> NeedsQuotes(name)
  {
    if !NeedsQuotes(name) {
      PlainIsNotSpecial(name);
    }
  }

  // Decoding, by what a quoted text consists of

  /** One scalar, or a backslash and the scalar it escapes. */
  predicate IsUnit(unit: string) {
    (|unit| == 1 && unit[0] != '\\') || (|unit| == 2 && unit[0] == '\\')
  }

  predicate AllUnits(units: seq<string>) {
    forall i :: 0 <= i < |units| ==> IsUnit(units[i])
  }

  /** The scalars the units stand for, in order. */
  function Meant(units: seq<string>): (r: string)
    requires AllUnits(units)
    ensures |r| == |units| && forall i :: 0 <= i < |r| ==> r[i] == units[i][|units[i]| - 1]
  {
    seq(|units|, i requires 0 <= i < |units| => units[i][|units[i]| - 1])
  }

  /** A text is units, and perhaps a backslash with nothing to escape. */
  ghost predicate MadeOf(s: string, units: seq<string>, tail: string) {
    AllUnits(units) && (tail == "" || tail == "\\") && s == Concat(units) + tail
  }

  /** Unescaping gives what the units stand for and drops a backslash at the end. */
  lemma {:induction false} UnescapeMeans(s: string, units: seq<string>, tail: string)
    requires MadeOf(s, units, tail)
    ensures Unescape(s) == Meant(units)
  {
    if units == [] {
      assert s == tail;
    } else {
      var first, rest := units[0], Concat(units[1..]) + tail;
      Associate(first, Concat(units[1..]), tail);
      assert s == first + rest && s[|first|..] == rest;
      UnescapeMeans(rest, units[1..], tail);
      assert Meant(units) == [first[|first| - 1]] + Meant(units[1..]);
    }
  }

  lemma Associate(a: string, b: string, c: string)
    ensures a + b + c == a + (b + c)
  {
  }

  /** Every text falls into units in this way. */
  lemma {:induction false} UnitsOf(s: string) returns (units: seq<string>, tail: string)
    ensures MadeOf(s, units, tail)
  {
    if s == [] || (|s| == 1 && s[0] == '\\') {
      units, tail := [], s;
      assert s == [] + s;
    } else {
      var n := if s[0] == '\\' then 2 else 1;
      var others;
      others, tail := UnitsOf(s[n..]);
      units := [s[..n]] + others;
      assert s == s[..n] + s[n..];
      assert units[1..] == others;
      Associate(s[..n], Concat(others), tail);
    }
  }

  ghost predicate UnescapesTo(s: string, text: string, units: seq<string>, tail: string) {
    MadeOf(s, units, tail) && text == Meant(units)
  }

  ghost predicate Escapes(s: string, text: string) {
    exists units, tail :: UnescapesTo(s, text, units, tail)
  }

  /** What a display part spells: the text between its outer quotes, unescaped, or the part as it stands. */
  ghost predicate Spells(part: string, text: string) {
    if |part| >= 2 && part[0] == part[|part| - 1] == '"' then Escapes(part[1..|part| - 1], text) else text == part
  }

  /**
   A blank display part is no name. Any other is the name it spells, trimmed, and is refused
   exactly when that is blank or longer than 255 scalars.
   */
  lemma DecodedExactly(display: string, text: string)
    requires Spells(Trim(display), text)
    ensures Decoded(display) ==
            if Blank(display) then Ok(None)
            else if Blank(text) || |Trim(text)| > 255 then Err(InvalidDisplayName)
            else Ok(Some(Trim(text)))
  {
    var part := Trim(display);
    TrimSplits(display);
    TrimSplits(text);
    if |part| >= 2 && part[0] == part[|part| - 1] == '"' {
      var units, tail :| UnescapesTo(part[1..|part| - 1], text, units, tail);
      UnescapeMeans(part[1..|part| - 1], units, tail);
    }
  }

  lemma EveryPartSpells(part: string) returns (text: string)
    ensures Spells(part, text)
  {
    text := part;
    if |part| >= 2 && part[0] == part[|part| - 1] == '"' {
      var units, tail := UnitsOf(part[1..|part| - 1]);
      text := Meant(units);
      assert UnescapesTo(part[1..|part| - 1], text, units, tail);
    }
  }

  // Printing quotes only where the grammar wants them

  /** A space, a tab, or an `atext` scalar: visible ASCII other than the specials of section 3.2.3 of RFC 5322. */
  predicate NeedsNoQuotes(c: char) {
    c == ' ' || c == '\t' || ('!' <= c <= '~' && c !in "()<>[]:;@\\,.\"")
  }

  lemma PlainExactly(c: char)
    ensures IsPlain(c) <==> NeedsNoQuotes(c)
  {
  }

  /** A name is printed as it stands exactly when all its scalars need no quotes. */
  lemma PrintedPlainly(name: string)
    ensures PrintedName(name) == name <==> forall i :: 0 <= i < |name| ==> NeedsNoQuotes(name[i])
  {
    forall i | 0 <= i < |name|
      ensures IsPlain(name[i]) <==> NeedsNoQuotes(name[i])
    {
      PlainExactly(name[i]);
    }
    if NeedsQuotes(name) {
      UnescapeOfEscape(name);
      UnescapeShortens(Escape(name));
      assert |Quoted(name)| > |name|;
    }
  }

  lemma {:induction false} UnescapeShortens(s: string)
    ensures |Unescape(s)| <= |s|
  {
    if s != [] && s[0] != '\\' {
      UnescapeShortens(s[1..]);
    } else if |s| > 1 {
      UnescapeShortens(s[2..]);
    }
  }

  /** Of all quoted texts that close at their last quote and decode to a name, the printed one is the shortest. */
  lemma {:induction false} EscapesSparingly(name: string, s: string)
    requires Unescape(s) == name && ReadContent(s + "\"") == Some((s, ""))
    ensures |Escape(name)| <= |s|
  {
    if s != [] {
      var n := if s[0] == '\\' then 2 else 1;
      ClosesAtEnd(s);
      SameRest(s, n);
      EscapesSparingly(name[1..], s[n..]);
    }
  }

  lemma ClosesAtEnd(s: string)
    requires s != []
    ensures ReadContent(s + "\"") == Some((s, "")) ==> s[0] != '"' && s != "\\"
  {
    assert s == "\\" ==> (s + "\"")[2..] == "";
  }

  lemma SameRest(s: string, n: nat)
    requires 0 < n <= |s| && s[0] != '"' && n == (if s[0] == '\\' then 2 else 1)
    requires ReadContent(s + "\"") == Some((s, ""))
    ensures ReadContent(s[n..] + "\"") == Some((s[n..], ""))
  {
    var t := s + "\"";
    assert t[n..] == s[n..] + "\"" && t[..n] == s[..n];
    var r := ReadContent(t[n..]);
    assert r.Some? && s[..n] + r.value.0 == s;
    assert r.value.0 == (s[..n] + r.value.0)[n..];
  }

  /** The display part in front of the address in angle brackets. */
  ghost predicate ShowsAs(printed: string, display: string, address: string) {
    printed == display + (" <" + address + ">")
  }

  /** A printed mailbox is its address, or the address in angle brackets behind a part that decodes to the name. */
  lemma PrintedIsReadable(m: Mailbox)
    requires ValidMailbox(m)
    ensures match m.displayName
            case None => Printed(m) == m.address
            case Some(name) =>
              exists display :: ShowsAs(Printed(m), display, m.address) && Decoded(display) == Ok(Some(name))
  {
    if m.displayName.Some? {
      var name := m.displayName.value;
      DecodeOfPrinted(name);
      assert ShowsAs(Printed(m), PrintedName(name), m.address);
    }
  }
}
