/**
 With which error an Org header is refused (`common/src/org.rs`): which lines count as header
 lines, the first of them that is refused, and the first rule an assembled block breaks.
 */
module OrgRefusals {
  import opened Wrappers
  import opened Text
  import opened PostText
  import opened OrgHeader
  import opened OrgBlock
  import opened OrgFields
  import opened OrgLines
  import Graphemes
  import OrgIdempotence
  import OrgNormalize
  import Slug
  import Naming
  import Render
  import Summary
  import Tags
  import Titles

  // Which lines are header lines

  function Beyond(s: string, limit: char): nat {
    if s == [] then 0 else (if s[0] > limit then 1 else 0) + Beyond(s[1..], limit)
  }

  /** Length in UTF-8: one byte for each scalar, and one more beyond each of three limits. */
  function Utf8Length(s: string): nat {
    |s| + Beyond(s, '\U{7F}') + Beyond(s, '\U{7FF}') + Beyond(s, '\U{FFFF}')
  }

  lemma {:induction false} BeyondSum(a: string, b: string, limit: char)
    ensures Beyond(a + b, limit) == Beyond(a, limit) + Beyond(b, limit)
  {
    if a == [] {
      assert a + b == b;
    } else {
      assert (a + b)[1..] == a[1..] + b;
      BeyondSum(a[1..], b, limit);
    }
  }

  lemma Utf8Sum(a: string, b: string)
    ensures Utf8Length(a + b) == Utf8Length(a) + Utf8Length(b)
  {
    BeyondSum(a, b, '\U{7F}');
    BeyondSum(a, b, '\U{7FF}');
    BeyondSum(a, b, '\U{FFFF}');
  }

  lemma {:induction false} BytesAreUtf8(s: string)
    ensures Bytes(s) == Utf8Length(s)
  {
    if s != [] {
      var front, last := s[..|s| - 1], s[|s| - 1];
      BytesAreUtf8(front);
      Utf8Sum(front, [last]);
      CharIsUtf8(last);
      assert s == front + [last];
    }
  }

  lemma BeyondOne(c: char, limit: char)
    ensures Beyond([c], limit) == if c > limit then 1 else 0
  {
    assert [c][1..] == [];
  }

  lemma CharIsUtf8(c: char)
    ensures Utf8Length([c]) == CharBytes(c)
  {
    BeyondOne(c, '\U{7F}');
    BeyondOne(c, '\U{7FF}');
    BeyondOne(c, '\U{FFFF}');
  }

  lemma {:induction false} OffsetIsLength(pieces: seq<string>, i: nat)
    requires i <= |pieces|
    ensures Offset(pieces, i) == Utf8Length(Concat(pieces[..i]))
  {
    if i > 0 {
      OffsetIsLength(pieces, i - 1);
      BytesAreUtf8(pieces[i - 1]);
      assert pieces[..i] == pieces[..i - 1] + [pieces[i - 1]];
      Graphemes.ConcatSnoc(pieces[..i - 1], pieces[i - 1]);
      Utf8Sum(Concat(pieces[..i - 1]), pieces[i - 1]);
    }
  }

  /** A line is a header line exactly when the text before it is shorter, in UTF-8, than the header. */
  lemma HeaderLines(pieces: seq<string>, end: nat, i: nat)
    requires i < |pieces|
    ensures InHeader(pieces, end, i) <==> Utf8Length(Concat(pieces[..i])) < end
  {
    OffsetIsLength(pieces, i);
  }

  // Properties without a value

  lemma BareProperty(r: Readers, name: string)
    requires Inked(name)
    ensures ReadProperty(r, name) ==
            if PropertyName(name).Some? then Err(OrgMetadataError.Blank(PROPERTY)) else Ok(None)
  {
    FirstBlank(name, "");
    assert name + "" == name && name[..|name|] == name;
  }

  lemma KnownNames(name: string)
    ensures PropertyName(name).Some? <==> ToAsciiLowercase(name) in PROPERTIES
  {
    if PropertyName(name).None? {
      UnknownName(name);
    } else {
      KnownName(name);
    }
  }

  /** A known property without a value is refused; anything else with no value is left alone. */
  lemma ReadsBareProperty(r: Readers, key: string, name: string, blank: string)
    requires ':' !in key && ToAsciiLowercase(key) == "property" && Inked(name) && Text.Blank(blank)
    ensures ReadLine(r, KeywordLine(key, " " + name + blank)) ==
            if ToAsciiLowercase(name) in PROPERTIES then Err(OrgMetadataError.Blank(PROPERTY)) else Ok(None)
  {
    KeywordOfLine(key, " " + name + blank);
    BareName(name, blank);
    LineOfProperty(r, KeywordLine(key, " " + name + blank), name);
    BareProperty(r, name);
    KnownNames(name);
  }

  lemma BareName(name: string, blank: string)
    requires Inked(name) && Text.Blank(blank)
    ensures Trim(" " + name + blank) == name
  {
    SpacesAreWhitespace();
    var s := name + blank;
    assert " " + name + blank == " " + s;
    assert (" " + s)[1..] == s && TrimStart(s) == s;
    TrimEndBlankSuffix(name, blank);
  }

  // The first refused line

  /** A header whose first `m` lines are fine is refused for line `m`: as it stands, or for a field that repeats. */
  lemma FirstRefusedLine(r: Readers, source: string, headerEnd: nat, clock: int, m: nat)
    requires var pieces := SplitInclusive(source);
             && m < |pieces| && WellFormedHeader(HeaderReader(r), pieces, headerEnd, m)
             && !WellFormedHeader(HeaderReader(r), pieces, headerEnd, m + 1)
    ensures match ReadLine(r, StripLf(SplitInclusive(source)[m]))
            case Err(e) => Block(r, source, headerEnd, clock) == Err(e)
            case Ok(Some(entry)) => Block(r, source, headerEnd, clock) == Err(Duplicate(FieldOf(entry)))
            case Ok(None) => false
  {
    var pieces := SplitInclusive(source);
    RefusedScan(HeaderReader(r), pieces, headerEnd, m);
    assert HeaderReader(r)(StripLf(pieces[m])) == ReadLine(r, StripLf(pieces[m]));
  }

  lemma RefusedScan(read: LineReader, pieces: seq<string>, end: nat, m: nat)
    requires m < |pieces| && WellFormedHeader(read, pieces, end, m) && !WellFormedHeader(read, pieces, end, m + 1)
    ensures match read(StripLf(pieces[m]))
            case Err(e) => ScanLines(read, pieces, end, |pieces|) == Err(e)
            case Ok(Some(entry)) => ScanLines(read, pieces, end, |pieces|) == Err(Duplicate(FieldOf(entry)))
            case Ok(None) => false
  {
    ScanPartitions(read, pieces, end, m);
    ScanPartitions(read, pieces, end, m + 1);
    RefusedStep(read, pieces, end, m);
    ErrorsPersist(read, pieces, end, m + 1, |pieces|);
  }

  lemma RefusedStep(read: LineReader, pieces: seq<string>, end: nat, m: nat)
    requires m < |pieces| && ScanLines(read, pieces, end, m).Ok? && ScanLines(read, pieces, end, m + 1).Err?
    ensures match read(StripLf(pieces[m]))
            case Err(e) => ScanLines(read, pieces, end, m + 1) == Err(e)
            case Ok(Some(entry)) => ScanLines(read, pieces, end, m + 1) == Err(Duplicate(FieldOf(entry)))
            case Ok(None) => false
  {
  }

  // The first broken rule of a block

  /** The lifecycle these entries ask for is refused with this error. */
  ghost predicate LifecycleRefused(r: Readers, es: seq<Entry>, clock: int, e: OrgMetadataError) {
    if !Names(es, STATUS) then !Undated(es) && e == DateWithoutStatus
    else if Names(es, DATE) != Names(es, DATE_TZ) then e == DateWithoutZone
    else if Names(es, DATE) && !exists at :: Dated(r, es, at) then e == Malformed(DATE)
    else if StatusIs(es, "published") then e == FuturePublication && exists at :: Dated(r, es, at) && at > clock
    else e == InvalidLifecycle
  }

  /** The same, of the collected fields. */
  predicate FieldsRefused(r: Readers, v: Fields, clock: int, e: OrgMetadataError) {
    var instant := if v.date.Some? && v.timezone.Some? then r.orgDate(v.date.value, v.timezone.value) else None;
    if v.status.None? then (v.date.Some? || v.timezone.Some?) && e == DateWithoutStatus
    else if v.date.Some? != v.timezone.Some? then e == DateWithoutZone
    else if v.date.Some? && instant.None? then e == Malformed(DATE)
    else if ToAsciiLowercase(v.status.value) == "published" then
      e == FuturePublication && instant.Some? && instant.value > clock
    else e == InvalidLifecycle
  }

  lemma RefusedFields(r: Readers, v: Fields, clock: int)
    requires ParseLifecycle(r.orgDate, v, clock).Err?
    ensures FieldsRefused(r, v, clock, ParseLifecycle(r.orgDate, v, clock).error)
  {
  }

  lemma DateFields(v: Fields, es: seq<Entry>)
    requires Collects(v, es) && SingleSlots(es)
    ensures Names(es, DATE) <==> v.date.Some?
    ensures Names(es, DATE_TZ) <==> v.timezone.Some?
  {
    SlotSays(v, es, DateEntry(""));
    SlotSays(v, es, DateTimezoneEntry(""));
  }

  lemma RefusedLifecycle(r: Readers, v: Fields, es: seq<Entry>, clock: int, e: OrgMetadataError)
    requires Collects(v, es) && SingleSlots(es) && FieldsRefused(r, v, clock, e)
    ensures LifecycleRefused(r, es, clock, e)
  {
    StatusSlot(v, es, "published");
    DateFields(v, es);
    forall at
      ensures Dated(r, es, at) <==>
              v.date.Some? && v.timezone.Some? && r.orgDate(v.date.value, v.timezone.value) == Some(at)
    {
      DateSlots(r, v, es, at);
    }
    if v.date.Some? && v.timezone.Some? && r.orgDate(v.date.value, v.timezone.value).Some? {
      DateSlots(r, v, es, r.orgDate(v.date.value, v.timezone.value).value);
    }
  }

  lemma AssembledRefusal(r: Readers, s: Scan, clock: int)
    requires Assemble(r, s, clock).Err?
    ensures var v, e := s.fields, Assemble(r, s, clock).error;
            if v.titles != [] && ParseTitle(Join(v.titles)).None? then e == Malformed(TITLE)
            else if v.summaries != [] && Summary.ParseSummary(Join(v.summaries)).None? then e == Malformed(DESCRIPTION)
            else if v.tags != [] && Tags.Validated(r.lower, v.tags).Err? then e == Malformed(KEYWORDS)
            else ParseLifecycle(r.orgDate, v, clock) == Err(e)
  {
  }

  predicate TitlesFine(titles: seq<string>) {
    |titles| <= 1 && (titles == [] || OneLine(titles[0]))
  }

  predicate DescriptionsFine(texts: seq<string>) {
    texts == [] || Summary.ParseSummary(Join(texts)).Some?
  }

  /**
   A block whose header lines are all fine is refused for the first rule it breaks: its titles,
   its descriptions, the number of its tags, its lifecycle.
   */
  lemma BlockRefusal(r: Readers, source: string, headerEnd: nat, clock: int)
    requires ScanOf(r, source, headerEnd).Ok? && Block(r, source, headerEnd, clock).Err?
    ensures var es := EntriesOf(r, source, headerEnd);
            var e := Block(r, source, headerEnd, clock).error;
            if !TitlesFine(OrgBlock.Titles(es)) then e == Malformed(TITLE)
            else if !DescriptionsFine(Descriptions(es)) then e == Malformed(DESCRIPTION)
            else if |Tags.Slugs(r.lower, Labels(es))| > Tags.MAX_TAGS_PER_POST then e == Malformed(KEYWORDS)
            else LifecycleRefused(r, es, clock, e)
  {
    var pieces := SplitInclusive(source);
    var es := EntriesOf(r, source, headerEnd);
    var s := ScanOf(r, source, headerEnd).value;
    var e := Block(r, source, headerEnd, clock).error;
    ScanOfEntries(r, source, headerEnd);
    TitlesAreTrimmed(r, pieces, headerEnd, |pieces|);
    TitleDoors(OrgBlock.Titles(es));
    TagDoor(r.lower, Labels(es));
    AssembledRefusal(r, s, clock);
    if ParseLifecycle(r.orgDate, s.fields, clock) == Err(e) {
      RefusedFields(r, s.fields, clock);
      RefusedLifecycle(r, s.fields, es, clock, e);
    }
  }

  // The first broken rule of a request

  /** The body of a text is refused: no text, a bad title, no slug, or nothing beside the title. */
  predicate BodyRefused(u: Graphemes.Unicode, text: string, e: OrgMetadataError) {
    if Text.Blank(text) then e == MetadataOnly
    else if Titles.DerivedTitle(None, text, Render.Org).Err? then e == Malformed(TITLE)
    else if OrgNormalize.StraySeed(u, text) then e == OrgMetadataError.UnreachableArm
    else e == MetadataOnly && AllBlank(Render.AuthoredLines(Lines(text)))
  }

  lemma BodyRefusal(u: Graphemes.Unicode, body: string, headerSuppliesTitle: bool)
    requires Slug.WellFormed(u) && OrgNormalize.CanonicalBody(u, body, headerSuppliesTitle).Err?
    ensures BodyRefused(u, OrgNormalize.MarkedSource(body, headerSuppliesTitle),
                        OrgNormalize.CanonicalBody(u, body, headerSuppliesTitle).error)
  {
    var text := OrgNormalize.MarkedSource(body, headerSuppliesTitle);
    BodyDoor(text);
    if ValidBody(text) && Titles.DerivedTitle(None, text, Render.Org).Ok? {
      Naming.NamingBySeed(u, None, text, Render.Org);
      OrgIdempotence.StoredExactly(text);
    }
  }

  /** The first rule a request with an accepted block breaks. */
  predicate RequestRefused(u: Graphemes.Unicode, parsed: ParsedBlock, structured: OrgNormalize.Structured,
                           operation: OrgNormalize.Operation, e: OrgMetadataError)
  {
    var text := OrgNormalize.MarkedSource(parsed.body, parsed.title.Present?);
    var audiences := if structured.audiences.Present? then structured.audiences else parsed.audiences;
    if !OrgNormalize.FitsOperation(parsed.bookkeeping, operation) then
      e == if operation.Create? then CreateWithSync else WrongTarget
    else if !OrgNormalize.Storable(u, text) then BodyRefused(u, text, e)
    else e == MixedPrivate && !OrgNormalize.PrivateAlone(audiences)
  }

  lemma RefusedBlock(u: Graphemes.Unicode, parsed: ParsedBlock, structured: OrgNormalize.Structured,
                     operation: OrgNormalize.Operation)
    requires Slug.WellFormed(u) && OrgNormalize.NormalizedBlock(u, parsed, structured, operation).Err?
    ensures RequestRefused(u, parsed, structured, operation,
                           OrgNormalize.NormalizedBlock(u, parsed, structured, operation).error)
  {
    OrgNormalize.RulesOfAudiencesAndOperation(
      OrgNormalize.Choose(structured.audiences, parsed.audiences), parsed.bookkeeping, operation);
    OrgNormalize.BodyVerdict(u, parsed.body, parsed.title.Present?);
    if OrgNormalize.CanonicalBody(u, parsed.body, parsed.title.Present?).Err? {
      BodyRefusal(u, parsed.body, parsed.title.Present?);
    }
  }

  /**
   A refused request breaks, first of these: the rule on structured publications, a rule of its
   header block, the rule on the post its header names, a rule on its body, the rule on private
   audiences.
   */
  lemma NormalizedRefusal(u: Graphemes.Unicode, r: Readers, source: string, headerEnd: nat,
                          structured: OrgNormalize.Structured, operation: OrgNormalize.Operation, clock: int)
    requires Slug.WellFormed(u)
    requires OrgNormalize.Normalized(u, r, source, headerEnd, structured, operation, clock).Err?
    ensures var e := OrgNormalize.Normalized(u, r, source, headerEnd, structured, operation, clock).error;
            if structured.lifecycle.Present? && structured.lifecycle.value.Published?
               && structured.lifecycle.value.at > clock then e == FuturePublication
            else
              match Block(r, source, headerEnd, clock)
              case Err(refused) => e == refused
              case Ok(parsed) => RequestRefused(u, parsed, structured, operation, e)
  {
    var block := Block(r, source, headerEnd, clock);
    if block.Ok? && ValidateLifecycle(structured.lifecycle, clock).Ok? {
      RefusedBlock(u, block.value, structured, operation);
    }
  }
}
