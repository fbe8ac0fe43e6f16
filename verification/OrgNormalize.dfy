/**
 Normalizing an Org post (`normalize_org` of `common/src/org.rs`): the structured fields take
 precedence over the header, the remaining body is canonicalized, and every accepted result
 meets the rules on publication times, audiences, identifiers and bodies.
 */
module OrgNormalize {
  import opened Wrappers
  import opened Text
  import opened PostText
  import opened Render
  import opened CanonicalLaws
  import opened OrgHeader
  import opened OrgBlock
  import Graphemes
  import Naming
  import OrgIdempotence
  import Slug
  import SlugLaws
  import SlugSamples
  import Titles
  import TitleSources

  datatype Operation = Create | Update(postId: int)

  datatype Structured = Structured(
    title: Presence<string>,
    summary: Presence<string>,
    tags: Presence<seq<string>>,
    audiences: Presence<seq<AudienceTarget>>,
    lifecycle: Presence<PublicationState>)

  datatype Normalization = Normalization(body: string, metadata: Structured, bookkeeping: Bookkeeping)

  function Choose<T>(structured: Presence<T>, header: Presence<T>): Presence<T> {
    if structured.Present? then structured else header
  }

  predicate MixesPrivate(audiences: Presence<seq<AudienceTarget>>) {
    audiences.Present? && Private in audiences.value && |audiences.value| != 1
  }

  predicate RefusedBookkeeping(b: Bookkeeping, operation: Operation) {
    match operation
    case Create => b.postId.Some? || b.synced.Some? || b.syncedAt.Some?
    case Update(id) => b.postId.Some? && b.postId.value != id
  }

  function OperationError(operation: Operation): OrgMetadataError {
    if operation.Create? then CreateWithSync else WrongTarget
  }

  // The canonical body

  const MARKER_LINE := "#+TITLE:"

  /** The header's title, when it has one, is represented to the canonicalizer by a marker line. */
  function MarkedSource(body: string, headerSuppliesTitle: bool): string {
    if headerSuppliesTitle then MARKER_LINE + "\n" + body else body
  }

  /** `canonical_body`: the stored body, and the title its text supplies. */
  function CanonicalBody(u: Graphemes.Unicode, body: string, headerSuppliesTitle: bool)
    : Result<(string, Option<string>), OrgMetadataError>
  {
    match ParseBody(MarkedSource(body, headerSuppliesTitle))
    case None => Err(MetadataOnly)
    case Some(source) =>
      match Naming.DerivePostNaming(u, None, source, Org)
      case Err(InvalidTitle) => Err(Malformed(TITLE))
      case Err(UnreachableArm) => Err(OrgMetadataError.UnreachableArm)
      case Ok((title, _)) =>
        match CanonicalizeBody(source, Org)
        case Some(canonical) => Ok((canonical, title))
        case None => Err(MetadataOnly)
  }

  /** The fields of the request over those of the header. */
  function Merged(parsed: ParsedBlock, structured: Structured, headingTitle: Option<string>): Structured {
    var chosen := Choose(structured.title, parsed.title);
    var title := if chosen.Absent? && headingTitle.Some? then Present(headingTitle.value) else chosen;
    Structured(
      title, Choose(structured.summary, parsed.summary), Choose(structured.tags, parsed.tags),
      Choose(structured.audiences, parsed.audiences), Choose(structured.lifecycle, parsed.lifecycle))
  }

  /** What a parsed block and the structured fields amount to. */
  function NormalizedBlock(u: Graphemes.Unicode, parsed: ParsedBlock, structured: Structured, operation: Operation)
    : Result<Normalization, OrgMetadataError>
  {
    if RefusedBookkeeping(parsed.bookkeeping, operation) then Err(OperationError(operation))
    else
      match CanonicalBody(u, parsed.body, parsed.title.Present?)
      case Err(e) => Err(e)
      case Ok((body, headingTitle)) =>
        if MixesPrivate(Choose(structured.audiences, parsed.audiences)) then Err(MixedPrivate)
        else Ok(Normalization(body, Merged(parsed, structured, headingTitle), parsed.bookkeeping))
  }

  function Normalized(u: Graphemes.Unicode, r: Readers, source: string, headerEnd: nat, structured: Structured,
                      operation: Operation, clock: int): Result<Normalization, OrgMetadataError>
  {
    match ValidateLifecycle(structured.lifecycle, clock)
    case Err(e) => Err(e)
    case Ok(_) =>
      match Block(r, source, headerEnd, clock)
      case Err(e) => Err(e)
      case Ok(parsed) => NormalizedBlock(u, parsed, structured, operation)
  }

  // The marker keeps a heading that would otherwise be the title source

  lemma MarkerIsTitleLine()
    ensures IsTitleLine(MARKER_LINE)
  {
    ExampleKeyword();
    TitleLineOf("TITLE:", "");
    assert "#+" + "TITLE:" + "" == MARKER_LINE;
  }

  lemma MarkerIsTitle()
    ensures IsTitleLine(MARKER_LINE) && IsHeaderLine(MARKER_LINE) && StripCr(MARKER_LINE) == MARKER_LINE
    ensures '\n' !in MARKER_LINE && !Text.Blank(MARKER_LINE)
  {
    MarkerIsTitleLine();
    MarkerIsPlain();
    TitleLineFacts(MARKER_LINE);
  }

  lemma MarkerIsPlain()
    ensures StripCr(MARKER_LINE) == MARKER_LINE && '\n' !in MARKER_LINE
  {
  }

  lemma TitleLineFacts(line: string)
    requires IsTitleLine(line)
    ensures IsHeaderLine(line) && !Text.Blank(line)
  {
    TitleLineIsHeader(line);
  }

  /** The lines left under a marker: no heading is a title source. */
  function MarkedLines(ls: seq<string>): seq<string> {
    var e := HeaderLength(ls);
    NonTitle(ls[..e]) + ls[e..]
  }

  lemma MarkedAuthored(ls: seq<string>)
    ensures AuthoredLines([MARKER_LINE] + ls) == MarkedLines(ls)
  {
    MarkerIsTitle();
    var marked := [MARKER_LINE] + ls;
    var e := HeaderLength(ls);
    assert marked[1..] == ls && HeaderLength(marked) == e + 1;
    assert marked[..e + 1] == [MARKER_LINE] + ls[..e] && marked[e + 1..] == ls[e..];
    assert ([MARKER_LINE] + ls[..e])[0] == MARKER_LINE && ([MARKER_LINE] + ls[..e])[1..] == ls[..e];
    assert HasTitle(marked[..e + 1]);
    assert NonTitle(marked[..e + 1]) == NonTitle(ls[..e]);
  }

  /** The lines of a marked source are kept as they would be without a marker, heading included. */
  lemma MarkedBody(body: string)
    ensures var ls := Lines(body);
            var kept := OrgKept(Lines(MarkedSource(body, true)));
            && kept == DropLeadingBlank(MarkedLines(ls))
            && (!DropsHeading(ls) ==> kept == OrgKept(ls))
            && (DropsHeading(ls) ==> kept == ls[HeaderLength(ls)..]
                                     && OrgKept(ls) == DropLeadingBlank(kept[1..]))
  {
    MarkerIsTitle();
    var ls := Lines(body);
    LinesStep(MARKER_LINE, body);
    MarkedAuthored(ls);
    if DropsHeading(ls) {
      KeptHeading(ls);
    }
  }

  lemma KeptHeading(ls: seq<string>)
    requires DropsHeading(ls)
    ensures var e := HeaderLength(ls);
            && DropLeadingBlank(MarkedLines(ls)) == ls[e..]
            && OrgKept(ls) == DropLeadingBlank(ls[e + 1..])
  {
    var e := HeaderLength(ls);
    TitleLineIsHeader(ls[e]);
    BlankHeader(ls[..e], ls[e..]);
    BlankHeader(ls[..e], ls[e + 1..]);
  }

  // What every accepted normalization guarantees

  /** The rules on metadata hold of every accepted result, whatever the source and the structured fields. */
  lemma NormalizedMetadata(u: Graphemes.Unicode, r: Readers, source: string, headerEnd: nat, structured: Structured,
                           operation: Operation, clock: int)
    requires Normalized(u, r, source, headerEnd, structured, operation, clock).Ok?
    ensures var n := Normalized(u, r, source, headerEnd, structured, operation, clock).value;
            var lifecycle := n.metadata.lifecycle;
            && (lifecycle.Present? && lifecycle.value.Published? ==> lifecycle.value.at <= clock)
            && (OnTime(lifecycle, clock) <==> OnTime(structured.lifecycle, clock))
            && (!OnTime(lifecycle, clock) ==> lifecycle == structured.lifecycle && lifecycle.value.Scheduled?)
            && !MixesPrivate(n.metadata.audiences)
            && !RefusedBookkeeping(n.bookkeeping, operation)
  {
    HeaderBodyAndLifecycle(r, source, headerEnd, clock);
    ChosenMetadata(u, r, source, headerEnd, structured, operation, clock);
  }

  lemma ChosenMetadata(u: Graphemes.Unicode, r: Readers, source: string, headerEnd: nat, structured: Structured,
                       operation: Operation, clock: int)
    requires Normalized(u, r, source, headerEnd, structured, operation, clock).Ok?
    ensures var n := Normalized(u, r, source, headerEnd, structured, operation, clock).value;
            var parsed := Block(r, source, headerEnd, clock).value;
            && ValidateLifecycle(structured.lifecycle, clock).Ok?
            && n.metadata.lifecycle == Choose(structured.lifecycle, parsed.lifecycle)
            && !MixesPrivate(n.metadata.audiences)
            && !RefusedBookkeeping(n.bookkeeping, operation)
  {
  }

  /** A private audience stands alone. */
  predicate PrivateAlone(audiences: Presence<seq<AudienceTarget>>) {
    audiences.Present? ==>
      forall i :: 0 <= i < |audiences.value| && audiences.value[i] == Private ==> |audiences.value| == 1
  }

  /** A header may not name a post that is being created, nor another post than the one updated. */
  predicate FitsOperation(b: Bookkeeping, operation: Operation) {
    match operation
    case Create => b.postId == None && b.synced == None && b.syncedAt == None
    case Update(id) => b.postId == None || b.postId == Some(id)
  }

  lemma RulesOfAudiencesAndOperation(audiences: Presence<seq<AudienceTarget>>, b: Bookkeeping, operation: Operation)
    ensures MixesPrivate(audiences) <==> !PrivateAlone(audiences)
    ensures RefusedBookkeeping(b, operation) <==> !FitsOperation(b, operation)
  {
  }

  /** Each structured field replaces the header's; bookkeeping comes from the header alone. */
  lemma NormalizedFields(u: Graphemes.Unicode, r: Readers, source: string, headerEnd: nat, structured: Structured,
                         operation: Operation, clock: int)
    requires Normalized(u, r, source, headerEnd, structured, operation, clock).Ok?
    ensures var n := Normalized(u, r, source, headerEnd, structured, operation, clock).value;
            var parsed := Block(r, source, headerEnd, clock).value;
            && n.metadata.summary == (if structured.summary.Present? then structured.summary else parsed.summary)
            && n.metadata.tags == (if structured.tags.Present? then structured.tags else parsed.tags)
            && n.metadata.audiences ==
               (if structured.audiences.Present? then structured.audiences else parsed.audiences)
            && n.metadata.lifecycle ==
               (if structured.lifecycle.Present? then structured.lifecycle else parsed.lifecycle)
            && n.bookkeeping == parsed.bookkeeping
            && PrivateAlone(n.metadata.audiences) && FitsOperation(n.bookkeeping, operation)
  {
    var parsed := Block(r, source, headerEnd, clock).value;
    BlockFields(u, parsed, structured, operation);
    RulesOfAudiencesAndOperation(Choose(structured.audiences, parsed.audiences), parsed.bookkeeping, operation);
  }

  lemma BlockFields(u: Graphemes.Unicode, parsed: ParsedBlock, structured: Structured, operation: Operation)
    requires NormalizedBlock(u, parsed, structured, operation).Ok?
    ensures var n := NormalizedBlock(u, parsed, structured, operation).value;
            && n.metadata.summary == Choose(structured.summary, parsed.summary)
            && n.metadata.tags == Choose(structured.tags, parsed.tags)
            && n.metadata.audiences == Choose(structured.audiences, parsed.audiences)
            && n.metadata.lifecycle == Choose(structured.lifecycle, parsed.lifecycle)
            && n.bookkeeping == parsed.bookkeeping
            && !MixesPrivate(n.metadata.audiences) && !RefusedBookkeeping(n.bookkeeping, operation)
  {
  }

  /** The body of a text can be stored: it has text, a title or none, a slug, and text beside the title. */
  predicate Storable(u: Graphemes.Unicode, text: string) {
    && ValidBody(text) && Titles.DerivedTitle(None, text, Org).Ok? && !StraySeed(u, text)
    && !AllBlank(AuthoredLines(Lines(text)))
  }

  /**
   A request is accepted exactly when no structured publication lies in the future, the header
   block is accepted and fits the operation, the unconsumed lines can be stored, and a private
   audience stands alone.
   */
  lemma NormalizedVerdict(u: Graphemes.Unicode, r: Readers, source: string, headerEnd: nat, structured: Structured,
                          operation: Operation, clock: int)
    requires Slug.WellFormed(u)
    ensures var pieces := SplitInclusive(source);
            var text := Join(BodyLines(HeaderReader(r), pieces, headerEnd, |pieces|));
            Normalized(u, r, source, headerEnd, structured, operation, clock).Ok? <==>
            && (forall at :: structured.lifecycle == Present(Published(at)) ==> at <= clock)
            && Block(r, source, headerEnd, clock).Ok?
            && var parsed := Block(r, source, headerEnd, clock).value;
            && FitsOperation(parsed.bookkeeping, operation)
            && Storable(u, MarkedSource(text, parsed.title.Present?))
            && PrivateAlone(if structured.audiences.Present? then structured.audiences else parsed.audiences)
  {
    if Block(r, source, headerEnd, clock).Ok? {
      var parsed := Block(r, source, headerEnd, clock).value;
      HeaderBodyAndLifecycle(r, source, headerEnd, clock);
      RulesOfAudiencesAndOperation(Choose(structured.audiences, parsed.audiences), parsed.bookkeeping, operation);
      BodyVerdict(u, parsed.body, parsed.title.Present?);
      BlockAccepted(u, parsed, structured, operation);
    }
    LifecycleRule(structured.lifecycle, clock);
  }

  lemma LifecycleRule(lifecycle: Presence<PublicationState>, clock: int)
    ensures ValidateLifecycle(lifecycle, clock).Ok? <==>
            forall at :: lifecycle == Present(Published(at)) ==> at <= clock
  {
  }

  lemma BlockAccepted(u: Graphemes.Unicode, parsed: ParsedBlock, structured: Structured, operation: Operation)
    ensures NormalizedBlock(u, parsed, structured, operation).Ok? <==>
            && !RefusedBookkeeping(parsed.bookkeeping, operation)
            && CanonicalBody(u, parsed.body, parsed.title.Present?).Ok?
            && !MixesPrivate(Choose(structured.audiences, parsed.audiences))
  {
  }

  lemma BodyVerdict(u: Graphemes.Unicode, body: string, headerSuppliesTitle: bool)
    requires Slug.WellFormed(u)
    ensures CanonicalBody(u, body, headerSuppliesTitle).Ok? <==> Storable(u, MarkedSource(body, headerSuppliesTitle))
  {
    var text := MarkedSource(body, headerSuppliesTitle);
    if ValidBody(text) && Titles.DerivedTitle(None, text, Org).Ok? {
      Naming.NamingBySeed(u, None, text, Org);
      OrgIdempotence.StoredExactly(text);
    }
  }

  /**
   A structured schedule is never compared with the clock: whatever time it names, it is
   accepted with the rest of the request, and becomes the lifecycle.
   */
  lemma StructuredScheduleIsUnchecked(u: Graphemes.Unicode, r: Readers, source: string, headerEnd: nat,
                                      structured: Structured, operation: Operation, clock: int, at: int)
    requires Normalized(u, r, source, headerEnd, structured, operation, clock).Ok?
    ensures var n := Normalized(u, r, source, headerEnd, structured, operation, clock).value;
            var scheduled := structured.(lifecycle := Present(Scheduled(at)));
            Normalized(u, r, source, headerEnd, scheduled, operation, clock) ==
            Ok(n.(metadata := n.metadata.(lifecycle := Present(Scheduled(at)))))
  {
    ScheduleIsMerged(u, Block(r, source, headerEnd, clock).value, structured, operation, at);
  }

  lemma ScheduleIsMerged(u: Graphemes.Unicode, parsed: ParsedBlock, structured: Structured, operation: Operation,
                         at: int)
    requires NormalizedBlock(u, parsed, structured, operation).Ok?
    ensures var n := NormalizedBlock(u, parsed, structured, operation).value;
            NormalizedBlock(u, parsed, structured.(lifecycle := Present(Scheduled(at))), operation) ==
            Ok(n.(metadata := n.metadata.(lifecycle := Present(Scheduled(at)))))
  {
  }

  /** The slug seed of a text has a stray mark. */
  predicate StraySeed(u: Graphemes.Unicode, text: string) {
    && ValidBody(text)
    && Titles.DerivedTitle(None, text, Org).Ok?
    && Slug.StrayMark(u, Slug.TitleClusters(u, Naming.Seed(Titles.DerivedTitle(None, text, Org).value, text)))
  }

  /**
   A request reaches the arm called unreachable exactly when the lines no header field
   consumed, under the marker if the header has a title, have a slug seed with a stray mark,
   and nothing is refused before.
   */
  lemma UnreachableExactly(u: Graphemes.Unicode, r: Readers, source: string, headerEnd: nat, structured: Structured,
                           operation: Operation, clock: int)
    requires Slug.WellFormed(u)
    ensures var pieces := SplitInclusive(source);
            var text := Join(BodyLines(HeaderReader(r), pieces, headerEnd, |pieces|));
            var result := Normalized(u, r, source, headerEnd, structured, operation, clock);
            result == Err(OrgMetadataError.UnreachableArm) <==>
            && ValidateLifecycle(structured.lifecycle, clock).Ok?
            && Block(r, source, headerEnd, clock).Ok?
            && var parsed := Block(r, source, headerEnd, clock).value;
            && !RefusedBookkeeping(parsed.bookkeeping, operation)
            && StraySeed(u, MarkedSource(text, parsed.title.Present?))
  {
    BlockReachesNoArm(r, source, headerEnd, clock);
    if Block(r, source, headerEnd, clock).Ok? {
      HeaderBodyAndLifecycle(r, source, headerEnd, clock);
      BlockUnreachable(u, Block(r, source, headerEnd, clock).value, structured, operation);
    }
  }

  lemma BlockUnreachable(u: Graphemes.Unicode, parsed: ParsedBlock, structured: Structured, operation: Operation)
    requires Slug.WellFormed(u)
    ensures NormalizedBlock(u, parsed, structured, operation) == Err(OrgMetadataError.UnreachableArm) <==>
            && !RefusedBookkeeping(parsed.bookkeeping, operation)
            && StraySeed(u, MarkedSource(parsed.body, parsed.title.Present?))
  {
    BodyUnreachable(u, parsed.body, parsed.title.Present?);
  }

  lemma BodyUnreachable(u: Graphemes.Unicode, body: string, headerSuppliesTitle: bool)
    requires Slug.WellFormed(u)
    ensures CanonicalBody(u, body, headerSuppliesTitle) == Err(OrgMetadataError.UnreachableArm) <==>
            StraySeed(u, MarkedSource(body, headerSuppliesTitle))
  {
    var text := MarkedSource(body, headerSuppliesTitle);
    if ValidBody(text) && Titles.DerivedTitle(None, text, Org).Ok? {
      Naming.NamingBySeed(u, None, text, Org);
    }
  }

  const NOTHING := Structured(Absent, Absent, Absent, Absent, Absent)

  /** A request that is accepted with a schedule in the past. */
  lemma PastScheduleIsAccepted(r: Readers, at: int, clock: int)
    requires at < clock
    ensures var late := NOTHING.(lifecycle := Present(Scheduled(at)));
            var n := Normalized(SlugSamples.Sample(), r, "x", 0, late, Create, clock);
            n.Ok? && n.value.metadata.lifecycle == Present(Scheduled(at)) && !OnTime(n.value.metadata.lifecycle, clock)
  {
    PlainIsAccepted(r, clock);
    StructuredScheduleIsUnchecked(SlugSamples.Sample(), r, "x", 0, NOTHING, Create, clock, at);
  }

  lemma PlainIsAccepted(r: Readers, clock: int)
    ensures Normalized(SlugSamples.Sample(), r, "x", 0, NOTHING, Create, clock).Ok?
  {
    PlainBlock(r, clock);
    PlainCanonicalBody();
  }

  lemma PlainBlock(r: Readers, clock: int)
    ensures Block(r, "x", 0, clock) == Ok(ParsedBlock("x", Absent, Absent, Absent, Absent, Absent, NO_BOOKKEEPING))
  {
    assert SplitInclusive("x") == ["x"];
    assert ScanLines(HeaderReader(r), ["x"], 0, 0) == Ok(Scan(NO_FIELDS, []));
    assert StripLf("x") == "x";
    assert [] + ["x"] == ["x"];
    assert ScanOf(r, "x", 0) == Ok(Scan(NO_FIELDS, ["x"]));
  }

  lemma PlainCanonicalBody()
    ensures CanonicalBody(SlugSamples.Sample(), "x", false).Ok?
  {
    GraphicIsNotWhitespace('x');
    assert "x"[0] == 'x';
    BodyDoor("x");
    PlainNaming();
    assert Lines("x") == ["x"];
    ExampleText();
    HeaderLengthAt(["x"], 0);
    assert AuthoredLines(["x"]) == ["x"];
    assert ["x"][0] == "x";
    OrgKeepsAuthoredInk("x");
  }

  lemma PlainSeed()
    requires ValidBody("x")
    ensures !Slug.StrayMark(SlugSamples.Sample(), Slug.TitleClusters(SlugSamples.Sample(), Naming.Seed(None, "x")))
  {
    GraphicIsNotWhitespace('x');
    assert Lines("x") == ["x"];
    TrimOfTrimmed("x");
    assert Naming.Seed(None, "x") == "x";
    SlugSamples.One('x');
    SlugSamples.OneAlone("x");
    SlugSamples.ComposedIsFixed("x");
    SlugLaws.SafeTitles(SlugSamples.Sample(), ["x"]);
  }

  lemma PlainNaming()
    requires ValidBody("x")
    ensures Naming.DerivePostNaming(SlugSamples.Sample(), None, "x", Org).Ok?
  {
    assert Lines("x") == ["x"];
    ExampleText();
    HeaderLengthAt(["x"], 0);
    TitleSources.PublishedTitle("x");
    assert ["x"][..0] == [];
    SlugSamples.SampleIsWellFormed();
    PlainSeed();
    Naming.NamingBySeed(SlugSamples.Sample(), None, "x", Org);
  }

  /**
   The title is the structured one, else the value of the header's only TITLE line, else the
   title derived from the body text.
   */
  lemma NormalizedTitle(u: Graphemes.Unicode, r: Readers, source: string, headerEnd: nat, structured: Structured,
                        operation: Operation, clock: int)
    requires Normalized(u, r, source, headerEnd, structured, operation, clock).Ok?
    ensures var title := Normalized(u, r, source, headerEnd, structured, operation, clock).value.metadata.title;
            var pieces := SplitInclusive(source);
            var titles := OrgBlock.Titles(Entries(HeaderReader(r), pieces, headerEnd, |pieces|));
            var text := Join(BodyLines(HeaderReader(r), pieces, headerEnd, |pieces|));
            && |titles| <= 1
            && (structured.title.Present? ==> title == structured.title)
            && (structured.title.Absent? && titles != [] ==> title == Present(titles[0]))
            && (structured.title.Absent? && titles == [] ==>
                  title == match Titles.DerivedTitle(None, text, Org)
                           case Ok(Some(t)) => Present(t)
                           case _ => Absent)
  {
    HeaderTitle(r, source, headerEnd, clock);
    HeaderBodyAndLifecycle(r, source, headerEnd, clock);
    ChosenTitle(u, r, source, headerEnd, structured, operation, clock);
  }

  lemma ChosenTitle(u: Graphemes.Unicode, r: Readers, source: string, headerEnd: nat, structured: Structured,
                    operation: Operation, clock: int)
    requires Normalized(u, r, source, headerEnd, structured, operation, clock).Ok?
    ensures var title := Normalized(u, r, source, headerEnd, structured, operation, clock).value.metadata.title;
            var parsed := Block(r, source, headerEnd, clock).value;
            title == if structured.title.Present? then structured.title
                     else if parsed.title.Present? then parsed.title
                     else match Titles.DerivedTitle(None, parsed.body, Org)
                          case Ok(Some(t)) => Present(t)
                          case _ => Absent
  {
    var parsed := Block(r, source, headerEnd, clock).value;
    BodyTitle(u, parsed.body, parsed.title.Present?);
  }

  lemma BodyTitle(u: Graphemes.Unicode, body: string, headerSuppliesTitle: bool)
    requires CanonicalBody(u, body, headerSuppliesTitle).Ok?
    ensures var source := MarkedSource(body, headerSuppliesTitle);
            && ValidBody(source)
            && Titles.DerivedTitle(None, source, Org) == Ok(CanonicalBody(u, body, headerSuppliesTitle).value.1)
            && CanonicalizeOrg(source) == Some(CanonicalBody(u, body, headerSuppliesTitle).value.0)
  {
  }

  /**
   The stored body holds, in order, every non-whitespace scalar of the lines no header field
   consumed, except `#+title:` lines in front and, without a header title, one leading
   heading. The text of that heading survives, as the title, exactly when no title is
   structured: a structured title replaces it and it is stored nowhere.
   */
  lemma NormalizedBody(u: Graphemes.Unicode, r: Readers, source: string, headerEnd: nat, structured: Structured,
                       operation: Operation, clock: int)
    requires Normalized(u, r, source, headerEnd, structured, operation, clock).Ok?
    ensures var body := Normalized(u, r, source, headerEnd, structured, operation, clock).value.body;
            var title := Normalized(u, r, source, headerEnd, structured, operation, clock).value.metadata.title;
            var parsed := Block(r, source, headerEnd, clock).value;
            var ls := Lines(parsed.body);
            && ValidBody(body)
            && Ink(body) == Ink(Unlines(if parsed.title.Present? then MarkedLines(ls) else AuthoredLines(ls)))
            && (parsed.title.Absent? && DropsHeading(ls) ==>
                  title == if structured.title.Present? then structured.title else HeadingTitle(ls[HeaderLength(ls)]))
  {
    var parsed := Block(r, source, headerEnd, clock).value;
    StoredInk(u, parsed.body, parsed.title.Present?);
  }

  /** The title a removed heading gives; a heading without text gives none. */
  function HeadingTitle(line: string): Presence<string>
    requires IsHeading(line)
  {
    if TitleSources.HeadingText(line) == [] then Absent else Present(TitleSources.HeadingText(line))
  }

  lemma StoredInk(u: Graphemes.Unicode, body: string, headerSuppliesTitle: bool)
    requires CanonicalBody(u, body, headerSuppliesTitle).Ok?
    ensures var stored := CanonicalBody(u, body, headerSuppliesTitle).value.0;
            var ls := Lines(body);
            && ValidBody(stored)
            && Ink(stored) == Ink(Unlines(if headerSuppliesTitle then MarkedLines(ls) else AuthoredLines(ls)))
            && (!headerSuppliesTitle && DropsHeading(ls) ==>
                  HeadingTitle(ls[HeaderLength(ls)]) ==
                  match CanonicalBody(u, body, false).value.1
                  case None => Absent
                  case Some(t) => Present(t))
  {
    var source := MarkedSource(body, headerSuppliesTitle);
    BodyTitle(u, body, headerSuppliesTitle);
    OrgKeepsAuthoredInk(source);
    if headerSuppliesTitle {
      MarkerIsTitle();
      LinesStep(MARKER_LINE, body);
      MarkedAuthored(Lines(body));
    } else if DropsHeading(Lines(body)) {
      TitleSources.ScannersAgree(body);
    }
  }
}
