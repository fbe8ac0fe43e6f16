/**
 Splitting an Org source into its header fields and its body (`parse_leading_block` of
 `common/src/org.rs`): the loop over lines, proved to partition the source, and the block
 assembled from the collected fields.
 */
module OrgBlock {
  import opened Wrappers
  import opened Text
  import opened PostText
  import opened OrgHeader
  import Summary
  import Tags

  type LineReader = string -> Result<Option<Entry>, OrgMetadataError>

  /** `source_line.strip_suffix('\n')` */
  function StripLf(piece: string): string {
    if piece != [] && piece[|piece| - 1] == '\n' then piece[..|piece| - 1] else piece
  }

  /** Length in UTF-8. */
  function Bytes(s: string): (n: nat)
    ensures s != [] ==> n > 0
  {
    if s == [] then 0 else Bytes(s[..|s| - 1]) + CharBytes(s[|s| - 1])
  }

  function CharBytes(c: char): nat {
    if c <= '\U{7F}' then 1 else if c <= '\U{7FF}' then 2 else if c <= '\U{FFFF}' then 3 else 4
  }

  /** Byte offset of a source line. */
  function Offset(pieces: seq<string>, i: nat): nat
    requires i <= |pieces|
  {
    if i == 0 then 0 else Offset(pieces, i - 1) + Bytes(pieces[i - 1])
  }

  /** The line starts before the header end. */
  predicate InHeader(pieces: seq<string>, end: nat, i: nat)
    requires i < |pieces|
  {
    Offset(pieces, i) < end
  }

  // The loop, line by line

  datatype Scan = Scan(fields: Fields, body: seq<string>)

  function Step(read: LineReader, s: Scan, piece: string, inHeader: bool): Result<Scan, OrgMetadataError> {
    var line := StripLf(piece);
    if !inHeader then Ok(s.(body := s.body + [line]))
    else
      match read(line)
      case Err(e) => Err(e)
      case Ok(None) => Ok(s.(body := s.body + [line]))
      case Ok(Some(entry)) =>
        match Record(s.fields, entry)
        case Err(e) => Err(e)
        case Ok(v) => Ok(s.(fields := v))
  }

  /** The state after the first `n` source lines. */
  function ScanLines(read: LineReader, pieces: seq<string>, end: nat, n: nat): Result<Scan, OrgMetadataError>
    requires n <= |pieces|
  {
    if n == 0 then Ok(Scan(NO_FIELDS, []))
    else
      match ScanLines(read, pieces, end, n - 1)
      case Err(e) => Err(e)
      case Ok(s) => Step(read, s, pieces[n - 1], InHeader(pieces, end, n - 1))
  }

  lemma {:induction false} ErrorsPersist(read: LineReader, pieces: seq<string>, end: nat, m: nat, n: nat)
    requires m <= n <= |pieces| && ScanLines(read, pieces, end, m).Err?
    ensures ScanLines(read, pieces, end, n) == ScanLines(read, pieces, end, m)
    decreases n
  {
    if m < n {
      ErrorsPersist(read, pieces, end, m, n - 1);
    }
  }

  /** `parse_header_keyword` with its readers. */
  function HeaderReader(r: Readers): LineReader {
    line => ReadLine(r, line)
  }

  method TakeLine(r: Readers, fields: HeaderFields, body: seq<string>, piece: string, inHeader: bool)
    returns (next: Result<seq<string>, OrgMetadataError>)
    modifies fields
    ensures Step(HeaderReader(r), Scan(old(fields.Value()), body), piece, inHeader) ==
            match next
            case Ok(lines) => Ok(Scan(fields.Value(), lines))
            case Err(e) => Err(e)
  {
    var line := StripLf(piece);
    var handled := false;
    if inHeader {
      var parsed := fields.ParseHeaderKeyword(r, line);
      if parsed.Err? {
        return Err(parsed.error);
      }
      handled := parsed.value;
    }
    next := Ok(if handled then body else body + [line]);
  }

  method ScanSource(r: Readers, source: string, headerEnd: nat) returns (result: Result<Scan, OrgMetadataError>)
    ensures var pieces := SplitInclusive(source);
            result == ScanLines(HeaderReader(r), pieces, headerEnd, |pieces|)
  {
    var pieces := SplitInclusive(source);
    var body: seq<string> := [];
    var offset := 0;
    var fields := new HeaderFields();
    var i := 0;
    while i < |pieces|
      invariant 0 <= i <= |pieces|
      invariant offset == Offset(pieces, i)
      invariant ScanLines(HeaderReader(r), pieces, headerEnd, i) == Ok(Scan(fields.Value(), body))
    {
      var next := TakeLine(r, fields, body, pieces[i], offset < headerEnd);
      if next.Err? {
        ErrorsPersist(HeaderReader(r), pieces, headerEnd, i + 1, |pieces|);
        return Err(next.error);
      }
      body := next.value;
      offset := offset + Bytes(pieces[i]);
      i := i + 1;
    }
    result := Ok(Scan(fields.Value(), body));
  }

  // The partition

  /** Source line `i` is in the header and holds a field. */
  predicate Consumed(read: LineReader, pieces: seq<string>, end: nat, i: nat)
    requires i < |pieces|
  {
    InHeader(pieces, end, i) && var e := read(StripLf(pieces[i])); e.Ok? && e.value.Some?
  }

  predicate MalformedLine(read: LineReader, pieces: seq<string>, end: nat, i: nat)
    requires i < |pieces|
  {
    InHeader(pieces, end, i) && read(StripLf(pieces[i])).Err?
  }

  /** The fields of the consumed lines, in order. */
  function Entries(read: LineReader, pieces: seq<string>, end: nat, n: nat): seq<Entry>
    requires n <= |pieces|
  {
    if n == 0 then []
    else
      Entries(read, pieces, end, n - 1)
      + if Consumed(read, pieces, end, n - 1) then [read(StripLf(pieces[n - 1])).value.value] else []
  }

  /** The other lines, in order. */
  function BodyLines(read: LineReader, pieces: seq<string>, end: nat, n: nat): seq<string>
    requires n <= |pieces|
  {
    if n == 0 then []
    else
      BodyLines(read, pieces, end, n - 1)
      + if Consumed(read, pieces, end, n - 1) then [] else [StripLf(pieces[n - 1])]
  }

  /** No field that may occur once occurs twice. */
  predicate SingleSlots(es: seq<Entry>) {
    forall i, j :: 0 <= i < j < |es| && FieldOf(es[i]) == FieldOf(es[j]) ==> Repeatable(FieldOf(es[i]))
  }

  function Titles(es: seq<Entry>): seq<string> {
    if es == [] then []
    else
      var e := es[|es| - 1];
      Titles(es[..|es| - 1]) + if e.TitleEntry? then [e.text] else []
  }

  function Descriptions(es: seq<Entry>): seq<string> {
    if es == [] then []
    else
      var e := es[|es| - 1];
      Descriptions(es[..|es| - 1]) + if e.DescriptionEntry? then [e.text] else []
  }

  function Labels(es: seq<Entry>): seq<string> {
    if es == [] then []
    else
      var e := es[|es| - 1];
      Labels(es[..|es| - 1]) + if e.KeywordsEntry? then e.tags else []
  }

  function Audiences(es: seq<Entry>): seq<AudienceTarget> {
    if es == [] then []
    else
      var e := es[|es| - 1];
      Audiences(es[..|es| - 1]) + if e.AudienceEntry? then [e.target] else []
  }

  /** The entry that fills a field, if any. */
  function Filler(es: seq<Entry>, f: Field): (r: Option<Entry>)
    ensures r.Some? ==> r.value in es && FieldOf(r.value) == f
    ensures r.None? ==> forall i :: 0 <= i < |es| ==> FieldOf(es[i]) != f
  {
    if es == [] then None
    else if FieldOf(es[|es| - 1]) == f then Some(es[|es| - 1])
    else Filler(es[..|es| - 1], f)
  }

  /** The collected fields hold exactly what the entries say. */
  ghost predicate Collects(v: Fields, es: seq<Entry>) {
    && v.titles == Titles(es)
    && v.summaries == Descriptions(es)
    && v.tags == Labels(es)
    && v.audiences == Audiences(es)
    && forall f :: !Repeatable(f) ==> Held(v, f) == Filler(es, f)
  }

  lemma TitlesStep(v: Fields, es: seq<Entry>, e: Entry)
    requires v.titles == Titles(es)
    ensures With(v, e).titles == Titles(es + [e])
  {
    assert (es + [e])[..|es|] == es;
  }

  lemma DescriptionsStep(v: Fields, es: seq<Entry>, e: Entry)
    requires v.summaries == Descriptions(es)
    ensures With(v, e).summaries == Descriptions(es + [e])
  {
    assert (es + [e])[..|es|] == es;
  }

  lemma LabelsStep(v: Fields, es: seq<Entry>, e: Entry)
    requires v.tags == Labels(es)
    ensures With(v, e).tags == Labels(es + [e])
  {
    assert (es + [e])[..|es|] == es;
  }

  lemma AudiencesStep(v: Fields, es: seq<Entry>, e: Entry)
    requires v.audiences == Audiences(es)
    ensures With(v, e).audiences == Audiences(es + [e])
  {
    assert (es + [e])[..|es|] == es;
  }

  lemma HeldStep(v: Fields, es: seq<Entry>, e: Entry, f: Field)
    requires !Repeatable(f) && Held(v, f) == Filler(es, f)
    ensures Held(With(v, e), f) == Filler(es + [e], f)
  {
    assert (es + [e])[..|es|] == es;
    HeldAfter(v, e, f);
  }

  lemma CollectsStep(v: Fields, es: seq<Entry>, e: Entry)
    requires Collects(v, es)
    ensures Collects(With(v, e), es + [e])
  {
    TitlesStep(v, es, e);
    DescriptionsStep(v, es, e);
    LabelsStep(v, es, e);
    AudiencesStep(v, es, e);
    forall f | !Repeatable(f)
      ensures Held(With(v, e), f) == Filler(es + [e], f)
    {
      HeldStep(v, es, e, f);
    }
  }

  lemma SingleSlotsStep(es: seq<Entry>, e: Entry)
    ensures SingleSlots(es + [e]) <==>
            SingleSlots(es) && (Repeatable(FieldOf(e)) || Filler(es, FieldOf(e)).None?)
  {
    var next := es + [e];
    assert next[|es|] == e;
    assert forall i :: 0 <= i < |es| ==> next[i] == es[i];
    var found := Filler(es, FieldOf(e));
    if found.Some? {
      var i :| 0 <= i < |es| && es[i] == found.value;
      assert next[i] == es[i];
    }
  }

  predicate WellFormedHeader(read: LineReader, pieces: seq<string>, end: nat, n: nat)
    requires n <= |pieces|
  {
    && (forall i :: 0 <= i < n ==> !MalformedLine(read, pieces, end, i))
    && SingleSlots(Entries(read, pieces, end, n))
  }

  lemma WellFormedStep(read: LineReader, pieces: seq<string>, end: nat, m: nat)
    requires m < |pieces|
    ensures var es := Entries(read, pieces, end, m);
            WellFormedHeader(read, pieces, end, m + 1) <==>
            && WellFormedHeader(read, pieces, end, m)
            && !MalformedLine(read, pieces, end, m)
            && (Consumed(read, pieces, end, m) ==>
                  var f := FieldOf(read(StripLf(pieces[m])).value.value);
                  Repeatable(f) || Filler(es, f).None?)
  {
    var es := Entries(read, pieces, end, m);
    if Consumed(read, pieces, end, m) {
      SingleSlotsStep(es, read(StripLf(pieces[m])).value.value);
    } else {
      assert Entries(read, pieces, end, m + 1) == es;
    }
  }

  lemma RecordChecksSlot(v: Fields, es: seq<Entry>, e: Entry)
    requires Collects(v, es)
    ensures Record(v, e).Ok? <==> Repeatable(FieldOf(e)) || Filler(es, FieldOf(e)).None?
    ensures Record(v, e).Ok? ==> Collects(Record(v, e).value, es + [e])
  {
    CollectsStep(v, es, e);
  }

  /** The state after `n` lines, in terms of the partition. */
  ghost predicate Partitioned(s: Scan, read: LineReader, pieces: seq<string>, end: nat, n: nat)
    requires n <= |pieces|
  {
    s.body == BodyLines(read, pieces, end, n) && Collects(s.fields, Entries(read, pieces, end, n))
  }

  lemma StepPartitions(read: LineReader, pieces: seq<string>, end: nat, m: nat, s: Scan)
    requires m < |pieces| && Partitioned(s, read, pieces, end, m) && WellFormedHeader(read, pieces, end, m)
    ensures var next := Step(read, s, pieces[m], InHeader(pieces, end, m));
            && (next.Ok? <==> WellFormedHeader(read, pieces, end, m + 1))
            && (next.Ok? ==> Partitioned(next.value, read, pieces, end, m + 1))
  {
    WellFormedStep(read, pieces, end, m);
    if Consumed(read, pieces, end, m) {
      RecordChecksSlot(s.fields, Entries(read, pieces, end, m), read(StripLf(pieces[m])).value.value);
      assert BodyLines(read, pieces, end, m + 1) == BodyLines(read, pieces, end, m);
    } else {
      assert Entries(read, pieces, end, m + 1) == Entries(read, pieces, end, m);
    }
  }

  /**
   The loop succeeds exactly when no header line is malformed and no single field repeats.
   Then each line is either consumed by a field before the header end or kept, in order.
   */
  lemma {:induction false} ScanPartitions(read: LineReader, pieces: seq<string>, end: nat, n: nat)
    requires n <= |pieces|
    ensures var s := ScanLines(read, pieces, end, n);
            && (s.Ok? <==> WellFormedHeader(read, pieces, end, n))
            && (s.Ok? ==> Partitioned(s.value, read, pieces, end, n))
    decreases n
  {
    if n > 0 {
      ScanPartitions(read, pieces, end, n - 1);
      if ScanLines(read, pieces, end, n - 1).Ok? {
        StepPartitions(read, pieces, end, n - 1, ScanLines(read, pieces, end, n - 1).value);
      } else {
        WellFormedStep(read, pieces, end, n - 1);
      }
    } else {
      NothingCollected();
    }
  }

  lemma NothingCollected()
    ensures Collects(NO_FIELDS, [])
  {
  }

  // Lifecycle

  function ValidateLifecycle(lifecycle: Presence<PublicationState>, clock: int): Result<bool, OrgMetadataError> {
    match lifecycle
    case Present(Published(at)) => if at > clock then Err(FuturePublication) else Ok(true)
    case _ => Ok(true)
  }

  function LifecycleInstant(orgDate: (string, string) -> Option<int>, date: Option<string>, timezone: Option<string>)
    : Result<Option<int>, OrgMetadataError>
  {
    match (date, timezone)
    case (None, None) => Ok(None)
    case (Some(d), Some(z)) =>
      (match orgDate(d, z)
       case Some(at) => Ok(Some(at))
       case None => Err(Malformed(DATE)))
    case _ => Err(DateWithoutZone)
  }

  function LifecycleState(status: string, instant: Option<int>, clock: int)
    : Result<PublicationState, OrgMetadataError>
  {
    var name := ToAsciiLowercase(status);
    if name == "draft" && instant.None? then Ok(Draft)
    else if name == "scheduled" && instant.Some? && instant.value > clock then Ok(Scheduled(instant.value))
    else if name == "published" then Ok(Published(if instant.Some? then instant.value else clock))
    else Err(InvalidLifecycle)
  }

  /** `parse_lifecycle` */
  function ParseLifecycle(orgDate: (string, string) -> Option<int>, v: Fields, clock: int)
    : Result<Presence<PublicationState>, OrgMetadataError>
  {
    match v.status
    case None => if v.date.Some? || v.timezone.Some? then Err(DateWithoutStatus) else Ok(Absent)
    case Some(status) =>
      match LifecycleInstant(orgDate, v.date, v.timezone)
      case Err(e) => Err(e)
      case Ok(instant) =>
        match LifecycleState(status, instant, clock)
        case Err(e) => Err(e)
        case Ok(state) =>
          match ValidateLifecycle(Present(state), clock)
          case Err(e) => Err(e)
          case Ok(_) => Ok(Present(state))
  }

  /** A lifecycle read from a header is never published later, nor scheduled earlier, than the clock. */
  ghost predicate OnTime(lifecycle: Presence<PublicationState>, clock: int) {
    match lifecycle
    case Present(Published(at)) => at <= clock
    case Present(Scheduled(at)) => at > clock
    case _ => true
  }

  // The assembled block

  datatype ParsedBlock = ParsedBlock(
    body: string,
    title: Presence<string>,
    summary: Presence<string>,
    tags: Presence<seq<string>>,
    audiences: Presence<seq<AudienceTarget>>,
    lifecycle: Presence<PublicationState>,
    bookkeeping: Bookkeeping)

  /** A joined text field: absent without lines, refused when its parser refuses it. */
  function JoinedField(texts: seq<string>, parse: string -> Option<string>, field: Field)
    : Result<Presence<string>, OrgMetadataError>
  {
    if texts == [] then Ok(Absent)
    else
      match parse(Join(texts))
      case Some(t) => Ok(Present(t))
      case None => Err(Malformed(field))
  }

  function TagField(lower: Tags.Lowercase, labels: seq<string>): Result<Presence<seq<string>>, OrgMetadataError> {
    if labels == [] then Ok(Absent)
    else
      match Tags.Validated(lower, labels)
      case Ok(tags) => Ok(Present(tags))
      case Err(_) => Err(Malformed(KEYWORDS))
  }

  function Assemble(r: Readers, s: Scan, clock: int): Result<ParsedBlock, OrgMetadataError> {
    var v := s.fields;
    match JoinedField(v.titles, t => ParseTitle(t), TITLE)
    case Err(e) => Err(e)
    case Ok(title) =>
      match JoinedField(v.summaries, t => Summary.ParseSummary(t), DESCRIPTION)
      case Err(e) => Err(e)
      case Ok(summary) =>
        match TagField(r.lower, v.tags)
        case Err(e) => Err(e)
        case Ok(tags) =>
          match ParseLifecycle(r.orgDate, v, clock)
          case Err(e) => Err(e)
          case Ok(lifecycle) =>
            var audiences := if v.audiences == [] then Absent else Present(v.audiences);
            Ok(ParsedBlock(Join(s.body), title, summary, tags, audiences, lifecycle, v.bookkeeping))
  }

  function ScanOf(r: Readers, source: string, headerEnd: nat): Result<Scan, OrgMetadataError> {
    var pieces := SplitInclusive(source);
    ScanLines(HeaderReader(r), pieces, headerEnd, |pieces|)
  }

  function Block(r: Readers, source: string, headerEnd: nat, clock: int): Result<ParsedBlock, OrgMetadataError> {
    match ScanOf(r, source, headerEnd)
    case Err(e) => Err(e)
    case Ok(s) => Assemble(r, s, clock)
  }

  method ParseLeadingBlock(r: Readers, source: string, headerEnd: nat, clock: int)
    returns (parsed: Result<ParsedBlock, OrgMetadataError>)
    ensures parsed == Block(r, source, headerEnd, clock)
  {
    var scan := ScanSource(r, source, headerEnd);
    match scan
    case Err(e) => parsed := Err(e);
    case Ok(s) => parsed := Assemble(r, s, clock);
  }

  predicate TrimmedTexts(texts: seq<string>) {
    forall i :: 0 <= i < |texts| ==> texts[i] != [] && Trim(texts[i]) == texts[i]
  }

  lemma TitlesOfMore(r: Readers, es: seq<Entry>, line: string, e: Entry)
    requires TrimmedTexts(Titles(es)) && ReadLine(r, line) == Ok(Some(e))
    ensures TrimmedTexts(Titles(es + [e]))
  {
    assert (es + [e])[..|es|] == es;
    if e.TitleEntry? {
      TitleText(r, line, e.text);
    }
  }

  lemma {:induction false} TitlesAreTrimmed(r: Readers, pieces: seq<string>, end: nat, n: nat)
    requires n <= |pieces|
    ensures TrimmedTexts(Titles(Entries(HeaderReader(r), pieces, end, n)))
  {
    if n > 0 {
      TitlesAreTrimmed(r, pieces, end, n - 1);
      var read := HeaderReader(r);
      if Consumed(read, pieces, end, n - 1) {
        var line := StripLf(pieces[n - 1]);
        TitlesOfMore(r, Entries(read, pieces, end, n - 1), line, read(line).value.value);
      } else {
        assert Entries(read, pieces, end, n) == Entries(read, pieces, end, n - 1);
      }
    }
  }

  /**
   A header title exists exactly when the header holds one TITLE line, and it is that line's
   trimmed value; a header with two is always refused.
   */
  lemma HeaderTitle(r: Readers, source: string, headerEnd: nat, clock: int)
    requires Block(r, source, headerEnd, clock).Ok?
    ensures var pieces := SplitInclusive(source);
            var titles := Titles(Entries(HeaderReader(r), pieces, headerEnd, |pieces|));
            && |titles| <= 1
            && Block(r, source, headerEnd, clock).value.title == if titles == [] then Absent else Present(titles[0])
  {
    var pieces := SplitInclusive(source);
    ScanPartitions(HeaderReader(r), pieces, headerEnd, |pieces|);
    TitlesAreTrimmed(r, pieces, headerEnd, |pieces|);
    var titles := Titles(Entries(HeaderReader(r), pieces, headerEnd, |pieces|));
    if |titles| > 1 {
      JoinedTitlesAreRejected(titles);
    }
  }

  /**
   The tags of a header are the first labels of each slug among all its keywords, in order;
   more than 256 distinct slugs are refused.
   */
  lemma HeaderTags(r: Readers, source: string, headerEnd: nat, clock: int)
    requires Block(r, source, headerEnd, clock).Ok?
    ensures var pieces := SplitInclusive(source);
            var labels := Labels(Entries(HeaderReader(r), pieces, headerEnd, |pieces|));
            match Block(r, source, headerEnd, clock).value.tags
            case Absent => labels == []
            case Present(tags) =>
              && tags == Tags.Picked(labels, Tags.Firsts(r.lower, labels))
              && Tags.DistinctSlugs(r.lower, tags)
              && Tags.Slugs(r.lower, tags) == Tags.Slugs(r.lower, labels)
              && |tags| <= Tags.MAX_TAGS_PER_POST
  {
    var pieces := SplitInclusive(source);
    ScanPartitions(HeaderReader(r), pieces, headerEnd, |pieces|);
    Tags.ValidatedTags(r.lower, Labels(Entries(HeaderReader(r), pieces, headerEnd, |pieces|)));
  }

  /** The body is the lines no field consumed, and the lifecycle respects the request clock. */
  lemma HeaderBodyAndLifecycle(r: Readers, source: string, headerEnd: nat, clock: int)
    requires Block(r, source, headerEnd, clock).Ok?
    ensures var pieces := SplitInclusive(source);
            var block := Block(r, source, headerEnd, clock).value;
            && block.body == Join(BodyLines(HeaderReader(r), pieces, headerEnd, |pieces|))
            && OnTime(block.lifecycle, clock)
  {
    var pieces := SplitInclusive(source);
    ScanPartitions(HeaderReader(r), pieces, headerEnd, |pieces|);
    AssembledOnTime(r, ScanOf(r, source, headerEnd).value, clock);
  }

  lemma AssembledOnTime(r: Readers, s: Scan, clock: int)
    requires Assemble(r, s, clock).Ok?
    ensures Assemble(r, s, clock).value.body == Join(s.body)
    ensures OnTime(Assemble(r, s, clock).value.lifecycle, clock)
  {
    LifecycleOnTime(r.orgDate, s.fields, clock);
  }

  lemma LifecycleOnTime(orgDate: (string, string) -> Option<int>, v: Fields, clock: int)
    ensures var lifecycle := ParseLifecycle(orgDate, v, clock);
            lifecycle.Ok? ==> OnTime(lifecycle.value, clock)
  {
    if v.status.Some? && LifecycleInstant(orgDate, v.date, v.timezone).Ok? {
      StateInTime(v.status.value, LifecycleInstant(orgDate, v.date, v.timezone).value, clock);
    }
  }

  lemma StateInTime(status: string, instant: Option<int>, clock: int)
    ensures var state := LifecycleState(status, instant, clock);
            state.Ok? && state.value.Scheduled? ==> state.value.at > clock
  {
  }

  // The errors of a block

  lemma LinesReachNoArm(r: Readers, line: string)
    ensures ReadLine(r, line) != Err(UnreachableArm)
  {
    if HeaderKeywordOf(line).Some? && HeaderKeywordOf(line).value.PropertyKeyword? {
      PropertiesReachNoArm(r, HeaderKeywordOf(line).value.value);
    }
  }

  lemma PropertiesReachNoArm(r: Readers, value: string)
    ensures ReadProperty(r, value) != Err(UnreachableArm)
  {
    var i := IndexOfWhitespace(value);
    if PropertyName(value[..i]).Some? && i < |value| {
      ValuesReachNoArm(r, PropertyName(value[..i]).value, Trim(value[i + 1..]));
    }
  }

  lemma ValuesReachNoArm(r: Readers, name: Field, value: string)
    ensures ParseProperty(r, name, value) != Err(UnreachableArm)
  {
  }

  lemma {:induction false} ScanReachesNoArm(r: Readers, pieces: seq<string>, end: nat, n: nat)
    requires n <= |pieces|
    ensures ScanLines(HeaderReader(r), pieces, end, n) != Err(UnreachableArm)
  {
    if n > 0 {
      ScanReachesNoArm(r, pieces, end, n - 1);
      LinesReachNoArm(r, StripLf(pieces[n - 1]));
    }
  }

  lemma LifecyclesReachNoArm(orgDate: (string, string) -> Option<int>, v: Fields, clock: int)
    ensures ParseLifecycle(orgDate, v, clock) != Err(UnreachableArm)
  {
  }

  /** No block is refused with the error of the arm called unreachable. */
  lemma BlockReachesNoArm(r: Readers, source: string, headerEnd: nat, clock: int)
    ensures Block(r, source, headerEnd, clock) != Err(UnreachableArm)
  {
    ScanReachesNoArm(r, SplitInclusive(source), headerEnd, |SplitInclusive(source)|);
    if ScanOf(r, source, headerEnd).Ok? {
      LifecyclesReachNoArm(r.orgDate, ScanOf(r, source, headerEnd).value.fields, clock);
    }
  }

  // Sources without header fields

  function StripLfs(pieces: seq<string>): (ls: seq<string>)
    ensures |ls| == |pieces|
    ensures forall i :: 0 <= i < |ls| ==> ls[i] == StripLf(pieces[i])
  {
    if pieces == [] then [] else [StripLf(pieces[0])] + StripLfs(pieces[1..])
  }

  lemma StripLfsCons(first: string, rest: seq<string>)
    ensures StripLfs([first] + rest) == [StripLf(first)] + StripLfs(rest)
  {
    assert ([first] + rest)[1..] == rest;
  }

  /** Joining the line before an LF to what follows drops a final LF. */
  lemma JoinStep(s: string, i: nat, tail: seq<string>)
    requires i < |s| && s[i] == '\n'
    requires (tail == [] <==> i + 1 == |s|) && Join(tail) == StripLf(s[i + 1..])
    ensures StripLf(s[..i + 1]) == s[..i] && Join([s[..i]] + tail) == StripLf(s)
  {
    assert s[..i + 1][..i] == s[..i];
    if tail != [] {
      assert s == s[..i] + "\n" + s[i + 1..];
      assert s[i + 1..][|s| - i - 2] == s[|s| - 1];
      assert ([s[..i]] + tail)[1..] == tail;
    }
  }

  /** Splitting a text into lines and joining them drops a final LF and nothing else. */
  lemma {:induction false} JoinOfSplit(s: string)
    ensures Join(StripLfs(SplitInclusive(s))) == StripLf(s)
    decreases |s|
  {
    if s != [] {
      var i := IndexOf(s, '\n');
      if i < |s| {
        var pieces := SplitInclusive(s[i + 1..]);
        JoinOfSplit(s[i + 1..]);
        JoinStep(s, i, StripLfs(pieces));
        StripLfsCons(s[..i + 1], pieces);
      } else {
        StripLfsCons(s, []);
      }
    }
  }

  lemma {:induction false} BodyIsEverything(read: LineReader, pieces: seq<string>, end: nat, n: nat)
    requires n <= |pieces| && forall i :: 0 <= i < n ==> !Consumed(read, pieces, end, i)
    ensures var body := BodyLines(read, pieces, end, n);
            |body| == n && forall i :: 0 <= i < n ==> body[i] == StripLf(pieces[i])
  {
    if n > 0 {
      BodyIsEverything(read, pieces, end, n - 1);
    }
  }

  /** A source whose header holds no field is its own body, without a final LF. */
  lemma UntouchedSource(r: Readers, source: string, headerEnd: nat, clock: int)
    requires Block(r, source, headerEnd, clock).Ok?
    requires var pieces := SplitInclusive(source);
             forall i :: 0 <= i < |pieces| ==> !Consumed(HeaderReader(r), pieces, headerEnd, i)
    ensures Block(r, source, headerEnd, clock).value.body == StripLf(source)
  {
    var pieces := SplitInclusive(source);
    HeaderBodyAndLifecycle(r, source, headerEnd, clock);
    BodyIsEverything(HeaderReader(r), pieces, headerEnd, |pieces|);
    JoinOfSplit(source);
    assert BodyLines(HeaderReader(r), pieces, headerEnd, |pieces|) == StripLfs(pieces);
  }
}
