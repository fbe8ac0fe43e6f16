/**
 The leading metadata block of an Org post (`common/src/org.rs`): reading one header line,
 collecting the fields, splitting the source into header and body, and the lifecycle rules.

 Where the Org parser ends the leading keywords is any byte offset here. The readers of
 other modules (slugs, formats, identifiers, entity tags, instants, zoned dates) are
 parameters.
 */
module OrgHeader {
  import opened Wrappers
  import opened Text
  import opened Render
  import Tags

  datatype Presence<+T> = Absent | Present(value: T)

  datatype PublicationState = Draft | Scheduled(at: int) | Published(at: int)

  datatype AudienceTarget = Public | Subscribers | Private | Named(id: int)

  datatype Readers = Readers(
    lower: Tags.Lowercase,
    slug: string -> Option<string>,
    format: string -> Option<PostFormat>,
    postId: string -> Option<int>,
    etag: string -> Option<string>,
    instant: string -> Option<int>,
    audienceId: string -> Option<int>,
    orgDate: (string, string) -> Option<int>)

  /** The header fields a line can supply. */
  datatype Field =
    | TITLE | DESCRIPTION | KEYWORDS | DATE | PROPERTY
    | DATE_TZ | STATUS | AUDIENCE | SLUG | FORMAT | ID | SYNCED | SYNCED_AT | DATE_UTC

  /** Why a block is refused; the program carries these as message texts. */
  datatype OrgMetadataError =
    | Blank(field: Field)
    | Duplicate(field: Field)
    | Malformed(field: Field)
    | DateWithoutStatus
    | DateWithoutZone
    | InvalidLifecycle
    | FuturePublication
    | MixedPrivate
    | CreateWithSync
    | WrongTarget
    | MetadataOnly
    | UnreachableArm

  // One header line

  datatype Entry =
    | TitleEntry(text: string)
    | DescriptionEntry(text: string)
    | KeywordsEntry(tags: seq<string>)
    | DateEntry(text: string)
    | DateTimezoneEntry(text: string)
    | StatusEntry(text: string)
    | AudienceEntry(target: AudienceTarget)
    | SlugEntry(slug: string)
    | FormatEntry(format: PostFormat)
    | IdEntry(id: int)
    | SyncedEntry(etag: string)
    | SyncedAtEntry(at: int)
    | DateUtcEntry(at: int)

  /** `keyword`: the lowercase key and the raw value of a `#+key:value` line. */
  function Keyword(line: string): Option<(string, string)> {
    match SplitOnce(TrimStart(line), ':')
    case None => None
    case Some((key, value)) =>
      if StartsWith(key, "#+") then Some((ToAsciiLowercase(key[2..]), value)) else None
  }

  /** `value.split(',')` */
  function SplitCommas(value: string): seq<string>
    decreases |value|
  {
    var i := IndexOf(value, ',');
    if i == |value| then [value] else [value[..i]] + SplitCommas(value[i + 1..])
  }

  function KeywordLabels(lower: Tags.Lowercase, terms: seq<string>): Option<seq<string>> {
    if terms == [] then Some([])
    else if Text.Blank(terms[0]) then KeywordLabels(lower, terms[1..])
    else
      match (Tags.KeywordLabel(lower, terms[0]), KeywordLabels(lower, terms[1..]))
      case (Some(t), Some(rest)) => Some([t] + rest)
      case _ => None
  }

  /** `parse_keywords` */
  function ParseKeywords(lower: Tags.Lowercase, value: string): Result<Entry, OrgMetadataError> {
    match KeywordLabels(lower, SplitCommas(value))
    case Some(tags) => if tags == [] then Err(Blank(KEYWORDS)) else Ok(KeywordsEntry(tags))
    case None => Err(Malformed(KEYWORDS))
  }

  /** Position of the first whitespace scalar, or the length. */
  function IndexOfWhitespace(s: string): (i: nat)
    ensures i <= |s| && (i < |s| ==> IsWhitespace(s[i]))
    ensures forall k :: 0 <= k < i ==> !IsWhitespace(s[k])
  {
    if s == [] || IsWhitespace(s[0]) then 0 else 1 + IndexOfWhitespace(s[1..])
  }

  /** `property_name` */
  function PropertyName(name: string): Option<Field> {
    var n := ToAsciiLowercase(name);
    if n == "jaunder_date_tz" then Some(DATE_TZ)
    else if n == "jaunder_status" then Some(STATUS)
    else if n == "jaunder_audience" then Some(AUDIENCE)
    else if n == "jaunder_slug" then Some(SLUG)
    else if n == "jaunder_format" then Some(FORMAT)
    else if n == "jaunder_id" then Some(ID)
    else if n == "jaunder_synced" then Some(SYNCED)
    else if n == "jaunder_synced_at" then Some(SYNCED_AT)
    else if n == "jaunder_date_utc" then Some(DATE_UTC)
    else None
  }

  function ParseAudience(audienceId: string -> Option<int>, value: string): Option<AudienceTarget> {
    if value == "public" then Some(Public)
    else if value == "subscribers" then Some(Subscribers)
    else if value == "private" then Some(Private)
    else if StartsWith(value, "named:") then
      match audienceId(value[6..])
      case Some(id) => Some(Named(id))
      case None => None
    else None
  }

  function Lift<T>(value: Option<T>, field: Field, entry: T -> Entry): Result<Entry, OrgMetadataError> {
    match value
    case Some(v) => Ok(entry(v))
    case None => Err(Malformed(field))
  }

  /** The value part of `parse_property`. */
  function ParseProperty(r: Readers, name: Field, value: string): Result<Entry, OrgMetadataError> {
    match name
    case DATE_TZ => Ok(DateTimezoneEntry(value))
    case STATUS => Ok(StatusEntry(value))
    case AUDIENCE => Lift(ParseAudience(r.audienceId, value), AUDIENCE, a => AudienceEntry(a))
    case SLUG => Lift(r.slug(value), SLUG, s => SlugEntry(s))
    case FORMAT => Lift(r.format(value), FORMAT, f => FormatEntry(f))
    case ID => Lift(r.postId(value), ID, i => IdEntry(i))
    case SYNCED => Lift(r.etag(value), SYNCED, e => SyncedEntry(e))
    case SYNCED_AT => Lift(r.instant(value), SYNCED_AT, at => SyncedAtEntry(at))
    case _ => Lift(r.instant(value), DATE_UTC, at => DateUtcEntry(at))
  }

  /** `property_line` and `parse_property`; an unknown property is not a header field. */
  function ReadProperty(r: Readers, value: string): Result<Option<Entry>, OrgMetadataError> {
    var i := IndexOfWhitespace(value);
    match PropertyName(value[..i])
    case None => Ok(None)
    case Some(name) =>
      if i == |value| || Trim(value[i + 1..]) == [] then Err(Blank(PROPERTY))
      else
        match ParseProperty(r, name, Trim(value[i + 1..]))
        case Ok(e) => Ok(Some(e))
        case Err(e) => Err(e)
  }

  datatype HeaderKeyword =
    | TitleKeyword(value: string)
    | DescriptionKeyword(value: string)
    | KeywordsKeyword(value: string)
    | DateKeyword(value: string)
    | PropertyKeyword(value: string)

  /** `header_keyword`: the value of keywords is kept untrimmed. */
  function HeaderKeywordOf(line: string): Option<HeaderKeyword> {
    match Keyword(line)
    case None => None
    case Some((name, value)) =>
      var trimmed := Trim(value);
      if name == "title" then Some(TitleKeyword(trimmed))
      else if name == "description" then Some(DescriptionKeyword(trimmed))
      else if name == "keywords" then Some(KeywordsKeyword(value))
      else if name == "date" then Some(DateKeyword(trimmed))
      else if name == "property" then Some(PropertyKeyword(trimmed))
      else None
  }

  lemma TitleKeywordIsTrimmed(line: string)
    ensures var k := HeaderKeywordOf(line);
            k.Some? && k.value.TitleKeyword? ==> Trim(k.value.value) == k.value.value
  {
    if Keyword(line).Some? {
      var value := Keyword(line).value.1;
      TrimSplits(value);
      TrimOfTrimmed(Trim(value));
    }
  }

  function NonBlank(value: string, field: Field, entry: string -> Entry): Result<Option<Entry>, OrgMetadataError> {
    if value == [] then Err(Blank(field)) else Ok(Some(entry(value)))
  }

  function ReadKeyword(r: Readers, k: HeaderKeyword): Result<Option<Entry>, OrgMetadataError> {
    match k
    case TitleKeyword(value) => NonBlank(value, TITLE, t => TitleEntry(t))
    case DescriptionKeyword(value) => NonBlank(value, DESCRIPTION, t => DescriptionEntry(t))
    case KeywordsKeyword(value) =>
      (match ParseKeywords(r.lower, value)
       case Ok(e) => Ok(Some(e))
       case Err(e) => Err(e))
    case DateKeyword(value) => NonBlank(value, DATE, t => DateEntry(t))
    case PropertyKeyword(value) => ReadProperty(r, value)
  }

  /** What a line in the header region supplies: a field, nothing, or an error. */
  function ReadLine(r: Readers, line: string): Result<Option<Entry>, OrgMetadataError> {
    match HeaderKeywordOf(line)
    case None => Ok(None)
    case Some(k) => ReadKeyword(r, k)
  }

  lemma PropertiesAreNoTitles(r: Readers, name: Field, value: string)
    ensures var e := ParseProperty(r, name, value);
            e.Ok? ==> !e.value.TitleEntry?
  {
  }

  lemma TitlesComeFromTitleLines(r: Readers, k: HeaderKeyword)
    ensures var e := ReadKeyword(r, k);
            e.Ok? && e.value.Some? && e.value.value.TitleEntry? ==>
              k.TitleKeyword? && e.value.value.text == k.value && k.value != []
  {
    if k.PropertyKeyword? {
      var i := IndexOfWhitespace(k.value);
      if PropertyName(k.value[..i]).Some? && i < |k.value| {
        PropertiesAreNoTitles(r, PropertyName(k.value[..i]).value, Trim(k.value[i + 1..]));
      }
    }
  }

  /** The value of a TITLE line is trimmed text. */
  lemma TitleText(r: Readers, line: string, t: string)
    requires ReadLine(r, line) == Ok(Some(TitleEntry(t)))
    ensures t != [] && Trim(t) == t
  {
    TitleKeywordIsTrimmed(line);
    TitlesComeFromTitleLines(r, HeaderKeywordOf(line).value);
  }

  // Collecting fields

  datatype Fields = Fields(
    titles: seq<string>,
    summaries: seq<string>,
    tags: seq<string>,
    audiences: seq<AudienceTarget>,
    date: Option<string>,
    timezone: Option<string>,
    status: Option<string>,
    bookkeeping: Bookkeeping)

  datatype Bookkeeping = Bookkeeping(
    slug: Option<string>,
    format: Option<PostFormat>,
    postId: Option<int>,
    synced: Option<string>,
    syncedAt: Option<int>,
    dateUtc: Option<int>)

  const NO_BOOKKEEPING := Bookkeeping(None, None, None, None, None, None)
  const NO_FIELDS := Fields([], [], [], [], None, None, None, NO_BOOKKEEPING)

  /** The field an entry fills. */
  function FieldOf(e: Entry): Field {
    match e
    case TitleEntry(_) => TITLE
    case DescriptionEntry(_) => DESCRIPTION
    case KeywordsEntry(_) => KEYWORDS
    case DateEntry(_) => DATE
    case DateTimezoneEntry(_) => DATE_TZ
    case StatusEntry(_) => STATUS
    case AudienceEntry(_) => AUDIENCE
    case SlugEntry(_) => SLUG
    case FormatEntry(_) => FORMAT
    case IdEntry(_) => ID
    case SyncedEntry(_) => SYNCED
    case SyncedAtEntry(_) => SYNCED_AT
    case DateUtcEntry(_) => DATE_UTC
  }

  /** Fields that several lines may supply. */
  predicate Repeatable(f: Field) {
    f == TITLE || f == DESCRIPTION || f == KEYWORDS || f == AUDIENCE
  }

  function Wrapped<T>(slot: Option<T>, entry: T -> Entry): Option<Entry> {
    match slot
    case Some(v) => Some(entry(v))
    case None => None
  }

  function Booked(b: Bookkeeping, f: Field): Option<Entry> {
    match f
    case SLUG => Wrapped(b.slug, s => SlugEntry(s))
    case FORMAT => Wrapped(b.format, f => FormatEntry(f))
    case ID => Wrapped(b.postId, i => IdEntry(i))
    case SYNCED => Wrapped(b.synced, e => SyncedEntry(e))
    case SYNCED_AT => Wrapped(b.syncedAt, at => SyncedAtEntry(at))
    case DATE_UTC => Wrapped(b.dateUtc, at => DateUtcEntry(at))
    case _ => None
  }

  /** The entry held in the slot of a field that may occur once. */
  function Held(v: Fields, f: Field): Option<Entry> {
    match f
    case DATE => Wrapped(v.date, s => DateEntry(s))
    case DATE_TZ => Wrapped(v.timezone, s => DateTimezoneEntry(s))
    case STATUS => Wrapped(v.status, s => StatusEntry(s))
    case _ => Booked(v.bookkeeping, f)
  }

  function Booking(b: Bookkeeping, e: Entry): Bookkeeping {
    match e
    case SlugEntry(s) => b.(slug := Some(s))
    case FormatEntry(f) => b.(format := Some(f))
    case IdEntry(i) => b.(postId := Some(i))
    case SyncedEntry(t) => b.(synced := Some(t))
    case SyncedAtEntry(at) => b.(syncedAt := Some(at))
    case DateUtcEntry(at) => b.(dateUtc := Some(at))
    case _ => b
  }

  /** The fields after one more entry, whatever was there. */
  function With(v: Fields, e: Entry): Fields {
    match e
    case TitleEntry(t) => v.(titles := v.titles + [t])
    case DescriptionEntry(t) => v.(summaries := v.summaries + [t])
    case KeywordsEntry(tags) => v.(tags := v.tags + tags)
    case AudienceEntry(a) => v.(audiences := v.audiences + [a])
    case DateEntry(t) => v.(date := Some(t))
    case DateTimezoneEntry(t) => v.(timezone := Some(t))
    case StatusEntry(t) => v.(status := Some(t))
    case _ => v.(bookkeeping := Booking(v.bookkeeping, e))
  }

  function Record(v: Fields, e: Entry): Result<Fields, OrgMetadataError> {
    if Held(v, FieldOf(e)).Some? then Err(Duplicate(FieldOf(e))) else Ok(With(v, e))
  }

  /** `slot.replace(value).is_some()`: the slot is overwritten even when it was filled, which is an error. */
  function Replaced<T>(slot: Option<T>, name: Field): Result<bool, OrgMetadataError> {
    if slot.Some? then Err(Duplicate(name)) else Ok(true)
  }

  class HeaderFields {
    var titles: seq<string>
    var summaries: seq<string>
    var tags: seq<string>
    var audiences: seq<AudienceTarget>
    var date: Option<string>
    var timezone: Option<string>
    var status: Option<string>
    var bookkeeping: Bookkeeping

    function Value(): Fields
      reads this
    {
      Fields(titles, summaries, tags, audiences, date, timezone, status, bookkeeping)
    }

    constructor ()
      ensures Value() == NO_FIELDS
    {
      titles, summaries, tags, audiences := [], [], [], [];
      date, timezone, status, bookkeeping := None, None, None, NO_BOOKKEEPING;
    }

    method Push(e: Entry) returns (r: Result<bool, OrgMetadataError>)
      modifies this
      ensures Value() == With(old(Value()), e)
      ensures r == if Held(old(Value()), FieldOf(e)).Some? then Err(Duplicate(FieldOf(e))) else Ok(true)
    {
      r := Ok(true);
      match e
      case TitleEntry(t) => titles := titles + [t];
      case DescriptionEntry(t) => summaries := summaries + [t];
      case KeywordsEntry(ts) => tags := tags + ts;
      case AudienceEntry(a) => audiences := audiences + [a];
      case DateEntry(t) => date, r := Some(t), Replaced(date, DATE);
      case DateTimezoneEntry(t) => timezone, r := Some(t), Replaced(timezone, DATE_TZ);
      case StatusEntry(t) => status, r := Some(t), Replaced(status, STATUS);
      case _ => r := SetBookkeeping(e);
    }

    method SetBookkeeping(e: Entry) returns (r: Result<bool, OrgMetadataError>)
      requires FieldOf(e) in {SLUG, FORMAT, ID, SYNCED, SYNCED_AT, DATE_UTC}
      modifies this`bookkeeping
      ensures bookkeeping == Booking(old(bookkeeping), e)
      ensures r == if Booked(old(bookkeeping), FieldOf(e)).Some? then Err(Duplicate(FieldOf(e))) else Ok(true)
    {
      match e
      case SlugEntry(s) =>
        r := Replaced(bookkeeping.slug, SLUG);
        bookkeeping := bookkeeping.(slug := Some(s));
      case FormatEntry(f) =>
        r := Replaced(bookkeeping.format, FORMAT);
        bookkeeping := bookkeeping.(format := Some(f));
      case IdEntry(i) =>
        r := Replaced(bookkeeping.postId, ID);
        bookkeeping := bookkeeping.(postId := Some(i));
      case SyncedEntry(t) =>
        r := Replaced(bookkeeping.synced, SYNCED);
        bookkeeping := bookkeeping.(synced := Some(t));
      case SyncedAtEntry(at) =>
        r := Replaced(bookkeeping.syncedAt, SYNCED_AT);
        bookkeeping := bookkeeping.(syncedAt := Some(at));
      case DateUtcEntry(at) =>
        r := Replaced(bookkeeping.dateUtc, DATE_UTC);
        bookkeeping := bookkeeping.(dateUtc := Some(at));
    }

    /** `parse_header_keyword`: whether the line is a header field, which is then recorded. */
    method ParseHeaderKeyword(r: Readers, line: string) returns (handled: Result<bool, OrgMetadataError>)
      modifies this
      ensures match ReadLine(r, line)
              case Err(e) => handled == Err(e) && Value() == old(Value())
              case Ok(None) => handled == Ok(false) && Value() == old(Value())
              case Ok(Some(e)) =>
                && Value() == With(old(Value()), e)
                && handled == if Held(old(Value()), FieldOf(e)).Some? then Err(Duplicate(FieldOf(e))) else Ok(true)
    {
      match ReadLine(r, line)
      case Err(e) => handled := Err(e);
      case Ok(None) => handled := Ok(false);
      case Ok(Some(e)) => handled := Push(e);
    }
  }

  lemma HeldAfter(v: Fields, e: Entry, f: Field)
    requires !Repeatable(f)
    ensures Held(With(v, e), f) == if f == FieldOf(e) then Some(e) else Held(v, f)
  {
  }
}
