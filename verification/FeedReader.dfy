/**
 The byte streams behind feed fingerprints and ETags (`host/src/etag.rs`), read back by a
 reader of their layout: which value stands where, in which width, behind which mark.
 */
module FeedReader {
  import opened Wrappers
  import opened Bytes
  import opened Readers
  import opened Etag
  import opened ThemePool

  // Values of one shape

  /** A width known beforehand, a length prefix, or a mark and perhaps a length prefix. */
  datatype Shape = Wide(width: nat) | Prefixed | Marked

  predicate Fits(f: Field, shape: Shape) {
    match shape
    case Wide(width) => f.Fixed? && |f.bytes| == width
    case Prefixed => f.Framed?
    case Marked => f.Optional?
  }

  function TakeField(shape: Shape, s: ByteString): (r: Read<Field>)
    ensures r.Got? ==> Fits(r.value, shape)
  {
    match shape
    case Wide(width) =>
      var (bytes, rest) :- TakeBytes(width, s);
      Got(Fixed(bytes), rest)
    case Prefixed =>
      var (value, rest) :- TakeFramed(s);
      Got(Framed(value), rest)
    case Marked =>
      var (mark, t) :- TakeBytes(1, s);
      if mark == [0] then Got(Optional(None), t)
      else if mark == [1] then
        var (value, rest) :- TakeFramed(t);
        Got(Optional(Some(value)), rest)
      else Stuck
  }

  predicate AllFit(fs: seq<Field>, shapes: seq<Shape>) {
    |fs| == |shapes| && forall i :: 0 <= i < |fs| ==> Fits(fs[i], shapes[i])
  }

  function TakeFields(shapes: seq<Shape>, s: ByteString): (r: Read<seq<Field>>)
    ensures r.Got? ==> AllFit(r.value, shapes)
  {
    if shapes == [] then Got([], s)
    else
      var (f, t) :- TakeField(shapes[0], s);
      var (fs, rest) :- TakeFields(shapes[1..], t);
      Got([f] + fs, rest)
  }

  lemma TakesField(f: Field, shape: Shape, rest: ByteString)
    requires Fits(f, shape)
    ensures TakeField(shape, EncodeField(f) + rest) == Got(f, rest)
  {
    match f
    case Fixed(bytes) => TakesBytes(bytes, rest);
    case Framed(value) => TakesFramed(value, rest);
    case Optional(None) => TakesBytes([0], rest);
    case Optional(Some(value)) =>
      Associate([1], Frame(value), rest);
      TakesBytes([1], Frame(value) + rest);
      TakesFramed(value, rest);
  }

  lemma {:induction false} TakesFields(fs: seq<Field>, shapes: seq<Shape>, rest: ByteString)
    requires AllFit(fs, shapes)
    ensures TakeFields(shapes, Encode(fs) + rest) == Got(fs, rest)
  {
    if fs == [] {
      assert Encode(fs) + rest == rest;
    } else {
      Associate(EncodeField(fs[0]), Encode(fs[1..]), rest);
      TakesField(fs[0], shapes[0], Encode(fs[1..]) + rest);
      TakesFields(fs[1..], shapes[1..], rest);
      assert fs == [fs[0]] + fs[1..];
    }
  }

  // Words and numbers

  function Spelled(bytes: ByteString): (s: string)
    ensures |s| == |bytes| && forall i :: 0 <= i < |s| ==> s[i] == bytes[i] as char
  {
    seq(|bytes|, i requires 0 <= i < |bytes| => bytes[i] as char)
  }

  lemma SpelledAscii(s: string)
    requires forall i :: 0 <= i < |s| ==> s[i] < '\U{80}'
    ensures Spelled(Ascii(s)) == s
  {
  }

  function FormatNamed(name: string): Option<FeedFormat> {
    if name == "rss" then Some(Rss)
    else if name == "atom" then Some(Atom)
    else if name == "json" then Some(Json)
    else None
  }

  function LicenseNamed(token: string): Option<ContentLicense> {
    if token == "all-rights-reserved" then Some(AllRightsReserved)
    else if token == "CC0-1.0" then Some(Cc0)
    else if token == "CC-BY-4.0" then Some(CcBy)
    else if token == "CC-BY-SA-4.0" then Some(CcBySa)
    else if token == "CC-BY-ND-4.0" then Some(CcByNd)
    else if token == "CC-BY-NC-4.0" then Some(CcByNc)
    else if token == "CC-BY-NC-SA-4.0" then Some(CcByNcSa)
    else if token == "CC-BY-NC-ND-4.0" then Some(CcByNcNd)
    else None
  }

  lemma FormatIsNamed(format: FeedFormat)
    ensures FormatNamed(Spelled(FormatBytes(format))) == Some(format)
  {
    SpelledAscii(FormatName(format));
    var name := FormatName(format);
    assert name[0] != 'r' ==> name != "rss";
  }

  lemma LicenseIsNamed(license: ContentLicense)
    ensures LicenseNamed(Spelled(LicenseBytes(license))) == Some(license)
  {
    SpelledAscii(LicenseToken(license));
    TokenIsNamed(license);
  }

  lemma TokenIsNamed(license: ContentLicense)
    ensures LicenseNamed(LicenseToken(license)) == Some(license)
  {
    var t := LicenseToken(license);
    match license
    case AllRightsReserved =>
    case Cc0 =>
    case CcBy =>
    case CcBySa =>
    case CcByNd => assert t[6] == 'N' && t[7] == 'D';
    case CcByNc => assert t[6] == 'N' && t[7] == 'C';
    case CcByNcSa =>
    case CcByNcNd => assert t[9] == 'N';
  }

  function NumberOf(bytes: ByteString, width: nat): Option<nat> {
    if |bytes| == width then Some(FromBigEndian(bytes)) else None
  }

  function SignedOf(bytes: ByteString, width: nat): (r: Option<int>)
    ensures r.Some? ==> InSignedRange(r.value, width)
  {
    SignedInRange(bytes);
    if |bytes| == width then Some(Signed(bytes)) else None
  }

  // The feed

  function HeadShapes(): seq<Shape> {
    [Prefixed, Prefixed, Prefixed, Prefixed, Marked, Prefixed, Prefixed, Marked, Prefixed]
  }

  /** What a feed shows before its items, and how many items it announces. */
  datatype Head = Head(format: FeedFormat, revision: nat, title: Blob, description: Option<Blob>,
                       canonicalUrl: Blob, selfUrl: Blob, hubUrl: Option<Blob>, count: nat)

  function ReadHead(s: ByteString): Read<Head> {
    var (fs, rest) :- TakeFields(HeadShapes(), s);
    var format, revision := FormatNamed(Spelled(fs[1].value)), NumberOf(fs[2].value, 2);
    var count := NumberOf(fs[8].value, 8);
    if fs[0].value == Ascii("jaunder.feed.semantic-identity.v1") && format.Some? && revision.Some? && count.Some? then
      Got(Head(format.value, revision.value, fs[3].value, fs[4].option, fs[5].value, fs[6].value, fs[7].option,
               count.value), rest)
    else Stuck
  }

  /** Whose an item is: of the author only the name. */
  datatype Identity = Identity(id: int, year: int, author: Blob, license: ContentLicense)

  function ReadIdentity(s: ByteString): Read<Identity> {
    var (fs, rest) :- TakeFields([Prefixed, Prefixed, Prefixed, Prefixed], s);
    var id, year, license := SignedOf(fs[0].value, 8), SignedOf(fs[1].value, 2), LicenseNamed(Spelled(fs[3].value));
    if id.None? || year.None? || license.None? then Stuck
    else Got(Identity(id.value, year.value, fs[2].value, license.value), rest)
  }

  datatype Content = Content(renderedTitle: Option<Blob>, visibleTitle: Option<Blob>, permalink: Blob,
                             summary: Option<Blob>, contentHtml: Blob)

  function ReadContent(s: ByteString): Read<Content> {
    var (fs, rest) :- TakeFields([Marked, Marked, Prefixed, Marked, Prefixed], s);
    Got(Content(fs[0].option, fs[1].option, fs[2].value, fs[3].option, fs[4].value), rest)
  }

  /** Seconds and nanoseconds of publication and update, and how many tags follow. */
  datatype Times = Times(published: (int, int), updated: (int, int), tags: nat)

  function ReadTimes(s: ByteString): Read<Times> {
    var (fs, rest) :- TakeFields([Wide(8), Wide(4), Wide(8), Wide(4), Prefixed], s);
    var count := NumberOf(fs[4].value, 8);
    if count.None? then Stuck
    else Got(Times((Signed(fs[0].bytes), Signed(fs[1].bytes)), (Signed(fs[2].bytes), Signed(fs[3].bytes)),
                   count.value), rest)
  }

  function ReadTags(count: nat, s: ByteString): Read<seq<Blob>> {
    if count == 0 then Got([], s)
    else
      var (tag, t) :- TakeFramed(s);
      var (tags, rest) :- ReadTags(count - 1, t);
      Got([tag] + tags, rest)
  }

  /** An item as a feed shows it. */
  datatype Shown = Shown(identity: Identity, content: Content, times: Times, tags: seq<Blob>)

  function ReadItem(s: ByteString): Read<Shown> {
    var (identity, t) :- ReadIdentity(s);
    var (content, u) :- ReadContent(t);
    var (times, v) :- ReadTimes(u);
    var (tags, rest) :- ReadTags(times.tags, v);
    Got(Shown(identity, content, times, tags), rest)
  }

  function ReadItems(count: nat, s: ByteString): Read<seq<Shown>> {
    if count == 0 then Got([], s)
    else
      var (item, t) :- ReadItem(s);
      var (items, rest) :- ReadItems(count - 1, t);
      Got([item] + items, rest)
  }

  function ReadFeed(stream: ByteString): Read<(Head, seq<Shown>)> {
    var (head, t) :- ReadHead(stream);
    var (items, rest) :- ReadItems(head.count, t);
    Got((head, items), rest)
  }

  // What is read of a feed

  function ShownHead(feed: Feed): Head {
    var m := feed.metadata;
    Head(feed.format, feed.revision, m.title, m.description, m.canonicalUrl, m.selfUrl, m.hubUrl, |feed.items|)
  }

  function ShownItem(item: FeedItem): Shown {
    var d, p, u := item.declaration, item.publishedAt, item.updatedAt;
    Shown(Identity(item.id, d.year, d.author.name, d.license),
          Content(item.renderedTitle, item.visibleTitle, item.permalink, item.summary, item.contentHtml),
          Times((p.second, p.nanosecond), (u.second, u.nanosecond), |item.tags|),
          item.tags)
  }

  function ShownItems(items: seq<FeedItem>): (r: seq<Shown>)
    ensures |r| == |items| && forall i :: 0 <= i < |items| ==> r[i] == ShownItem(items[i])
  {
    seq(|items|, i requires 0 <= i < |items| => ShownItem(items[i]))
  }

  lemma HeadIsReadable(feed: Feed, rest: ByteString)
    ensures ReadHead(Encode(HeadOf(feed)) + rest) == Got(ShownHead(feed), rest)
  {
    var fs := HeadOf(feed);
    TakesFields(fs, HeadShapes(), rest);
    FormatIsNamed(feed.format);
    Pow256Values();
    BigEndianRoundTrip(feed.revision, 2);
    BigEndianRoundTrip(|feed.items|, 8);
  }

  lemma {:induction false} TagsAreReadable(tags: seq<Blob>, rest: ByteString)
    ensures ReadTags(|tags|, Encode(TagFields(tags)) + rest) == Got(tags, rest)
  {
    if tags == [] {
      assert Encode(TagFields(tags)) + rest == rest;
    } else {
      var first, others := tags[0], tags[1..];
      assert tags == [first] + others;
      assert TagFields(tags) == [Framed(first)] + TagFields(others);
      Associate(Frame(first), Encode(TagFields(others)), rest);
      TakesFramed(first, Encode(TagFields(others)) + rest);
      TagsAreReadable(others, rest);
    }
  }

  lemma NumbersOfItem(item: FeedItem)
    ensures SignedOf(IdBytes(item.id), 8) == Some(item.id)
    ensures SignedOf(YearBytes(item.declaration.year), 2) == Some(item.declaration.year)
    ensures NumberOf(BigEndian(|item.tags|, 8), 8) == Some(|item.tags|)
  {
    Pow256Values();
    SignedRoundTrip(item.id, 8);
    SignedRoundTrip(item.declaration.year, 2);
    BigEndianRoundTrip(|item.tags|, 8);
  }

  lemma NumbersOfInstant(t: Instant)
    ensures InstantFields(t)[0].Fixed? && Signed(InstantFields(t)[0].bytes) == t.second
    ensures InstantFields(t)[1].Fixed? && Signed(InstantFields(t)[1].bytes) == t.nanosecond
  {
    Pow256Values();
    SignedRoundTrip(t.second, 8);
    SignedRoundTrip(t.nanosecond, 4);
  }

  lemma IdentityIsReadable(item: FeedItem, rest: ByteString)
    ensures ReadIdentity(Encode(IdentityFields(item)) + rest) == Got(ShownItem(item).identity, rest)
  {
    TakesFields(IdentityFields(item), [Prefixed, Prefixed, Prefixed, Prefixed], rest);
    NumbersOfItem(item);
    LicenseIsNamed(item.declaration.license);
  }

  lemma ContentIsReadable(item: FeedItem, rest: ByteString)
    ensures ReadContent(Encode(ContentFields(item)) + rest) == Got(ShownItem(item).content, rest)
  {
    TakesFields(ContentFields(item), [Marked, Marked, Prefixed, Marked, Prefixed], rest);
  }

  lemma TimesAreReadable(item: FeedItem, rest: ByteString)
    ensures ReadTimes(Encode(TimeFields(item)) + rest) == Got(ShownItem(item).times, rest)
  {
    TakesFields(TimeFields(item), [Wide(8), Wide(4), Wide(8), Wide(4), Prefixed], rest);
    NumbersOfItem(item);
    NumbersOfInstant(item.publishedAt);
    NumbersOfInstant(item.updatedAt);
  }

  lemma PartsOfItem(item: FeedItem, rest: ByteString)
    ensures Encode(ItemFields(item)) + rest ==
            Encode(IdentityFields(item)) + (Encode(ContentFields(item)) + (Encode(TimeFields(item)) + rest))
  {
    EncodeAppend(IdentityFields(item) + ContentFields(item), TimeFields(item));
    EncodeAppend(IdentityFields(item), ContentFields(item));
    Associate(Encode(IdentityFields(item)) + Encode(ContentFields(item)), Encode(TimeFields(item)), rest);
    Associate(Encode(IdentityFields(item)), Encode(ContentFields(item)), Encode(TimeFields(item)) + rest);
  }

  lemma ItemIsReadable(item: FeedItem, rest: ByteString)
    ensures ReadItem(Encode(ItemBlock(item)) + rest) == Got(ShownItem(item), rest)
  {
    var tags := Encode(TagFields(item.tags)) + rest;
    var times := Encode(TimeFields(item)) + tags;
    ItemStream(item, rest);
    PartsOfItem(item, tags);
    IdentityIsReadable(item, Encode(ContentFields(item)) + times);
    ContentIsReadable(item, times);
    TimesAreReadable(item, tags);
    TagsAreReadable(item.tags, rest);
  }

  lemma FirstIsReadable(items: seq<FeedItem>)
    requires items != []
    ensures ReadItem(Encode(ItemsFields(items))) == Got(ShownItem(items[0]), Encode(ItemsFields(items[1..])))
  {
    assert items == [items[0]] + items[1..];
    ItemsFieldsCons(items[0], items[1..]);
    EncodeAppend(ItemBlock(items[0]), ItemsFields(items[1..]));
    ItemIsReadable(items[0], Encode(ItemsFields(items[1..])));
  }

  lemma ReadItemsStep(count: nat, s: ByteString, item: Shown, t: ByteString, items: seq<Shown>)
    requires ReadItem(s) == Got(item, t) && ReadItems(count, t) == Got(items, [])
    ensures ReadItems(count + 1, s) == Got([item] + items, [])
  {
  }

  lemma ShownItemsCons(items: seq<FeedItem>)
    requires items != []
    ensures ShownItems(items) == [ShownItem(items[0])] + ShownItems(items[1..])
  {
  }

  lemma {:induction false} ItemsAreReadable(items: seq<FeedItem>)
    ensures ReadItems(|items|, Encode(ItemsFields(items))) == Got(ShownItems(items), [])
  {
    if items != [] {
      var s, t := Encode(ItemsFields(items)), Encode(ItemsFields(items[1..]));
      FirstIsReadable(items);
      ItemsAreReadable(items[1..]);
      ReadItemsStep(|items| - 1, s, ShownItem(items[0]), t, ShownItems(items[1..]));
      ShownItemsCons(items);
    }
  }

  /**
   The stream of a feed fingerprint reads back as the feed: format, revision, metadata and, item
   by item, everything that is shown, each value at its place and nothing behind the last item.
   */
  lemma FeedIsReadable(feed: Feed)
    ensures ReadFeed(StreamOf(feed)) == Got((ShownHead(feed), ShownItems(feed.items)), [])
  {
    EncodeAppend(HeadOf(feed), ItemsFields(feed.items));
    HeadIsReadable(feed, Encode(ItemsFields(feed.items)));
    ItemsAreReadable(feed.items);
  }

  // The ETag

  /** The fingerprint and the time an ETag is made of. */
  function ReadTag(stream: ByteString): Read<(Blob, (int, int))> {
    var (fs, rest) :- TakeFields([Prefixed, Prefixed, Wide(8), Wide(4)], stream);
    if fs[0].value != Ascii("jaunder.feed.etag.v1") then Stuck
    else Got((fs[1].value, (Signed(fs[2].bytes), Signed(fs[3].bytes))), rest)
  }

  lemma TagIsReadable(fingerprint: Blob, t: Instant)
    ensures ReadTag(Encode(EtagFields(fingerprint, t))) == Got((fingerprint, (t.second, t.nanosecond)), [])
  {
    var fs := EtagFields(fingerprint, t);
    assert Encode(fs) + [] == Encode(fs);
    TakesFields(fs, [Prefixed, Prefixed, Wide(8), Wide(4)], []);
    NumbersOfInstant(t);
  }

  /** The digest in a strong HTTP entity tag of this scheme. */
  function DigestInEtag(etag: ByteString): Option<ByteString> {
    if |etag| == 73 && etag[..8] == Ascii("\"sha256-") && etag[72..] == Ascii("\"") && IsHex(etag[8..72])
    then Some(HexBytes(etag[8..72])) else None
  }

  lemma DigestIsInEtag(digest: ByteString)
    requires |digest| == 32
    ensures DigestInEtag(EtagOfDigest(digest)) == Some(digest)
  {
    var open, close, h, etag := AsciiBlob("\"sha256-"), AsciiBlob("\""), DigestHex(digest), EtagOfDigest(digest);
    assert etag[..8] == open && etag[72..] == close && etag[8..72] == h;
    BytesOfHex(digest);
  }

  /** The ETag spells the digest of a stream that reads back as the fingerprint and the time. */
  lemma EtagIsOfTag(sha: ByteString -> ByteString, fingerprint: Blob, t: Instant)
    requires forall x :: |sha(x)| == 32
    ensures exists stream :: ReadTag(stream) == Got((fingerprint, (t.second, t.nanosecond)), [])
                             && DigestInEtag(FeedEtag(sha, fingerprint, t)) == Some(sha(stream))
  {
    TagIsReadable(fingerprint, t);
    DigestIsInEtag(sha(Encode(EtagFields(fingerprint, t))));
  }
}
