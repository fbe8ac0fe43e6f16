/**
 The feed fingerprint and the feed ETag (`host/src/etag.rs`).

 SHA-256 is a parameter: what is proved is about the byte stream fed to it. The stream is
 described as a list of fields, each of which knows where it ends.
 */
module Etag {
  import opened Wrappers
  import opened Bytes

  type I16 = x: int | -0x8000 <= x < 0x8000
  type I32 = x: int | -0x8000_0000 <= x < 0x8000_0000
  type I64 = x: int | -0x8000_0000_0000_0000 <= x < 0x8000_0000_0000_0000
  type U16 = x: int | 0 <= x < 0x1_0000

  datatype FeedFormat = Rss | Atom | Json

  /** Whole seconds since the epoch and the nanoseconds beyond them. */
  datatype Instant = Instant(second: I64, nanosecond: I32)

  datatype FeedMetadata = FeedMetadata(
    title: Blob,
    description: Option<Blob>,
    canonicalUrl: Blob,
    selfUrl: Blob,
    hubUrl: Option<Blob>,
    representationModifiedAt: Instant)

  datatype ContentLicense =
    AllRightsReserved | Cc0 | CcBy | CcBySa | CcByNd | CcByNc | CcByNcSa | CcByNcNd

  datatype CopyrightAuthor = DisplayName(name: Blob) | Username(name: Blob)

  datatype CopyrightDeclaration = CopyrightDeclaration(year: I16, author: CopyrightAuthor, license: ContentLicense)

  type TagList = tags: seq<Blob> | |tags| <= ISIZE_MAX

  datatype FeedItem = FeedItem(
    id: I64,
    declaration: CopyrightDeclaration,
    renderedTitle: Option<Blob>,
    visibleTitle: Option<Blob>,
    permalink: Blob,
    summary: Option<Blob>,
    contentHtml: Blob,
    publishedAt: Instant,
    updatedAt: Instant,
    tags: TagList)

  type ItemList = items: seq<FeedItem> | |items| <= ISIZE_MAX

  function FormatName(format: FeedFormat): string {
    match format
    case Rss => "rss"
    case Atom => "atom"
    case Json => "json"
  }

  function LicenseToken(license: ContentLicense): string {
    match license
    case AllRightsReserved => "all-rights-reserved"
    case Cc0 => "CC0-1.0"
    case CcBy => "CC-BY-4.0"
    case CcBySa => "CC-BY-SA-4.0"
    case CcByNd => "CC-BY-ND-4.0"
    case CcByNc => "CC-BY-NC-4.0"
    case CcByNcSa => "CC-BY-NC-SA-4.0"
    case CcByNcNd => "CC-BY-NC-ND-4.0"
  }

  // Fields

  /** A fixed-width value, a length-prefixed value, or a tagged optional value. */
  datatype Field = Fixed(bytes: ByteString) | Framed(value: Blob) | Optional(option: Option<Blob>)

  function EncodeField(f: Field): ByteString {
    match f
    case Fixed(bytes) => bytes
    case Framed(value) => Frame(value)
    case Optional(None) => [0]
    case Optional(Some(value)) => [1] + Frame(value)
  }

  function Encode(fs: seq<Field>): ByteString {
    if fs == [] then [] else EncodeField(fs[0]) + Encode(fs[1..])
  }

  /** A reader who knows the shape of the left field can read it off a stream. */
  predicate SameShape(f: Field, g: Field) {
    match f
    case Fixed(bytes) => g.Fixed? && |bytes| == |g.bytes|
    case Framed(_) => g.Framed?
    case Optional(_) => g.Optional?
  }

  lemma FieldCancels(f: Field, x: ByteString, g: Field, y: ByteString)
    requires SameShape(f, g) && EncodeField(f) + x == EncodeField(g) + y
    ensures f == g && x == y
  {
    match f
    case Fixed(bytes) => CancelPrefix(bytes, x, g.bytes, y);
    case Framed(value) => FrameCancels(value, x, g.value, y);
    case Optional(option) => OptionCancels(option, x, g.option, y);
  }

  lemma OptionCancels(a: Option<Blob>, x: ByteString, b: Option<Blob>, y: ByteString)
    requires EncodeField(Optional(a)) + x == EncodeField(Optional(b)) + y
    ensures a == b && x == y
  {
    var s, t := EncodeField(Optional(a)), EncodeField(Optional(b));
    assert (s + x)[0] == s[0] && (t + y)[0] == t[0];
    if a.None? {
      CancelPrefix([0], x, [0], y);
    } else {
      assert s + x == [1] + (Frame(a.value) + x);
      assert t + y == [1] + (Frame(b.value) + y);
      CancelPrefix([1], Frame(a.value) + x, [1], Frame(b.value) + y);
      FrameCancels(a.value, x, b.value, y);
    }
  }

  /** Streams of fields of one shape are equal only when the fields are, and so are the rests. */
  lemma {:induction false} FieldsCancel(fs: seq<Field>, x: ByteString, gs: seq<Field>, y: ByteString)
    requires |fs| == |gs| && forall i :: 0 <= i < |fs| ==> SameShape(fs[i], gs[i])
    requires Encode(fs) + x == Encode(gs) + y
    ensures fs == gs && x == y
  {
    if fs == [] {
      assert Encode(fs) + x == x && Encode(gs) + y == y;
    } else {
      Associate(EncodeField(fs[0]), Encode(fs[1..]), x);
      Associate(EncodeField(gs[0]), Encode(gs[1..]), y);
      FieldCancels(fs[0], Encode(fs[1..]) + x, gs[0], Encode(gs[1..]) + y);
      FieldsCancel(fs[1..], x, gs[1..], y);
      assert fs == [fs[0]] + fs[1..] && gs == [gs[0]] + gs[1..];
    }
  }

  lemma {:induction false} EncodeAppend(fs: seq<Field>, gs: seq<Field>)
    ensures Encode(fs + gs) == Encode(fs) + Encode(gs)
  {
    if fs == [] {
      assert fs + gs == gs;
    } else {
      assert (fs + gs)[1..] == fs[1..] + gs;
      EncodeAppend(fs[1..], gs);
    }
  }

  // The fields of a feed

  function AsciiBlob(s: string): Blob
    requires |s| < 64 && forall i :: 0 <= i < |s| ==> s[i] < '\U{80}'
  {
    Ascii(s)
  }

  function InstantFields(t: Instant): seq<Field> {
    Pow256Values();
    [Fixed(SignedBigEndian(t.second, 8)), Fixed(SignedBigEndian(t.nanosecond, 4))]
  }

  function YearBytes(year: I16): Blob {
    Pow256Values();
    SignedBigEndian(year, 2)
  }

  function IdBytes(id: I64): Blob {
    Pow256Values();
    SignedBigEndian(id, 8)
  }

  function LicenseBytes(license: ContentLicense): Blob {
    AsciiBlob(LicenseToken(license))
  }

  function DeclarationFields(d: CopyrightDeclaration): seq<Field> {
    [Framed(YearBytes(d.year)), Framed(d.author.name), Framed(LicenseBytes(d.license))]
  }

  function SemanticDomain(): Blob {
    AsciiBlob("jaunder.feed.semantic-identity.v1")
  }

  function FormatBytes(format: FeedFormat): Blob {
    AsciiBlob(FormatName(format))
  }

  function HeadFields(format: FeedFormat, revision: U16, metadata: FeedMetadata, count: nat): seq<Field> {
    [ Framed(SemanticDomain()),
      Framed(FormatBytes(format)),
      Framed(BigEndian(revision, 2)),
      Framed(metadata.title),
      Optional(metadata.description),
      Framed(metadata.canonicalUrl),
      Framed(metadata.selfUrl),
      Optional(metadata.hubUrl),
      Framed(BigEndian(count, 8)) ]
  }

  function IdentityFields(item: FeedItem): seq<Field> {
    [Framed(IdBytes(item.id))] + DeclarationFields(item.declaration)
  }

  function ContentFields(item: FeedItem): seq<Field> {
    [ Optional(item.renderedTitle), Optional(item.visibleTitle), Framed(item.permalink),
      Optional(item.summary), Framed(item.contentHtml) ]
  }

  function TimeFields(item: FeedItem): seq<Field> {
    InstantFields(item.publishedAt) + InstantFields(item.updatedAt) + [Framed(BigEndian(|item.tags|, 8))]
  }

  function ItemFields(item: FeedItem): seq<Field> {
    IdentityFields(item) + ContentFields(item) + TimeFields(item)
  }

  function TagFields(tags: seq<Blob>): (fs: seq<Field>)
    ensures |fs| == |tags| && forall i :: 0 <= i < |tags| ==> fs[i] == Framed(tags[i])
  {
    if tags == [] then [] else TagFields(tags[..|tags| - 1]) + [Framed(tags[|tags| - 1])]
  }

  function ItemBlock(item: FeedItem): seq<Field> {
    ItemFields(item) + TagFields(item.tags)
  }

  function ItemsFields(items: seq<FeedItem>): seq<Field> {
    if items == [] then []
    else ItemsFields(items[..|items| - 1]) + ItemBlock(items[|items| - 1])
  }

  function FeedFields(format: FeedFormat, revision: U16, metadata: FeedMetadata, items: ItemList): seq<Field> {
    HeadFields(format, revision, metadata, |items|) + ItemsFields(items)
  }

  function Preimage(format: FeedFormat, revision: U16, metadata: FeedMetadata, items: ItemList): ByteString {
    Encode(FeedFields(format, revision, metadata, items))
  }

  // The hasher and its writers

  class Hasher {
    var input: ByteString
    ghost var fields: seq<Field>

    ghost predicate Valid()
      reads this
    {
      input == Encode(fields)
    }

    constructor ()
      ensures Valid() && input == [] && fields == []
    {
      input := [];
      fields := [];
    }

    method Update(data: ByteString, ghost f: Field)
      requires Valid() && data == EncodeField(f)
      modifies this
      ensures Valid() && input == old(input) + data && fields == old(fields) + [f]
    {
      EncodeAppend(fields, [f]);
      EncodeOne(f);
      input := input + data;
      fields := fields + [f];
    }

    method WriteBytes(value: Blob)
      requires Valid()
      modifies this
      ensures Valid() && fields == old(fields) + [Framed(value)]
    {
      ghost var before := fields;
      var length := BigEndian(|value|, 8);
      Update(length, Fixed(length));
      Update(value, Fixed(value));
      assert Encode(before + [Framed(value)]) == input by {
        EncodeAppend(before, [Framed(value)]);
        EncodeAppend(before, [Fixed(length), Fixed(value)]);
        assert before + [Fixed(length)] + [Fixed(value)] == before + [Fixed(length), Fixed(value)];
        EncodePair(length, value);
      }
      fields := before + [Framed(value)];
    }

    method WriteOptionalString(value: Option<Blob>)
      requires Valid()
      modifies this
      ensures Valid() && fields == old(fields) + [Optional(value)]
    {
      ghost var before := fields;
      match value {
        case None =>
          Update([0], Optional(None));
        case Some(text) =>
          Update([1], Fixed([1]));
          WriteBytes(text);
          assert Encode(before + [Optional(value)]) == input by {
            EncodeAppend(before, [Optional(value)]);
            EncodeAppend(before, [Fixed([1]), Framed(text)]);
            assert before + [Fixed([1])] + [Framed(text)] == before + [Fixed([1]), Framed(text)];
            EncodeTagged(text);
          }
          fields := before + [Optional(value)];
      }
    }

    method WriteTimestamp(value: Instant)
      requires Valid()
      modifies this
      ensures Valid() && fields == old(fields) + InstantFields(value)
    {
      Pow256Values();
      var second := SignedBigEndian(value.second, 8);
      var nanosecond := SignedBigEndian(value.nanosecond, 4);
      Update(second, Fixed(second));
      Update(nanosecond, Fixed(nanosecond));
    }

    method WriteDeclarationIdentity(declaration: CopyrightDeclaration)
      requires Valid()
      modifies this
      ensures Valid() && fields == old(fields) + DeclarationFields(declaration)
    {
      WriteBytes(YearBytes(declaration.year));
      WriteBytes(declaration.author.name);
      WriteBytes(LicenseBytes(declaration.license));
    }

    /** `finalize`, for any digest function. */
    method Finalize(sha: ByteString -> ByteString) returns (digest: ByteString)
      requires Valid()
      ensures digest == sha(Encode(fields))
    {
      digest := sha(input);
    }
  }

  lemma EncodeOne(f: Field)
    ensures Encode([f]) == EncodeField(f)
  {
    assert EncodeField(f) + [] == EncodeField(f);
  }

  lemma EncodePair(length: ByteString, value: Blob)
    requires length == BigEndian(|value|, 8)
    ensures Encode([Fixed(length), Fixed(value)]) == Encode([Framed(value)])
  {
    EncodeOne(Framed(value));
    EncodeOne(Fixed(value));
    assert [Fixed(length), Fixed(value)][1..] == [Fixed(value)];
  }

  lemma EncodeTagged(text: Blob)
    ensures Encode([Fixed([1]), Framed(text)]) == Encode([Optional(Some(text))])
  {
    EncodeOne(Optional(Some(text)));
    EncodeOne(Framed(text));
    assert [Fixed([1]), Framed(text)][1..] == [Framed(text)];
  }

  function Fingerprint(sha: ByteString -> ByteString, format: FeedFormat, revision: U16,
                       metadata: FeedMetadata, items: ItemList): ByteString
  {
    DigestHex(sha(Preimage(format, revision, metadata, items)))
  }

  method WriteIdentity(hasher: Hasher, item: FeedItem)
    requires hasher.Valid()
    modifies hasher
    ensures hasher.Valid() && hasher.fields == old(hasher.fields) + IdentityFields(item)
  {
    hasher.WriteBytes(IdBytes(item.id));
    hasher.WriteDeclarationIdentity(item.declaration);
  }

  method WriteContent(hasher: Hasher, item: FeedItem)
    requires hasher.Valid()
    modifies hasher
    ensures hasher.Valid() && hasher.fields == old(hasher.fields) + ContentFields(item)
  {
    hasher.WriteOptionalString(item.renderedTitle);
    hasher.WriteOptionalString(item.visibleTitle);
    hasher.WriteBytes(item.permalink);
    hasher.WriteOptionalString(item.summary);
    hasher.WriteBytes(item.contentHtml);
  }

  method WriteItem(hasher: Hasher, item: FeedItem)
    requires hasher.Valid()
    modifies hasher
    ensures hasher.Valid() && hasher.fields == old(hasher.fields) + ItemBlock(item)
  {
    ghost var before := hasher.fields;
    WriteIdentity(hasher, item);
    WriteContent(hasher, item);
    WriteTimes(hasher, item);
    Associate(before, IdentityFields(item), ContentFields(item));
    Associate(before, IdentityFields(item) + ContentFields(item), TimeFields(item));
    assert hasher.fields == before + ItemFields(item);
    WriteTags(hasher, item.tags);
    Associate(before, ItemFields(item), TagFields(item.tags));
  }

  method WriteItems(hasher: Hasher, items: seq<FeedItem>)
    requires hasher.Valid()
    modifies hasher
    ensures hasher.Valid() && hasher.fields == old(hasher.fields) + ItemsFields(items)
  {
    ghost var before := hasher.fields;
    var i := 0;
    while i < |items|
      invariant 0 <= i <= |items|
      invariant hasher.Valid() && hasher.fields == before + ItemsFields(items[..i])
    {
      WriteItem(hasher, items[i]);
      assert items[..i + 1][..i] == items[..i];
      Associate(before, ItemsFields(items[..i]), ItemBlock(items[i]));
      i := i + 1;
    }
    assert items[..i] == items;
  }

  method WriteTimes(hasher: Hasher, item: FeedItem)
    requires hasher.Valid()
    modifies hasher
    ensures hasher.Valid() && hasher.fields == old(hasher.fields) + TimeFields(item)
  {
    hasher.WriteTimestamp(item.publishedAt);
    hasher.WriteTimestamp(item.updatedAt);
    hasher.WriteBytes(BigEndian(|item.tags|, 8));
  }

  method WriteTags(hasher: Hasher, tags: seq<Blob>)
    requires hasher.Valid()
    modifies hasher
    ensures hasher.Valid() && hasher.fields == old(hasher.fields) + TagFields(tags)
  {
    ghost var before := hasher.fields;
    var i := 0;
    while i < |tags|
      invariant 0 <= i <= |tags|
      invariant hasher.Valid() && hasher.fields == before + TagFields(tags[..i])
    {
      hasher.WriteBytes(tags[i]);
      assert tags[..i + 1][..i] == tags[..i];
      i := i + 1;
    }
    assert tags[..i] == tags;
  }

  /** The fields every feed starts with, up to its item count. */
  method WriteHead(hasher: Hasher, format: FeedFormat, revision: U16, metadata: FeedMetadata, count: nat)
    requires hasher.Valid() && hasher.fields == []
    modifies hasher
    ensures hasher.Valid() && hasher.fields == HeadFields(format, revision, metadata, count)
  {
    hasher.WriteBytes(SemanticDomain());
    hasher.WriteBytes(FormatBytes(format));
    hasher.WriteBytes(BigEndian(revision, 2));
    hasher.WriteBytes(metadata.title);
    hasher.WriteOptionalString(metadata.description);
    hasher.WriteBytes(metadata.canonicalUrl);
    hasher.WriteBytes(metadata.selfUrl);
    hasher.WriteOptionalString(metadata.hubUrl);
    hasher.WriteBytes(BigEndian(count, 8));
  }

  method SemanticFingerprintWithRevision(sha: ByteString -> ByteString, format: FeedFormat, revision: U16,
                                         metadata: FeedMetadata, items: ItemList)
    returns (fingerprint: ByteString)
    ensures fingerprint == Fingerprint(sha, format, revision, metadata, items)
  {
    var hasher := new Hasher();
    WriteHead(hasher, format, revision, metadata, |items|);
    WriteItems(hasher, items);
    var digest := hasher.Finalize(sha);
    fingerprint := DigestHex(digest);
  }

  function EtagFields(fingerprint: Blob, modifiedAt: Instant): seq<Field> {
    [Framed(AsciiBlob("jaunder.feed.etag.v1")), Framed(fingerprint)] + InstantFields(modifiedAt)
  }

  /** `"sha256-<hex>"`, with its quotes. */
  function EtagOfDigest(digest: ByteString): ByteString {
    AsciiBlob("\"sha256-") + DigestHex(digest) + AsciiBlob("\"")
  }

  function FeedEtag(sha: ByteString -> ByteString, fingerprint: Blob, modifiedAt: Instant): ByteString {
    EtagOfDigest(sha(Encode(EtagFields(fingerprint, modifiedAt))))
  }

  method ComputeFeedEtag(sha: ByteString -> ByteString, fingerprint: Blob, modifiedAt: Instant)
    returns (etag: ByteString)
    ensures etag == FeedEtag(sha, fingerprint, modifiedAt)
  {
    var hasher := new Hasher();
    hasher.WriteBytes(AsciiBlob("jaunder.feed.etag.v1"));
    hasher.WriteBytes(fingerprint);
    hasher.WriteTimestamp(modifiedAt);
    assert hasher.fields == EtagFields(fingerprint, modifiedAt);
    var digest := hasher.Finalize(sha);
    etag := EtagOfDigest(digest);
  }

  // Unique decodability

  lemma FormatNamesDiffer(f: FeedFormat, g: FeedFormat)
    requires AsciiBlob(FormatName(f)) == AsciiBlob(FormatName(g))
    ensures f == g
  {
    assert FormatName(f)[0] as int == FormatName(g)[0] as int;
  }

  lemma AsciiInjective(s: string, t: string)
    requires |s| < 64 && forall i :: 0 <= i < |s| ==> s[i] < '\U{80}'
    requires |t| < 64 && forall i :: 0 <= i < |t| ==> t[i] < '\U{80}'
    requires AsciiBlob(s) == AsciiBlob(t)
    ensures s == t
  {
    assert forall i :: 0 <= i < |s| ==> s[i] as int == Ascii(t)[i];
  }

  lemma LicenseTokensDiffer(a: ContentLicense, b: ContentLicense)
    requires LicenseToken(a) == LicenseToken(b)
    ensures a == b
  {
    var s, t := LicenseToken(a), LicenseToken(b);
    assert |s| == |t| && (|s| > 6 ==> s[3] == t[3] && s[6] == t[6]);
    if |s| == 12 {
      assert s[7] == t[7] && s[6] == t[6];
    }
    if |s| == 15 {
      assert s[9] == t[9];
    }
  }

  lemma InstantFieldsInjective(s: Instant, t: Instant)
    requires InstantFields(s) == InstantFields(t)
    ensures s == t
  {
    Pow256Values();
    assert InstantFields(s)[0] == InstantFields(t)[0] && InstantFields(s)[1] == InstantFields(t)[1];
    SignedBigEndianInjective(s.second, t.second, 8);
    SignedBigEndianInjective(s.nanosecond, t.nanosecond, 4);
  }

  /** The part of a copyright declaration a feed shows: the author's kind is not in it. */
  predicate SameRights(d: CopyrightDeclaration, e: CopyrightDeclaration) {
    d.year == e.year && d.author.name == e.author.name && d.license == e.license
  }

  lemma DeclarationFieldsInjective(d: CopyrightDeclaration, e: CopyrightDeclaration)
    requires DeclarationFields(d) == DeclarationFields(e)
    ensures SameRights(d, e)
  {
    var fs, gs := DeclarationFields(d), DeclarationFields(e);
    assert fs[0] == gs[0] && fs[1] == gs[1] && fs[2] == gs[2];
    YearBytesInjective(d.year, e.year);
    LicenseBytesInjective(d.license, e.license);
  }

  lemma YearBytesInjective(y: I16, z: I16)
    requires YearBytes(y) == YearBytes(z)
    ensures y == z
  {
    Pow256Values();
    SignedBigEndianInjective(y, z, 2);
  }

  lemma LicenseBytesInjective(a: ContentLicense, b: ContentLicense)
    requires LicenseBytes(a) == LicenseBytes(b)
    ensures a == b
  {
    AsciiInjective(LicenseToken(a), LicenseToken(b));
    LicenseTokensDiffer(a, b);
  }

  predicate SameItem(a: FeedItem, b: FeedItem) {
    SameRights(a.declaration, b.declaration) && a == b.(declaration := a.declaration)
  }

  lemma ItemFieldsShape(a: FeedItem, b: FeedItem)
    ensures |ItemFields(a)| == |ItemFields(b)| == 14
    ensures forall i :: 0 <= i < 14 ==> SameShape(ItemFields(a)[i], ItemFields(b)[i])
  {
    ShapesAppend(IdentityFields(a), ContentFields(a), IdentityFields(b), ContentFields(b));
    ShapesAppend(IdentityFields(a) + ContentFields(a), TimeFields(a),
                 IdentityFields(b) + ContentFields(b), TimeFields(b));
  }

  predicate SameShapes(fs: seq<Field>, gs: seq<Field>) {
    |fs| == |gs| && forall i :: 0 <= i < |fs| ==> SameShape(fs[i], gs[i])
  }

  lemma ShapesAppend(fs: seq<Field>, fs': seq<Field>, gs: seq<Field>, gs': seq<Field>)
    requires SameShapes(fs, gs) && SameShapes(fs', gs')
    ensures SameShapes(fs + fs', gs + gs')
  {
  }

  lemma ItemFieldsInjective(a: FeedItem, b: FeedItem)
    requires ItemFields(a) == ItemFields(b) && a.tags == b.tags
    ensures SameItem(a, b)
  {
    Pow256Values();
    CancelPrefix(IdentityFields(a) + ContentFields(a), TimeFields(a),
                 IdentityFields(b) + ContentFields(b), TimeFields(b));
    CancelPrefix(IdentityFields(a), ContentFields(a), IdentityFields(b), ContentFields(b));
    IdentityFieldsInjective(a, b);
    ContentFieldsInjective(a, b);
    TimeFieldsInjective(a, b);
  }

  lemma IdentityFieldsInjective(a: FeedItem, b: FeedItem)
    requires IdentityFields(a) == IdentityFields(b)
    ensures a.id == b.id && SameRights(a.declaration, b.declaration)
  {
    Pow256Values();
    assert IdentityFields(a)[0] == IdentityFields(b)[0];
    SignedBigEndianInjective(a.id, b.id, 8);
    CancelPrefix([IdentityFields(a)[0]], DeclarationFields(a.declaration),
                    [IdentityFields(b)[0]], DeclarationFields(b.declaration));
    DeclarationFieldsInjective(a.declaration, b.declaration);
  }

  lemma ContentFieldsInjective(a: FeedItem, b: FeedItem)
    requires ContentFields(a) == ContentFields(b)
    ensures a.renderedTitle == b.renderedTitle && a.visibleTitle == b.visibleTitle && a.permalink == b.permalink
    ensures a.summary == b.summary && a.contentHtml == b.contentHtml
  {
    var fs, gs := ContentFields(a), ContentFields(b);
    assert fs[0] == gs[0] && fs[1] == gs[1] && fs[2] == gs[2] && fs[3] == gs[3] && fs[4] == gs[4];
  }

  lemma TimeFieldsInjective(a: FeedItem, b: FeedItem)
    requires TimeFields(a) == TimeFields(b)
    ensures a.publishedAt == b.publishedAt && a.updatedAt == b.updatedAt && |a.tags| == |b.tags|
  {
    Pow256Values();
    var p, q := InstantFields(a.publishedAt), InstantFields(b.publishedAt);
    var r, s := InstantFields(a.updatedAt), InstantFields(b.updatedAt);
    var m, n := [Framed(BigEndian(|a.tags|, 8))], [Framed(BigEndian(|b.tags|, 8))];
    CancelPrefix(p + r, m, q + s, n);
    CancelPrefix(p, r, q, s);
    InstantFieldsInjective(a.publishedAt, b.publishedAt);
    InstantFieldsInjective(a.updatedAt, b.updatedAt);
    assert m[0] == n[0];
    BigEndianInjective(|a.tags|, |b.tags|, 8);
  }

  lemma TagFieldsInjective(a: seq<Blob>, b: seq<Blob>)
    requires TagFields(a) == TagFields(b)
    ensures a == b
  {
    assert forall i :: 0 <= i < |a| ==> TagFields(a)[i] == TagFields(b)[i];
  }

  predicate SameItems(a: seq<FeedItem>, b: seq<FeedItem>) {
    |a| == |b| && forall i :: 0 <= i < |a| ==> SameItem(a[i], b[i])
  }

  lemma {:induction false} ItemsFieldsCons(a: FeedItem, rest: seq<FeedItem>)
    ensures ItemsFields([a] + rest) == ItemBlock(a) + ItemsFields(rest)
  {
    var items := [a] + rest;
    if rest == [] {
      assert items == [a] && items[..0] == [];
      assert [] + ItemBlock(a) == ItemBlock(a) + [];
    } else {
      var front := rest[..|rest| - 1];
      assert items[..|items| - 1] == [a] + front;
      ItemsFieldsCons(a, front);
      Associate(ItemBlock(a), ItemsFields(front), ItemBlock(rest[|rest| - 1]));
    }
  }

  lemma ItemStream(p: FeedItem, x: ByteString)
    ensures Encode(ItemBlock(p)) + x == Encode(ItemFields(p)) + (Encode(TagFields(p.tags)) + x)
  {
    EncodeAppend(ItemFields(p), TagFields(p.tags));
  }

  lemma ItemFieldsCancel(p: FeedItem, x: ByteString, q: FeedItem, y: ByteString)
    requires Encode(ItemFields(p)) + x == Encode(ItemFields(q)) + y
    ensures ItemFields(p) == ItemFields(q) && |p.tags| == |q.tags| && x == y
  {
    ItemFieldsShape(p, q);
    FieldsCancel(ItemFields(p), x, ItemFields(q), y);
    TagCounts(p, q);
  }

  /** The fixed part of an item tells how many tags follow it. */
  lemma ItemBlockCancels(p: FeedItem, x: ByteString, q: FeedItem, y: ByteString)
    requires Encode(ItemBlock(p)) + x == Encode(ItemBlock(q)) + y
    ensures SameItem(p, q) && x == y
  {
    ItemStream(p, x);
    ItemStream(q, y);
    ItemFieldsCancel(p, Encode(TagFields(p.tags)) + x, q, Encode(TagFields(q.tags)) + y);
    FieldsCancel(TagFields(p.tags), x, TagFields(q.tags), y);
    TagFieldsInjective(p.tags, q.tags);
    ItemFieldsInjective(p, q);
  }

  lemma TagCounts(p: FeedItem, q: FeedItem)
    requires ItemFields(p) == ItemFields(q)
    ensures |p.tags| == |q.tags|
  {
    CancelPrefix(IdentityFields(p) + ContentFields(p), TimeFields(p),
                 IdentityFields(q) + ContentFields(q), TimeFields(q));
    TimeFieldsInjective(p, q);
  }

  lemma {:induction false} ItemsFieldsInjective(a: seq<FeedItem>, b: seq<FeedItem>)
    requires |a| == |b| && Encode(ItemsFields(a)) == Encode(ItemsFields(b))
    ensures SameItems(a, b)
  {
    if a != [] {
      assert a == [a[0]] + a[1..] && b == [b[0]] + b[1..];
      FirstItemCancels(a[0], a[1..], b[0], b[1..]);
      ItemsFieldsInjective(a[1..], b[1..]);
    }
  }

  lemma FirstItemCancels(p: FeedItem, r: seq<FeedItem>, q: FeedItem, s: seq<FeedItem>)
    requires Encode(ItemsFields([p] + r)) == Encode(ItemsFields([q] + s))
    ensures SameItem(p, q) && Encode(ItemsFields(r)) == Encode(ItemsFields(s))
  {
    ItemsFieldsCons(p, r);
    ItemsFieldsCons(q, s);
    EncodeAppend(ItemBlock(p), ItemsFields(r));
    EncodeAppend(ItemBlock(q), ItemsFields(s));
    ItemBlockCancels(p, Encode(ItemsFields(r)), q, Encode(ItemsFields(s)));
  }

  lemma HeadFieldsInjective(f: FeedFormat, r: U16, m: FeedMetadata, c: nat,
                            f': FeedFormat, r': U16, m': FeedMetadata, c': nat)
    requires c <= ISIZE_MAX && c' <= ISIZE_MAX && HeadFields(f, r, m, c) == HeadFields(f', r', m', c')
    ensures f == f' && r == r' && c == c' && m == m'.(representationModifiedAt := m.representationModifiedAt)
  {
    var fs, gs := HeadFields(f, r, m, c), HeadFields(f', r', m', c');
    assert fs[1] == gs[1] && fs[2] == gs[2] && fs[3] == gs[3] && fs[4] == gs[4];
    assert fs[5] == gs[5] && fs[6] == gs[6] && fs[7] == gs[7] && fs[8] == gs[8];
    FormatNamesDiffer(f, f');
    Pow256Values();
    BigEndianInjective(r, r', 2);
    BigEndianInjective(c, c', 8);
  }

  /** Everything a feed fingerprint is made of. */
  datatype Feed = Feed(format: FeedFormat, revision: U16, metadata: FeedMetadata, items: ItemList)

  function StreamOf(feed: Feed): ByteString {
    Preimage(feed.format, feed.revision, feed.metadata, feed.items)
  }

  /** Equal up to the representation time and the kind of each author. */
  predicate SameFeed(a: Feed, b: Feed) {
    && a.format == b.format && a.revision == b.revision
    && a.metadata == b.metadata.(representationModifiedAt := a.metadata.representationModifiedAt)
    && SameItems(a.items, b.items)
  }

  /**
   The byte stream of the feed fingerprint determines everything it is made from: format,
   revision, metadata, and every item in order, down to optional fields, tag lists and the
   shown part of the copyright declaration. The representation time is not in it.
   */
  lemma PreimageIsUniquelyDecodable(a: Feed, b: Feed)
    ensures StreamOf(a) == StreamOf(b) <==> SameFeed(a, b)
  {
    if StreamOf(a) == StreamOf(b) {
      EqualStreams(a, b);
    }
    if SameFeed(a, b) {
      SameItemsSameFields(a.items, b.items);
    }
  }

  function HeadOf(feed: Feed): seq<Field> {
    HeadFields(feed.format, feed.revision, feed.metadata, |feed.items|)
  }

  lemma HeadShape(a: Feed, b: Feed)
    ensures SameShapes(HeadOf(a), HeadOf(b))
  {
  }

  lemma EqualStreams(a: Feed, b: Feed)
    requires StreamOf(a) == StreamOf(b)
    ensures SameFeed(a, b)
  {
    EncodeAppend(HeadOf(a), ItemsFields(a.items));
    EncodeAppend(HeadOf(b), ItemsFields(b.items));
    HeadShape(a, b);
    FieldsCancel(HeadOf(a), Encode(ItemsFields(a.items)), HeadOf(b), Encode(ItemsFields(b.items)));
    HeadFieldsInjective(a.format, a.revision, a.metadata, |a.items|, b.format, b.revision, b.metadata, |b.items|);
    ItemsFieldsInjective(a.items, b.items);
  }

  lemma {:induction false} SameItemsSameFields(a: seq<FeedItem>, b: seq<FeedItem>)
    requires SameItems(a, b)
    ensures ItemsFields(a) == ItemsFields(b)
  {
    if a != [] {
      SameItemsSameFields(a[..|a| - 1], b[..|b| - 1]);
      assert SameItem(a[|a| - 1], b[|b| - 1]);
    }
  }

  /** The digest function collides on these two inputs. */
  ghost predicate Collides(sha: ByteString -> ByteString, x: ByteString, y: ByteString) {
    x != y && sha(x) == sha(y)
  }

  function EtagOf(sha: ByteString -> ByteString, feed: Feed, modifiedAt: Instant): ByteString
    requires forall x :: |sha(x)| == 32
  {
    FeedEtag(sha, Fingerprint(sha, feed.format, feed.revision, feed.metadata, feed.items), modifiedAt)
  }

  /** The byte stream whose digest an ETag spells: domain, fingerprint and representation time. */
  function TagStream(sha: ByteString -> ByteString, feed: Feed, modifiedAt: Instant): ByteString
    requires forall x :: |sha(x)| == 32
  {
    Encode(EtagFields(Fingerprint(sha, feed.format, feed.revision, feed.metadata, feed.items), modifiedAt))
  }

  /**
   Feeds with equal ETags have equal inputs and equal representation times, unless the digest
   function collides on these very streams: those of the two feeds, or those of the two tags.
   */
  lemma EqualEtagsMeanEqualFeeds(sha: ByteString -> ByteString, a: Feed, s: Instant, b: Feed, t: Instant)
    requires forall x :: |sha(x)| == 32
    requires EtagOf(sha, a, s) == EtagOf(sha, b, t)
    ensures || Collides(sha, TagStream(sha, a, s), TagStream(sha, b, t))
            || Collides(sha, StreamOf(a), StreamOf(b))
            || (SameFeed(a, b) && s == t)
  {
    var p, q := StreamOf(a), StreamOf(b);
    var fp: Blob, fq: Blob := DigestHex(sha(p)), DigestHex(sha(q));
    var e, e' := TagStream(sha, a, s), TagStream(sha, b, t);
    EtagOfDigestInjective(sha(e), sha(e'));
    if e == e' {
      EtagFieldsInjective(fp, s, fq, t);
      DigestHexInjective(sha(p), sha(q));
      if p == q {
        PreimageIsUniquelyDecodable(a, b);
      }
    }
  }

  lemma EtagOfDigestInjective(d: ByteString, d': ByteString)
    requires EtagOfDigest(d) == EtagOfDigest(d')
    ensures d == d'
  {
    var open, close := AsciiBlob("\"sha256-"), AsciiBlob("\"");
    var h, h' := DigestHex(d), DigestHex(d');
    assert open + h + close == open + (h + close) && open + h' + close == open + (h' + close);
    CancelPrefix(open, h + close, open, h' + close);
    CancelPrefix(h, close, h', close);
    DigestHexInjective(d, d');
  }

  lemma EtagFieldsInjective(fp: Blob, t: Instant, fp': Blob, t': Instant)
    requires Encode(EtagFields(fp, t)) == Encode(EtagFields(fp', t'))
    ensures fp == fp' && t == t'
  {
    var fs, gs := EtagFields(fp, t), EtagFields(fp', t');
    assert Encode(fs) + [] == Encode(fs) && Encode(gs) + [] == Encode(gs);
    FieldsCancel(fs, [], gs, []);
    assert fs[1] == gs[1];
    CancelPrefix(fs[..2], InstantFields(t), gs[..2], InstantFields(t'));
    InstantFieldsInjective(t, t');
  }

  /** The kind of the author is not part of the identity: only the name is. */
  lemma AuthorKindIsNotIdentity(feed: Feed, item: FeedItem, name: Blob)
    ensures var d := item.declaration;
            var shown := item.(declaration := d.(author := DisplayName(name)));
            var login := item.(declaration := d.(author := Username(name)));
            shown != login && StreamOf(feed.(items := [shown])) == StreamOf(feed.(items := [login]))
  {
    var d := item.declaration;
    var shown := item.(declaration := d.(author := DisplayName(name)));
    var login := item.(declaration := d.(author := Username(name)));
    PreimageIsUniquelyDecodable(feed.(items := [shown]), feed.(items := [login]));
  }
}
