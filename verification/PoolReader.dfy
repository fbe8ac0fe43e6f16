/**
 What the digests of header-image pools are taken of (`common/src/theme.rs`), read back by a
 reader of its own: the entries behind a pool's revision, and the four things that decide
 which entry a page gets.
 */
module PoolReader {
  import opened Wrappers
  import opened Bytes
  import opened Readers
  import opened ThemePool

  // The assignment

  /** Everything the choice of an entry depends on besides the entries. */
  datatype Assignment = Assignment(route: Blob, published: HexDigest, revision: HexDigest, seed: RawDigest)

  function ReadAssignment(stream: ByteString): Read<Assignment> {
    var (domain, s) :- TakeBytes(27, stream);
    var (route, t) :- TakeFramed(s);
    var (published, u) :- TakeBytes(32, t);
    var (revision, v) :- TakeBytes(32, u);
    var (seed, rest) :- TakeBytes(32, v);
    if domain != Ascii("jaunder-theme-assignment-v1") then Stuck
    else Got(Assignment(route, DigestHex(published), DigestHex(revision), seed), rest)
  }

  /** The stream those four stand for. */
  function Written(a: Assignment): ByteString {
    Ascii("jaunder-theme-assignment-v1") +
    (Frame(a.route) + (HexBytes(a.published) + (HexBytes(a.revision) + (a.seed + []))))
  }

  lemma AssignmentStream(d: ByteString, r: ByteString, p: ByteString, q: ByteString, seed: ByteString)
    ensures d + r + p + q + seed == d + (r + (p + (q + (seed + []))))
  {
    assert seed + [] == seed;
    Associate(d + r + p, q, seed);
    Associate(d + r, p, q + seed);
    Associate(d, r, p + (q + seed));
  }

  lemma WrittenIsReadable(a: Assignment)
    ensures ReadAssignment(Written(a)) == Got(a, [])
  {
    var domain := Ascii("jaunder-theme-assignment-v1");
    var p, q := HexBytes(a.published), HexBytes(a.revision);
    TakesBytes(domain, Frame(a.route) + (p + (q + (a.seed + []))));
    TakesFramed(a.route, p + (q + (a.seed + [])));
    TakesBytes(p, q + (a.seed + []));
    TakesBytes(q, a.seed + []);
    TakesBytes(a.seed, []);
    HexOfBytes(a.published);
    HexOfBytes(a.revision);
  }

  /** The hashed bytes read back as route, published revision, pool revision and seed, in this order. */
  lemma AssignmentIsReadable(pool: ThemeHeaderPool, route: Text, published: HexDigest, seed: RawDigest)
    ensures ReadAssignment(AssignmentPreimage(pool, route, published, seed)) ==
            Got(Assignment(route, published, pool.revision, seed), [])
  {
    var a := Assignment(route, published, pool.revision, seed);
    AssignmentStream(Ascii("jaunder-theme-assignment-v1"), Frame(route), HexBytes(published),
                     HexBytes(pool.revision), seed);
    WrittenIsReadable(a);
  }

  /** A stream that reads back as these four is the domain and the four, one after the other. */
  lemma ReadAsWritten(s: ByteString, a: Assignment)
    requires ReadAssignment(s) == Got(a, [])
    ensures s == Written(a)
  {
    var t := TakeBytes(27, s);
    var u := TakeFramed(t.rest);
    var v := TakeBytes(32, u.rest);
    var w := TakeBytes(32, v.rest);
    var x := TakeBytes(32, w.rest);
    BytesOfHex(v.value);
    BytesOfHex(w.value);
    FramedIsTaken(t.rest, a.route, u.rest);
    TakenBytes(27, s);
    TakenBytes(32, u.rest);
    TakenBytes(32, v.rest);
    TakenBytes(32, w.rest);
  }

  /** No other bytes read back so. */
  lemma ReadingIsUnique(s: ByteString, t: ByteString, a: Assignment)
    requires ReadAssignment(s) == Got(a, []) && ReadAssignment(t) == Got(a, [])
    ensures s == t
  {
    ReadAsWritten(s, a);
    ReadAsWritten(t, a);
  }

  // The choice

  /** Two choices hash one stream exactly when route, published revision, pool revision and seed agree. */
  lemma AssignmentsDiffer(p: ThemeHeaderPool, route: Text, published: HexDigest, seed: RawDigest,
                          q: ThemeHeaderPool, route': Text, published': HexDigest, seed': RawDigest)
    ensures AssignmentPreimage(p, route, published, seed) == AssignmentPreimage(q, route', published', seed') <==>
            route == route' && published == published' && p.revision == q.revision && seed == seed'
  {
    AssignmentIsReadable(p, route, published, seed);
    AssignmentIsReadable(q, route', published', seed');
  }

  /**
   The chosen entry is the one at the digest, read as one number, modulo the size of the pool;
   and the digest is that of the one stream that reads back as route, published revision, pool
   revision and seed.
   */
  lemma SelectionIsRead(w: Width, sha: Sha, pool: ThemeHeaderPool, route: Text, published: HexDigest,
                        seed: RawDigest, stream: ByteString)
    requires 0 < |pool.entries| <= MaxPool(w)
    requires ReadAssignment(stream) == Got(Assignment(route, published, pool.revision, seed), [])
    ensures Selected(w, sha, pool, route, published, seed) ==
            pool.entries[FromBigEndian(sha(stream)) % |pool.entries|]
  {
    var a := Assignment(route, published, pool.revision, seed);
    AssignmentIsReadable(pool, route, published, seed);
    ReadingIsUnique(stream, AssignmentPreimage(pool, route, published, seed), a);
    RemainderIsModulus(w, sha(stream), |pool.entries|);
  }

  /** The packaged default is the entry so chosen from the supplied paths, with a seed of zeros. */
  lemma DefaultIsRead(w: Width, sha: Sha, paths: PathList, published: HexDigest, route: Text,
                      pool: ThemeHeaderPool, stream: ByteString)
    requires |paths| <= MaxPool(w) && NewPool(sha, Packages(paths)) == Ok(pool)
    requires ReadAssignment(stream) == Got(Assignment(route, published, pool.revision, seq(32, i => 0)), [])
    ensures |pool.entries| == |paths| > 0
    ensures var chosen := pool.entries[FromBigEndian(sha(stream)) % |pool.entries|];
            chosen.Package? && SelectPackagedHeaderDefault(w, sha, Some(paths), published, route) == Some(chosen.path)
  {
    PoolShape(sha, Packages(paths), pool);
    SameMultisetSameLength(pool.entries, Packages(paths));
    PackagesOnly(sha, paths);
    SelectionIsRead(w, sha, pool, route, published, ZeroSeed(), stream);
    FindPathFinds(paths, Selected(w, sha, pool, route, published, ZeroSeed()).path);
  }

  // The revision

  function ReadEntry(s: ByteString): Read<ThemePoolEntry> {
    var (tag, t) :- TakeBytes(1, s);
    if tag == [0] then
      var (path, rest) :- TakeText(t);
      Got(Package(path), rest)
    else if tag == [1] then
      var (source, u) :- TakeText(t);
      var (digest, v) :- TakeBytes(32, u);
      var (filename, rest) :- TakeText(v);
      Got(Media(source, DigestHex(digest), filename), rest)
    else Stuck
  }

  function TakeText(s: ByteString): Read<Text> {
    var (text, rest) :- TakeFramed(s);
    if |text| <= 0x0FFF_FFFF_FFFF_FFFF then Got(text, rest) else Stuck
  }

  /** One frame for each entry, and nothing in it besides. */
  function ReadEntries(count: nat, s: ByteString): Read<seq<ThemePoolEntry>> {
    if count == 0 then Got([], s)
    else
      var (frame, t) :- TakeFramed(s);
      var (entry, left) :- ReadEntry(frame);
      var (entries, rest) :- ReadEntries(count - 1, t);
      if left == [] then Got([entry] + entries, rest) else Stuck
  }

  function ReadPool(stream: ByteString): Read<seq<ThemePoolEntry>> {
    var (domain, s) :- TakeBytes(21, stream);
    var (count, t) :- TakeBytes(8, s);
    if domain == Ascii("jaunder-theme-pool-v1") then ReadEntries(FromBigEndian(count), t) else Stuck
  }

  lemma TakesText(text: Text, rest: ByteString)
    ensures TakeText(Frame(text) + rest) == Got(text, rest)
  {
    TakesFramed(text, rest);
  }

  lemma PackageIsReadable(path: Text)
    ensures ReadEntry([0] + (Frame(path) + [])) == Got(Package(path), [])
  {
    TakesBytes([0], Frame(path) + []);
    TakesText(path, []);
  }

  lemma MediaIsReadable(source: Text, digest: HexDigest, filename: Text)
    ensures ReadEntry([1] + (Frame(source) + (HexBytes(digest) + (Frame(filename) + [])))) ==
            Got(Media(source, digest, filename), [])
  {
    var f := Frame(filename) + [];
    TakesBytes([1], Frame(source) + (HexBytes(digest) + f));
    TakesText(source, HexBytes(digest) + f);
    TakesBytes(HexBytes(digest), f);
    TakesText(filename, []);
    HexOfBytes(digest);
  }

  lemma EntryIsReadable(e: ThemePoolEntry)
    ensures ReadEntry(CanonicalEncoding(e)) == Got(e, [])
  {
    match e
    case Package(path) =>
      assert Frame(path) + [] == Frame(path);
      PackageIsReadable(path);
    case Media(source, digest, filename) =>
      MediaStream(e, []);
      assert CanonicalEncoding(e) + [] == CanonicalEncoding(e);
      MediaIsReadable(source, digest, filename);
  }

  lemma {:induction false} FramedBlobsCons(first: Blob, blobs: seq<Blob>)
    ensures FramedBlobs([first] + blobs) == Frame(first) + FramedBlobs(blobs)
  {
    var all := [first] + blobs;
    if blobs == [] {
      assert all == [first] && all[..0] == [];
      assert [] + Frame(first) == Frame(first) + [];
    } else {
      var front, last := blobs[..|blobs| - 1], blobs[|blobs| - 1];
      assert all[..|all| - 1] == [first] + front;
      FramedBlobsCons(first, front);
      Associate(Frame(first), FramedBlobs(front), Frame(last));
    }
  }

  lemma EncodingsCons(first: ThemePoolEntry, entries: seq<ThemePoolEntry>)
    ensures Encodings([first] + entries) == [CanonicalEncoding(first)] + Encodings(entries)
  {
    var all, front, others := Encodings([first] + entries), CanonicalEncoding(first), Encodings(entries);
    assert all[0] == front;
    forall i | 0 <= i < |others|
      ensures all[i + 1] == others[i]
    {
      assert ([first] + entries)[i + 1] == entries[i];
    }
    Assembled(all, front, others);
  }

  lemma Assembled<T>(all: seq<T>, first: T, others: seq<T>)
    requires |all| == |others| + 1 && all[0] == first
    requires forall i :: 0 <= i < |others| ==> all[i + 1] == others[i]
    ensures all == [first] + others
  {
    forall i | 0 <= i < |all|
      ensures all[i] == ([first] + others)[i]
    {
      assert i > 0 ==> all[i - 1 + 1] == others[i - 1];
    }
  }

  lemma {:induction false} EntriesAreReadable(entries: seq<ThemePoolEntry>)
    ensures ReadEntries(|entries|, FramedBlobs(Encodings(entries))) == Got(entries, [])
  {
    if entries == [] {
    } else {
      var first, others := entries[0], entries[1..];
      assert entries == [first] + others;
      EncodingsCons(first, others);
      FramedBlobsCons(CanonicalEncoding(first), Encodings(others));
      TakesFramed(CanonicalEncoding(first), FramedBlobs(Encodings(others)));
      EntryIsReadable(first);
      EntriesAreReadable(others);
    }
  }

  /** The bytes behind a revision read back as the entries, in order and with all their parts. */
  lemma PoolIsReadable(entries: EntryList)
    ensures ReadPool(PoolPreimage(entries)) == Got(entries, [])
  {
    var domain, count, blobs := PoolDomain(), BigEndian(|entries|, 8), FramedBlobs(Encodings(entries));
    Associate(domain, count, blobs);
    TakesBytes(domain, count + blobs);
    TakesBytes(count, blobs);
    Pow256Values();
    BigEndianRoundTrip(|entries|, 8);
    EntriesAreReadable(entries);
  }

  /** The revision of an accepted pool spells the digest of a stream that reads back as its entries. */
  lemma RevisionIsOfEntries(sha: Sha, entries: EntryList, pool: ThemeHeaderPool)
    requires NewPool(sha, entries) == Ok(pool)
    ensures exists stream :: ReadPool(stream) == Got(pool.entries, []) && pool.revision == DigestHex(sha(stream))
  {
    PoolShape(sha, entries, pool);
    PoolIsReadable(pool.entries);
  }
}
