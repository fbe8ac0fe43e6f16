/**
 Header-image pools (`common/src/theme.rs`): the canonical encoding of pool entries, the
 canonical form of a pool, deterministic selection, and the packaged default.

 SHA-256 is a parameter `sha`; what is proved is about the bytes fed to it.
 */
module ThemePool {
  import opened Wrappers
  import opened Bytes
  import opened Sorting

  /** A path, source or file name; the bound keeps every encoding within one allocation. */
  type Text = s: ByteString | |s| <= 0x0FFF_FFFF_FFFF_FFFF

  /** A validated digest: 64 lowercase hex characters. */
  type HexDigest = s: ByteString | |s| == 64 && IsHex(s) witness seq(64, i => 48)

  type RawDigest = s: ByteString | |s| == 32 witness seq(32, i => 0)

  datatype ThemePoolEntry = Package(path: Text) | Media(source: Text, digest: HexDigest, filename: Text)

  // Hex digests

  /** The bytes a hex text spells. */
  function HexBytes(value: ByteString): (r: ByteString)
    requires IsHex(value) && |value| % 2 == 0
    ensures |r| == |value| / 2
    ensures forall i :: 0 <= i < |r| ==> r[i] == HexNibble(value[2 * i]) * 16 + HexNibble(value[2 * i + 1])
  {
    seq(|value| / 2, i requires 0 <= i < |value| / 2 => HexNibble(value[2 * i]) * 16 + HexNibble(value[2 * i + 1]))
  }

  lemma HexByte(high: Byte, low: Byte)
    requires IsHexDigit(high) && IsHexDigit(low)
    ensures var b := HexNibble(high) * 16 + HexNibble(low);
            HexDigit(b / 16) == high && HexDigit(b % 16) == low
  {
  }

  /** Spelling the bytes of a hex text gives the text back. */
  lemma HexOfBytes(value: ByteString)
    requires IsHex(value) && |value| % 2 == 0
    ensures DigestHex(HexBytes(value)) == value
  {
    var bytes := HexBytes(value);
    var r := DigestHex(bytes);
    forall i | 0 <= i < |bytes|
      ensures r[2 * i] == value[2 * i] && r[2 * i + 1] == value[2 * i + 1]
    {
      HexByte(value[2 * i], value[2 * i + 1]);
    }
    forall k | 0 <= k < |value|
      ensures r[k] == value[k]
    {
      var i := k / 2;
      assert k == 2 * i || k == 2 * i + 1;
    }
  }

  /** Reading back the spelled bytes gives the bytes. */
  lemma BytesOfHex(bytes: ByteString)
    ensures HexBytes(DigestHex(bytes)) == bytes
  {
    var h := DigestHex(bytes);
    forall i | 0 <= i < |bytes|
      ensures HexBytes(h)[i] == bytes[i]
    {
      assert h[2 * i] == HexDigit(bytes[i] / 16) && h[2 * i + 1] == HexDigit(bytes[i] % 16);
      HexDigitInjective(HexNibble(h[2 * i]), bytes[i] / 16);
      HexDigitInjective(HexNibble(h[2 * i + 1]), bytes[i] % 16);
    }
  }

  method HexDigestBytes(value: HexDigest) returns (bytes: array<Byte>)
    ensures fresh(bytes) && bytes[..] == HexBytes(value)
  {
    bytes := new Byte[32](_ => 0);
    for i := 0 to 32
      invariant forall k :: 0 <= k < i ==> bytes[k] == HexBytes(value)[k]
    {
      var high := HexNibble(value[2 * i]);
      var low := HexNibble(value[2 * i + 1]);
      bytes[i] := high * 16 + low;
    }
  }

  method DigestHexText(bytes: ByteString) returns (value: ByteString)
    ensures value == DigestHex(bytes)
  {
    value := [];
    for i := 0 to |bytes|
      invariant value == DigestHex(bytes[..i])
    {
      assert bytes[..i + 1][..i] == bytes[..i];
      value := value + [HexDigit(bytes[i] / 16), HexDigit(bytes[i] % 16)];
    }
    assert bytes[..|bytes|] == bytes;
  }

  // The canonical encoding

  function CanonicalEncoding(e: ThemePoolEntry): (r: Blob) {
    match e
    case Package(path) => [0] + Frame(path)
    case Media(source, digest, filename) => [1] + (Frame(source) + (HexBytes(digest) + Frame(filename)))
  }

  /** The encoding is injective and prefix-free at once. */
  lemma EncodingCancels(e: ThemePoolEntry, x: ByteString, f: ThemePoolEntry, y: ByteString)
    requires CanonicalEncoding(e) + x == CanonicalEncoding(f) + y
    ensures e == f && x == y
  {
    assert CanonicalEncoding(e)[0] == (CanonicalEncoding(e) + x)[0];
    assert CanonicalEncoding(f)[0] == (CanonicalEncoding(f) + y)[0];
    match e
    case Package(path) => PackageCancels(path, x, f.path, y);
    case Media(_, _, _) => MediaCancels(e, x, f, y);
  }

  lemma PackageCancels(p: Text, x: ByteString, q: Text, y: ByteString)
    requires CanonicalEncoding(Package(p)) + x == CanonicalEncoding(Package(q)) + y
    ensures p == q && x == y
  {
    Associate([0], Frame(p), x);
    Associate([0], Frame(q), y);
    CancelPrefix([0], Frame(p) + x, [0], Frame(q) + y);
    FrameCancels(p, x, q, y);
  }

  lemma MediaStream(e: ThemePoolEntry, x: ByteString)
    requires e.Media?
    ensures CanonicalEncoding(e) + x == [1] + (Frame(e.source) + (HexBytes(e.digest) + (Frame(e.filename) + x)))
  {
    Associate([1], Frame(e.source) + (HexBytes(e.digest) + Frame(e.filename)), x);
    Associate(Frame(e.source), HexBytes(e.digest) + Frame(e.filename), x);
    Associate(HexBytes(e.digest), Frame(e.filename), x);
  }

  lemma MediaCancels(e: ThemePoolEntry, x: ByteString, f: ThemePoolEntry, y: ByteString)
    requires e.Media? && f.Media? && CanonicalEncoding(e) + x == CanonicalEncoding(f) + y
    ensures e == f && x == y
  {
    MediaStream(e, x);
    MediaStream(f, y);
    var d, d' := HexBytes(e.digest), HexBytes(f.digest);
    var s, s' := d + (Frame(e.filename) + x), d' + (Frame(f.filename) + y);
    CancelPrefix([1], Frame(e.source) + s, [1], Frame(f.source) + s');
    FrameCancels(e.source, s, f.source, s');
    CancelPrefix(d, Frame(e.filename) + x, d', Frame(f.filename) + y);
    FrameCancels(e.filename, x, f.filename, y);
    HexOfBytes(e.digest);
    HexOfBytes(f.digest);
  }

  lemma EncodingInjective(e: ThemePoolEntry, f: ThemePoolEntry)
    requires CanonicalEncoding(e) == CanonicalEncoding(f)
    ensures e == f
  {
    EncodingCancels(e, [], f, []);
  }

  // The byte-wise order of encodings

  predicate LexLess(a: ByteString, b: ByteString) {
    b != [] && (a == [] || a[0] < b[0] || (a[0] == b[0] && LexLess(a[1..], b[1..])))
  }

  lemma {:induction false} LexTotal(a: ByteString, b: ByteString)
    ensures LexLess(a, b) || LexLess(b, a) || a == b
    ensures !(LexLess(a, b) && LexLess(b, a))
    ensures !LexLess(a, a)
  {
    if a != [] {
      LexTotal(a[1..], a[1..]);
      if b != [] {
        LexTotal(a[1..], b[1..]);
        assert a == [a[0]] + a[1..] && b == [b[0]] + b[1..];
      }
    }
  }

  lemma {:induction false} LexBetween(a: ByteString, b: ByteString, c: ByteString)
    requires LexLess(a, c)
    ensures LexLess(a, b) || LexLess(b, c)
  {
    if a != [] && b != [] && a[0] == b[0] == c[0] {
      LexBetween(a[1..], b[1..], c[1..]);
    }
  }

  /** The lists agree up to `k`, where the left one ends or holds the smaller byte. */
  predicate SplitsAt(a: ByteString, b: ByteString, k: nat) {
    k <= |a| && k < |b| && a[..k] == b[..k] && (k == |a| || a[k] < b[k])
  }

  lemma SplitStep(a: ByteString, b: ByteString, k: nat)
    requires a != [] && b != []
    ensures SplitsAt(a, b, k + 1) <==> a[0] == b[0] && SplitsAt(a[1..], b[1..], k)
  {
    if k + 1 <= |a| && k + 1 <= |b| {
      assert a[..k + 1] == [a[0]] + a[1..][..k] && b[..k + 1] == [b[0]] + b[1..][..k];
    }
  }

  /** The order is that of the first byte in which two lists differ, prefixes first. */
  lemma {:induction false} LexExactly(a: ByteString, b: ByteString)
    ensures LexLess(a, b) <==> exists k: nat :: SplitsAt(a, b, k)
  {
    assert SplitsAt(a, b, 0) <==> b != [] && (a == [] || a[0] < b[0]);
    if a != [] && b != [] {
      LexExactly(a[1..], b[1..]);
      forall k: nat
        ensures SplitsAt(a, b, k + 1) <==> a[0] == b[0] && SplitsAt(a[1..], b[1..], k)
      {
        SplitStep(a, b, k);
      }
      assert forall k: nat :: SplitsAt(a, b, k) && k > 0 ==> SplitsAt(a[1..], b[1..], k - 1);
    }
  }

  /** Strictly before, in the order of canonical encodings. */
  predicate Before(e: ThemePoolEntry, f: ThemePoolEntry) {
    LexLess(CanonicalEncoding(e), CanonicalEncoding(f))
  }

  /** Encodings rank entries, and no two entries share a rank. */
  lemma BeforeIsTotalOrder()
    ensures RanksBy(Before) && Total(Before)
  {
    forall e, f
      ensures Before(e, f) ==> !Before(f, e)
      ensures Before(e, f) || Before(f, e) || e == f
    {
      LexTotal(CanonicalEncoding(e), CanonicalEncoding(f));
      if CanonicalEncoding(e) == CanonicalEncoding(f) {
        EncodingInjective(e, f);
      }
    }
    forall e, f, g | Before(e, g)
      ensures Before(e, f) || Before(f, g)
    {
      LexBetween(CanonicalEncoding(e), CanonicalEncoding(f), CanonicalEncoding(g));
    }
  }

  /** `sort_by_key(canonical_encoding)` */
  function SortByEncoding(s: seq<ThemePoolEntry>): seq<ThemePoolEntry> {
    Sort(Before, s)
  }

  // The pool and its revision

  /** Entries in canonical order, and the hex digest of their encoding. */
  datatype ThemeHeaderPool = ThemeHeaderPool(entries: seq<ThemePoolEntry>, revision: HexDigest)

  datatype InvalidThemeHeaderPool = Empty | Duplicate

  type Sha = ByteString -> RawDigest

  type EntryList = s: seq<ThemePoolEntry> | |s| <= ISIZE_MAX

  function PoolDomain(): ByteString {
    Ascii("jaunder-theme-pool-v1")
  }

  function FramedBlobs(blobs: seq<Blob>): ByteString {
    if blobs == [] then [] else FramedBlobs(blobs[..|blobs| - 1]) + Frame(blobs[|blobs| - 1])
  }

  function Encodings(entries: seq<ThemePoolEntry>): (r: seq<Blob>)
    ensures |r| == |entries| && forall i :: 0 <= i < |entries| ==> r[i] == CanonicalEncoding(entries[i])
  {
    seq(|entries|, i requires 0 <= i < |entries| => CanonicalEncoding(entries[i]))
  }

  /** The bytes whose digest is the pool's revision. */
  function PoolPreimage(entries: EntryList): ByteString {
    PoolDomain() + BigEndian(|entries|, 8) + FramedBlobs(Encodings(entries))
  }

  function SortedEntries(entries: EntryList): EntryList {
    BeforeIsTotalOrder();
    SortSorts(Before, entries);
    SortByEncoding(entries)
  }

  function PoolOf(sha: Sha, entries: EntryList): ThemeHeaderPool {
    ThemeHeaderPool(entries, DigestHex(sha(PoolPreimage(entries))))
  }

  function NewPool(sha: Sha, entries: EntryList): Result<ThemeHeaderPool, InvalidThemeHeaderPool> {
    if entries == [] then Err(Empty)
    else if AdjacentEqual(SortedEntries(entries)) then Err(Duplicate)
    else Ok(PoolOf(sha, SortedEntries(entries)))
  }

  method HasEqualNeighbours(entries: seq<ThemePoolEntry>) returns (found: bool)
    ensures found <==> AdjacentEqual(entries)
  {
    found := false;
    var i := 0;
    while i + 1 < |entries| && !found
      invariant 0 <= i && (i < |entries| || i == 0)
      invariant found <==> exists k :: 0 <= k < i && entries[k] == entries[k + 1]
    {
      if CanonicalEncoding(entries[i]) == CanonicalEncoding(entries[i + 1]) {
        EncodingInjective(entries[i], entries[i + 1]);
        found := true;
      }
      i := i + 1;
    }
  }

  lemma FramedBlobsStep(start: ByteString, blobs: seq<Blob>, i: nat)
    requires i < |blobs|
    ensures start + FramedBlobs(blobs[..i + 1]) == start + FramedBlobs(blobs[..i]) + Frame(blobs[i])
  {
    assert blobs[..i + 1][..i] == blobs[..i];
    Associate(start, FramedBlobs(blobs[..i]), Frame(blobs[i]));
  }

  method HashEntries(entries: EntryList) returns (hashed: ByteString)
    ensures hashed == PoolPreimage(entries)
  {
    ghost var blobs := Encodings(entries);
    ghost var start := PoolDomain() + BigEndian(|entries|, 8);
    hashed := PoolDomain() + BigEndian(|entries|, 8);
    var i := 0;
    while i < |entries|
      invariant 0 <= i <= |entries|
      invariant hashed == start + FramedBlobs(blobs[..i])
    {
      var encoded := CanonicalEncoding(entries[i]);
      FramedBlobsStep(start, blobs, i);
      hashed := hashed + Frame(encoded);
      i := i + 1;
    }
    assert blobs[..i] == blobs;
  }

  method CreatePool(sha: Sha, entries: EntryList) returns (r: Result<ThemeHeaderPool, InvalidThemeHeaderPool>)
    ensures r == NewPool(sha, entries)
  {
    if entries == [] {
      return Err(Empty);
    }
    var sorted := SortedEntries(entries);
    var duplicate := HasEqualNeighbours(sorted);
    if duplicate {
      return Err(Duplicate);
    }
    var hashed := HashEntries(sorted);
    var revision := DigestHexText(sha(hashed));
    r := Ok(ThemeHeaderPool(sorted, revision));
  }

  lemma SortedEntriesLaw(entries: EntryList)
    ensures var sorted := SortedEntries(entries);
            && multiset(sorted) == multiset(entries)
            && (AdjacentEqual(sorted) <==> HasDuplicate(entries))
            && (!HasDuplicate(entries) ==>
                  forall i, j :: 0 <= i < j < |sorted| ==> Before(sorted[i], sorted[j]))
  {
    BeforeIsTotalOrder();
    SortSorts(Before, entries);
    var sorted := SortedEntries(entries);
    SortedDuplicatesAreAdjacent(Before, sorted);
    DuplicatesOfMultiset(sorted, entries);
    if !HasDuplicate(entries) {
      forall i, j | 0 <= i < j < |sorted|
        ensures Before(sorted[i], sorted[j])
      {
        SortedRange(Before, sorted, i, j);
        assert sorted[i] != sorted[j];
      }
    }
  }

  /** A pool is rejected as a duplicate exactly when its entries hold two equal ones. */
  lemma PoolVerdict(sha: Sha, entries: EntryList)
    ensures match NewPool(sha, entries)
            case Err(Empty) => entries == []
            case Err(Duplicate) => HasDuplicate(entries)
            case Ok(pool) =>
              && !HasDuplicate(entries) && pool.entries != []
              && multiset(pool.entries) == multiset(entries)
              && forall i, j :: 0 <= i < j < |pool.entries| ==> Before(pool.entries[i], pool.entries[j])
  {
    SortedEntriesLaw(entries);
    assert |multiset(SortedEntries(entries))| == |multiset(entries)|;
  }

  /** The order entries are supplied in makes no difference: same pool, same revision, same refusal. */
  lemma PoolIgnoresOrder(sha: Sha, a: EntryList, b: EntryList)
    requires multiset(a) == multiset(b)
    ensures NewPool(sha, a) == NewPool(sha, b)
  {
    BeforeIsTotalOrder();
    SortIgnoresOrder(Before, a, b);
    assert |multiset(a)| == |multiset(b)|;
  }

  lemma {:induction false} FramedBlobsInjective(a: seq<Blob>, x: ByteString, b: seq<Blob>, y: ByteString)
    requires |a| == |b| && FramedBlobs(a) + x == FramedBlobs(b) + y
    ensures a == b && x == y
  {
    if a == [] {
      assert [] + x == x && [] + y == y;
    } else {
      var n := |a| - 1;
      Associate(FramedBlobs(a[..n]), Frame(a[n]), x);
      Associate(FramedBlobs(b[..n]), Frame(b[n]), y);
      FramedBlobsInjective(a[..n], Frame(a[n]) + x, b[..n], Frame(b[n]) + y);
      FrameCancels(a[n], x, b[n], y);
      assert a == a[..n] + [a[n]] && b == b[..n] + [b[n]];
    }
  }

  /** Different entry lists have different revision pre-images. */
  lemma PoolPreimageInjective(a: EntryList, b: EntryList)
    requires PoolPreimage(a) == PoolPreimage(b)
    ensures a == b
  {
    var m, n := BigEndian(|a|, 8), BigEndian(|b|, 8);
    var x, y := FramedBlobs(Encodings(a)), FramedBlobs(Encodings(b));
    Associate(PoolDomain(), m, x);
    Associate(PoolDomain(), n, y);
    CancelPrefix(PoolDomain(), m + x, PoolDomain(), n + y);
    CancelPrefix(m, x, n, y);
    Pow256Values();
    BigEndianInjective(|a|, |b|, 8);
    FramedBlobsInjective(Encodings(a), [], Encodings(b), []);
    forall i | 0 <= i < |a|
      ensures a[i] == b[i]
    {
      assert Encodings(a)[i] == Encodings(b)[i];
      EncodingInjective(a[i], b[i]);
    }
  }

  /** The digest function collides on these two inputs. */
  ghost predicate Collides(sha: Sha, x: ByteString, y: ByteString) {
    x != y && sha(x) == sha(y)
  }

  lemma PoolShape(sha: Sha, entries: EntryList, pool: ThemeHeaderPool)
    requires NewPool(sha, entries) == Ok(pool)
    ensures |pool.entries| <= ISIZE_MAX && pool == PoolOf(sha, pool.entries)
    ensures multiset(pool.entries) == multiset(entries)
  {
    SortedEntriesLaw(entries);
  }

  /** Pools with one revision have the same entries, unless the digest function collides on their pre-images. */
  lemma RevisionIdentifiesPool(sha: Sha, a: EntryList, p: ThemeHeaderPool, b: EntryList, q: ThemeHeaderPool)
    requires NewPool(sha, a) == Ok(p) && NewPool(sha, b) == Ok(q) && p.revision == q.revision
    ensures |p.entries| <= ISIZE_MAX && |q.entries| <= ISIZE_MAX
    ensures multiset(a) == multiset(b) || Collides(sha, PoolPreimage(p.entries), PoolPreimage(q.entries))
  {
    PoolShape(sha, a, p);
    PoolShape(sha, b, q);
    var x, y := PoolPreimage(p.entries), PoolPreimage(q.entries);
    DigestHexInjective(sha(x), sha(y));
    if x == y {
      PoolPreimageInjective(p.entries, q.entries);
    }
  }

  // Selection

  /** The width of `usize`: 64 bits on the server, 32 bits in the browser. */
  datatype Width = Bits32 | Bits64

  function Modulus(w: Width): nat {
    match w
    case Bits32 => 0x1_0000_0000
    case Bits64 => 0x1_0000_0000_0000_0000
  }

  /** The largest pool on which no step overflows. */
  function MaxPool(w: Width): nat {
    match w
    case Bits32 => 0x100_0000
    case Bits64 => 0x100_0000_0000_0000
  }

  function AssignmentPreimage(pool: ThemeHeaderPool, route: Text, published: HexDigest, seed: RawDigest): ByteString {
    Ascii("jaunder-theme-assignment-v1") + Frame(route) + HexBytes(published) + HexBytes(pool.revision) + seed
  }

  /** The byte loop in wrapping arithmetic. */
  function Remainder(w: Width, digest: ByteString, n: nat): (r: nat)
    requires n > 0
    ensures r < n
  {
    if digest == [] then 0
    else (Remainder(w, digest[..|digest| - 1], n) * 256 + digest[|digest| - 1]) % Modulus(w) % n
  }

  predicate StepFits(w: Width, r: nat, b: Byte) {
    r * 256 + b < Modulus(w)
  }

  /** No step of the loop can overflow exactly when the pool holds at most 2^56 entries, or 2^24 on 32 bits. */
  lemma NoOverflow(w: Width, n: nat)
    requires n > 0
    ensures (forall r: nat, b: Byte :: r < n ==> StepFits(w, r, b)) <==> n <= MaxPool(w)
  {
    if n > MaxPool(w) {
      var r: nat, b: Byte := MaxPool(w), 0;
      assert !StepFits(w, r, b);
    }
  }

  lemma ModUnique(x: nat, n: nat, k: nat, r: nat)
    requires r < n && x == n * k + r
    ensures x % n == r
  {
    var d := k - x / n;
    assert n * d == x % n - r;
    assert d >= 1 ==> n * d >= n;
    assert d <= -1 ==> n * d + n <= 0;
  }

  lemma ModOfSum(n: nat, k: nat, x: nat)
    requires n > 0
    ensures (n * k + x) % n == x % n
  {
    var d := x / n;
    assert x == n * d + x % n;
    assert n * (k + d) == n * k + n * d;
    ModUnique(n * k + x, n, k + d, x % n);
  }

  lemma ModStep(h: nat, b: nat, n: nat)
    requires n > 0
    ensures (h % n * 256 + b) % n == (h * 256 + b) % n
  {
    var q, x := h / n, h % n * 256 + b;
    assert h * 256 + b == n * (256 * q) + x;
    ModOfSum(n, 256 * q, x);
  }

  lemma NoWrap(w: Width, r: nat, b: Byte, n: nat)
    requires r < n <= MaxPool(w)
    ensures (r * 256 + b) % Modulus(w) == r * 256 + b
  {
    var x := r * 256 + b;
    assert x < Modulus(w);
    ModUnique(x, Modulus(w), 0, x);
  }

  /** The loop computes the digest, read as one big-endian number, modulo the pool size. */
  lemma {:induction false} RemainderIsModulus(w: Width, digest: ByteString, n: nat)
    requires 0 < n <= MaxPool(w)
    ensures Remainder(w, digest, n) == FromBigEndian(digest) % n
  {
    if digest != [] {
      var front, b := digest[..|digest| - 1], digest[|digest| - 1];
      RemainderIsModulus(w, front, n);
      NoWrap(w, Remainder(w, front, n), b, n);
      ModStep(FromBigEndian(front), b, n);
    }
  }

  function Selected(w: Width, sha: Sha, pool: ThemeHeaderPool, route: Text, published: HexDigest, seed: RawDigest)
    : ThemePoolEntry
    requires pool.entries != []
  {
    pool.entries[Remainder(w, sha(AssignmentPreimage(pool, route, published, seed)), |pool.entries|)]
  }

  method Select(w: Width, sha: Sha, pool: ThemeHeaderPool, route: Text, published: HexDigest, seed: RawDigest)
    returns (entry: ThemePoolEntry)
    requires pool.entries != []
    ensures entry == Selected(w, sha, pool, route, published, seed)
  {
    var digest := sha(AssignmentPreimage(pool, route, published, seed));
    var remainder := 0;
    for i := 0 to |digest|
      invariant remainder == Remainder(w, digest[..i], |pool.entries|)
    {
      assert digest[..i + 1][..i] == digest[..i];
      remainder := (remainder * 256 + digest[i]) % Modulus(w) % |pool.entries|;
    }
    assert digest[..|digest|] == digest;
    entry := pool.entries[remainder];
  }

  // The packaged default

  function Packages(paths: seq<Text>): (r: seq<ThemePoolEntry>)
    ensures |r| == |paths| && forall i :: 0 <= i < |paths| ==> r[i] == Package(paths[i])
  {
    seq(|paths|, i requires 0 <= i < |paths| => Package(paths[i]))
  }

  type PathList = s: seq<Text> | |s| <= ISIZE_MAX

  function ZeroSeed(): RawDigest {
    seq(32, i => 0)
  }

  /** The first supplied path equal to the selected one. */
  function FindPath(paths: seq<Text>, path: Text): Option<Text> {
    if paths == [] then None else if paths[0] == path then Some(paths[0]) else FindPath(paths[1..], path)
  }

  function SelectPackagedHeaderDefault(w: Width, sha: Sha, defaults: Option<PathList>, published: HexDigest,
                                       route: Text): Option<Text>
  {
    match defaults
    case None => None
    case Some(paths) =>
      match NewPool(sha, Packages(paths))
      case Err(_) => None
      case Ok(pool) =>
        PackagesOnly(sha, paths);
        var Package(selected) := Selected(w, sha, pool, route, published, ZeroSeed());
        FindPath(paths, selected)
  }

  lemma PackagesOnly(sha: Sha, paths: PathList)
    ensures match NewPool(sha, Packages(paths))
            case Err(_) => true
            case Ok(pool) => pool.entries != [] && forall i :: 0 <= i < |pool.entries| ==>
                             pool.entries[i].Package? && pool.entries[i].path in paths
  {
    PoolVerdict(sha, Packages(paths));
    match NewPool(sha, Packages(paths))
    case Err(_) =>
    case Ok(pool) =>
      forall i | 0 <= i < |pool.entries|
        ensures pool.entries[i].Package? && pool.entries[i].path in paths
      {
        assert pool.entries[i] in multiset(pool.entries);
        assert pool.entries[i] in Packages(paths);
      }
  }

  lemma {:induction false} FindPathFinds(paths: seq<Text>, path: Text)
    ensures FindPath(paths, path) == if path in paths then Some(path) else None
  {
    if paths != [] {
      FindPathFinds(paths[1..], path);
      assert paths == [paths[0]] + paths[1..];
    }
  }

  lemma PackagesKeepDuplicates(paths: seq<Text>)
    ensures HasDuplicate(Packages(paths)) <==> HasDuplicate(paths)
  {
    var r := Packages(paths);
    if HasDuplicate(paths) {
      var i, j :| 0 <= i < j < |paths| && paths[i] == paths[j];
      assert r[i] == r[j];
    }
    if HasDuplicate(r) {
      var i, j :| 0 <= i < j < |r| && r[i] == r[j];
      assert paths[i] == paths[j];
    }
  }

  /**
   The packaged default is one of the supplied paths, and is absent exactly when the list
   is missing, empty, or names a path twice.
   */
  lemma PackagedDefault(w: Width, sha: Sha, defaults: Option<PathList>, published: HexDigest, route: Text)
    ensures match SelectPackagedHeaderDefault(w, sha, defaults, published, route)
            case Some(path) => defaults.Some? && path in defaults.value && !HasDuplicate(defaults.value)
            case None => defaults.None? || defaults.value == [] || HasDuplicate(defaults.value)
  {
    match defaults
    case None =>
    case Some(paths) =>
      PoolVerdict(sha, Packages(paths));
      PackagesOnly(sha, paths);
      PackagesKeepDuplicates(paths);
      match NewPool(sha, Packages(paths)) {
        case Err(_) =>
        case Ok(pool) =>
          FindPathFinds(paths, Selected(w, sha, pool, route, published, ZeroSeed()).path);
      }
  }

  /** How often a path is supplied is how often its package is. */
  lemma {:induction false} PackageCount(paths: seq<Text>, e: ThemePoolEntry)
    ensures multiset(Packages(paths))[e] == if e.Package? then multiset(paths)[e.path] else 0
  {
    if paths != [] {
      var first, rest := paths[0], paths[1..];
      PackageCount(rest, e);
      PackagesCons(first, rest);
      assert [first] + rest == paths;
      CountCons(Package(first), Packages(rest), e);
      if e.Package? {
        CountCons(first, rest, e.path);
      }
    }
  }

  lemma PackagesCons(first: Text, rest: seq<Text>)
    ensures Packages([first] + rest) == [Package(first)] + Packages(rest)
  {
  }

  lemma CountCons<T>(first: T, rest: seq<T>, e: T)
    ensures multiset([first] + rest)[e] == multiset(rest)[e] + if e == first then 1 else 0
  {
    assert multiset([first] + rest) == multiset{first} + multiset(rest);
  }

  lemma PackagesOfMultiset(a: seq<Text>, b: seq<Text>)
    requires multiset(a) == multiset(b)
    ensures multiset(Packages(a)) == multiset(Packages(b))
  {
    forall e
      ensures multiset(Packages(a))[e] == multiset(Packages(b))[e]
    {
      PackageCount(a, e);
      PackageCount(b, e);
    }
  }

  /** Reordering the supplied paths does not change the packaged default. */
  lemma PackagedDefaultIgnoresOrder(w: Width, sha: Sha, a: PathList, b: PathList, published: HexDigest,
                                    route: Text)
    requires multiset(a) == multiset(b)
    ensures SelectPackagedHeaderDefault(w, sha, Some(a), published, route) ==
            SelectPackagedHeaderDefault(w, sha, Some(b), published, route)
  {
    PackagesOfMultiset(a, b);
    PoolIgnoresOrder(sha, Packages(a), Packages(b));
    PackagesOnly(sha, a);
    match NewPool(sha, Packages(a))
    case Err(_) =>
    case Ok(pool) => SamePathFound(a, b, Selected(w, sha, pool, route, published, ZeroSeed()).path);
  }

  lemma SamePathFound(a: seq<Text>, b: seq<Text>, path: Text)
    requires multiset(a) == multiset(b)
    ensures FindPath(a, path) == FindPath(b, path)
  {
    FindPathFinds(a, path);
    FindPathFinds(b, path);
    assert path in a <==> path in multiset(a);
    assert path in b <==> path in multiset(b);
  }

  lemma SelectedOnBothWidths(sha: Sha, pool: ThemeHeaderPool, route: Text, published: HexDigest, seed: RawDigest)
    requires 0 < |pool.entries| <= MaxPool(Bits32)
    ensures Selected(Bits32, sha, pool, route, published, seed) == Selected(Bits64, sha, pool, route, published, seed)
  {
    var digest := sha(AssignmentPreimage(pool, route, published, seed));
    RemainderIsModulus(Bits32, digest, |pool.entries|);
    RemainderIsModulus(Bits64, digest, |pool.entries|);
  }

  /** Server and browser choose the same default among up to 2^24 paths. */
  lemma WidthsAgree(sha: Sha, defaults: Option<PathList>, published: HexDigest, route: Text)
    requires defaults.Some? ==> |defaults.value| <= MaxPool(Bits32)
    ensures SelectPackagedHeaderDefault(Bits32, sha, defaults, published, route) ==
            SelectPackagedHeaderDefault(Bits64, sha, defaults, published, route)
  {
    match defaults
    case None =>
    case Some(paths) =>
      PackagesOnly(sha, paths);
      match NewPool(sha, Packages(paths)) {
        case Err(_) =>
        case Ok(pool) =>
          PoolShape(sha, Packages(paths), pool);
          SameMultisetSameLength(pool.entries, Packages(paths));
          SelectedOnBothWidths(sha, pool, route, published, ZeroSeed());
      }
  }

  lemma SameMultisetSameLength<T>(a: seq<T>, b: seq<T>)
    requires multiset(a) == multiset(b)
    ensures |a| == |b|
  {
    assert |multiset(a)| == |a|;
  }
}
