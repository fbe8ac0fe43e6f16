/**
 Public route spellings: canonical permalink paths and their parsing
 (`common/src/permalink_route.rs`), and the route identities used for header selection
 (`PublicThemeRoute` in `common/src/theme.rs`).
 */
module Routes {
  import opened Wrappers
  import opened Text
  import opened Decimal
  import opened Civil
  import opened Graphemes
  import opened Slug
  import SlugLaws
  import SlugSamples
  import opened Tags

  // Paths and their segments

  predicate SlashFree(s: string) {
    '/' !in s
  }

  predicate AllSlashFree(parts: seq<string>) {
    forall i :: 0 <= i < |parts| ==> SlashFree(parts[i])
  }

  function JoinSlash(parts: seq<string>): string {
    if parts == [] then [] else if |parts| == 1 then parts[0] else parts[0] + "/" + JoinSlash(parts[1..])
  }

  /** `path.split('/')` */
  function SplitSlash(path: string): (parts: seq<string>)
    ensures parts != []
    decreases |path|
  {
    var i := IndexOf(path, '/');
    if i == |path| then [path] else [path[..i]] + SplitSlash(path[i + 1..])
  }

  lemma {:induction false} SlashIndex(a: string, rest: string)
    requires SlashFree(a)
    ensures IndexOf(a + "/" + rest, '/') == |a|
  {
    if a != [] {
      SlashIndex(a[1..], rest);
      assert (a + "/" + rest)[1..] == a[1..] + "/" + rest;
    }
  }

  /** Splitting goes on behind a segment. */
  lemma SplitAfter(a: string, rest: string)
    requires SlashFree(a)
    ensures SplitSlash(a + "/" + rest) == [a] + SplitSlash(rest)
  {
    SlashIndex(a, rest);
    assert (a + "/" + rest)[..|a|] == a && (a + "/" + rest)[|a| + 1..] == rest;
  }

  /** Splitting a path gives back the segments it was joined from. */
  lemma {:induction false} SplitOfJoin(parts: seq<string>)
    requires parts != [] && AllSlashFree(parts)
    ensures SplitSlash(JoinSlash(parts)) == parts
  {
    if |parts| == 1 {
      assert IndexOf(parts[0], '/') == |parts[0]|;
    } else {
      SplitOfJoin(parts[1..]);
      SplitAfter(parts[0], JoinSlash(parts[1..]));
    }
  }

  /** Joining the segments of a path gives back the path. */
  lemma {:induction false} JoinOfSplit(path: string)
    ensures JoinSlash(SplitSlash(path)) == path
    decreases |path|
  {
    var i := IndexOf(path, '/');
    if i < |path| {
      JoinOfSplit(path[i + 1..]);
      var rest := SplitSlash(path[i + 1..]);
      assert ([path[..i]] + rest)[1..] == rest;
      assert path == path[..i] + "/" + path[i + 1..];
    }
  }

  lemma SplitWhole(a: string)
    ensures SlashFree(a) <==> |SplitSlash(a)| == 1
    ensures SlashFree(a) ==> SplitSlash(a) == [a]
  {
  }

  lemma Regroup(a: string, b: string, rest: string)
    ensures a + "/" + (b + "/" + rest) == (a + "/" + b) + "/" + rest
    ensures "" + "/" + a == "/" + a
  {
  }

  // Usernames, tags, slugs

  predicate IsUsernameChar(c: char) {
    IsLowerAlnum(c) || 'A' <= c <= 'Z' || c == '_' || c == '-'
  }

  /** `Username::from_str` */
  function ParseUsername(s: string): Option<string> {
    if s == [] || exists i :: 0 <= i < |s| && !IsUsernameChar(s[i]) then None else Some(ToAsciiLowercase(s))
  }

  predicate ValidUsername(s: string) {
    ParseUsername(s) == Some(s)
  }

  lemma UsernameHasNoSlash(s: string)
    requires ValidUsername(s)
    ensures SlashFree(s)
  {
  }

  lemma TagHasNoSlash(s: string)
    requires ValidTag(s)
    ensures SlashFree(s)
  {
  }

  // Slugs with a slash

  predicate SlashInside(g: string) {
    g != [] && '/' in g[1..]
  }

  /** Hyphens and clusters of letters and digits. */
  predicate SlugPieces(u: Unicode, gs: seq<string>) {
    forall i :: 0 <= i < |gs| ==> gs[i] == "-" || Base(u, gs[i])
  }

  lemma AcceptedPieces(u: Unicode, s: string)
    requires ParseSlug(u, s) == Some(s)
    ensures SlugPieces(u, Clusters(u, s)) && Normal(u, s) && |s| <= MAX_SLUG_CHARS
  {
  }

  predicate SlashInSome(gs: seq<string>) {
    exists i :: 0 <= i < |gs| && SlashInside(gs[i])
  }

  lemma SlashInPiece(u: Unicode, g: string)
    requires !u.alphanumeric('/') && (g == "-" || Base(u, g))
    ensures '/' in g <==> SlashInside(g)
  {
  }

  lemma SlashInSomeStep(gs: seq<string>)
    requires gs != []
    ensures SlashInSome(gs) <==> SlashInside(gs[0]) || SlashInSome(gs[1..])
  {
    if i :| 0 <= i < |gs[1..]| && SlashInside(gs[1..][i]) {
      assert SlashInside(gs[i + 1]);
    }
    if i :| 1 <= i < |gs| && SlashInside(gs[i]) {
      assert SlashInside(gs[1..][i - 1]);
    }
  }

  lemma {:induction false} SlashInClusters(u: Unicode, gs: seq<string>)
    requires !u.alphanumeric('/') && SlugPieces(u, gs)
    ensures '/' in Concat(gs) <==> SlashInSome(gs)
  {
    if gs != [] {
      SlashInClusters(u, gs[1..]);
      SlashInPiece(u, gs[0]);
      SlashInSomeStep(gs);
    }
  }

  /** An accepted slug holds a slash exactly when the cluster of one of its letters or digits takes one in. */
  lemma SlashInSlug(u: Unicode, s: string)
    requires !u.alphanumeric('/') && ParseSlug(u, s) == Some(s)
    ensures '/' in s <==> SlashInSome(Clusters(u, s))
  {
    AcceptedPieces(u, s);
    SlashInClusters(u, Clusters(u, s));
  }

  /** A normal cluster of a letter or digit that takes in a slash. */
  predicate TakesInSlash(u: Unicode, g: string) {
    IsCluster(u, g) && Base(u, g) && u.takesIn(g, '/') && Normal(u, g + "/") && |g| < MAX_SLUG_CHARS
  }

  /** Some accepted slug holds a slash exactly when some cluster of a letter or digit takes one in. */
  lemma SlashedSlugs(u: Unicode)
    requires Slug.WellFormed(u) && !u.alphanumeric('/')
    ensures (exists s :: ParseSlug(u, s) == Some(s) && '/' in s) <==> (exists g :: TakesInSlash(u, g))
  {
    if s :| ParseSlug(u, s) == Some(s) && '/' in s {
      var g := SlashTaker(u, s);
      assert TakesInSlash(u, g);
    }
    if g :| TakesInSlash(u, g) {
      SlashTaken(u, g);
      assert '/' in g + "/";
    }
  }

  lemma SlashTaker(u: Unicode, s: string) returns (g: string)
    requires Slug.WellFormed(u) && !u.alphanumeric('/') && ParseSlug(u, s) == Some(s) && '/' in s
    ensures TakesInSlash(u, g)
  {
    AcceptedPieces(u, s);
    SlashInSlug(u, s);
    var i :| 0 <= i < |Clusters(u, s)| && SlashInside(Clusters(u, s)[i]);
    g := SlashTakerAt(u, s, i);
  }

  lemma SlashTakerAt(u: Unicode, s: string, i: nat) returns (g: string)
    requires Slug.WellFormed(u) && !u.alphanumeric('/') && Normal(u, s) && |s| <= MAX_SLUG_CHARS
    requires SlugPieces(u, Clusters(u, s)) && i < |Clusters(u, s)| && SlashInside(Clusters(u, s)[i])
    ensures TakesInSlash(u, g)
  {
    var gs := Clusters(u, s);
    var h := gs[i];
    var k :| 1 <= k < |h| && h[k] == '/';
    ClustersAreSegmented(u, s);
    SegmentedAt(u, gs, i);
    PrefixIsCluster(u, h, k);
    g := h[..k];
    var before, after := AroundCluster(gs, i);
    SlashRegroup(before, h, k, after);
    assert PartStaysNormal(u, before, g + "/", h[k + 1..] + after);
  }

  lemma AroundCluster(gs: seq<string>, i: nat) returns (before: string, after: string)
    requires i < |gs|
    ensures Concat(gs) == before + gs[i] + after
  {
    before, after := Concat(gs[..i]), Concat(gs[i + 1..]);
    SlugLaws.ConcatOfParts(gs, i, i + 1);
    assert gs[i..i + 1] == [gs[i]];
  }

  lemma SlashRegroup(before: string, h: string, k: nat, after: string)
    requires k < |h| && h[k] == '/'
    ensures before + h + after == before + (h[..k] + "/") + (h[k + 1..] + after)
  {
    assert h == h[..k] + "/" + h[k + 1..];
  }

  lemma SlashTaken(u: Unicode, g: string)
    requires TakesInSlash(u, g)
    ensures ParseSlug(u, g + "/") == Some(g + "/")
  {
    var t := g + "/";
    forall i | 1 <= i < |t|
      ensures u.takesIn(t[..i], t[i])
    {
      assert t[..i] == g[..i];
      assert i == |g| ==> g[..i] == g;
    }
    var single: seq<string> := [t];
    assert single[..0] == [];
    assert Segmented(u, single) && Concat(single) == t;
    SegmentedIsClusters(u, single);
  }

  datatype PermalinkRoute = PermalinkRoute(username: string, date: Date, slug: string)

  predicate ValidRoute(u: Unicode, r: PermalinkRoute) {
    ValidUsername(r.username) && ValidDate(r.date) && ParseSlug(u, r.slug) == Some(r.slug)
  }

  // Integers as the standard library reads them

  const I32_MIN := -0x8000_0000
  const U32_MAX := 0xFFFF_FFFF

  /** `i32::from_str`: an optional sign, then digits, within range. */
  function ParseI32(s: string): Option<int> {
    var negative := s != [] && s[0] == '-';
    var digits := if s != [] && (s[0] == '-' || s[0] == '+') then s[1..] else s;
    match DecimalValue(digits)
    case None => None
    case Some(v) =>
      var n := SignedYear(v, negative);
      if digits == [] || n < I32_MIN || n > I32_MAX then None else Some(n)
  }

  /** `u32::from_str` */
  function ParseU32(s: string): Option<nat> {
    var digits := if s != [] && s[0] == '+' then s[1..] else s;
    match DecimalValue(digits)
    case None => None
    case Some(v) => if digits == [] || v > U32_MAX then None else Some(v)
  }

  /** `PermalinkRoute::parse` */
  function ParseRoute(u: Unicode, username: string, year: string, month: string, day: string, slug: string)
    : Option<PermalinkRoute>
  {
    match (ParseUsername(username), ParseI32(year), ParseU32(month), ParseU32(day))
    case (Some(name), Some(y), Some(m), Some(d)) =>
      (match (FromYmd(y, m, d), ParseSlug(u, slug))
       case (Some(date), Some(parsed)) => Some(PermalinkRoute(name, date, parsed))
       case _ => None)
    case _ => None
  }

  // Which texts the route parser accepts

  /** A sign, then digits that spell the size of the number. */
  predicate SpellsNumber(s: string, sign: string, digits: string, n: int) {
    && s == sign + digits && digits != [] && IsDigits(digits)
    && n == if sign == "-" then -(Value(digits) as int) else Value(digits)
  }

  ghost predicate SpellsYear(s: string, n: int) {
    -0x8000_0000 <= n <= 0x7FFF_FFFF &&
    exists sign, digits :: (sign == "" || sign == "+" || sign == "-") && SpellsNumber(s, sign, digits, n)
  }

  ghost predicate SpellsUnsigned(s: string, n: int) {
    0 <= n <= 0xFFFF_FFFF && exists sign, digits :: (sign == "" || sign == "+") && SpellsNumber(s, sign, digits, n)
  }

  lemma SignOf(s: string) returns (sign: string, digits: string)
    ensures s == sign + digits && (sign == "" || sign == "+" || sign == "-")
    ensures if s != [] && (s[0] == '-' || s[0] == '+') then sign == [s[0]] && digits == s[1..]
            else sign == "" && digits == s
    ensures sign == "-" <==> s != [] && s[0] == '-'
  {
    if s != [] && (s[0] == '-' || s[0] == '+') {
      sign, digits := s[..1], s[1..];
    } else {
      sign, digits := "", s;
    }
  }

  lemma SpelledBySign(s: string, sign: string, digits: string, n: int)
    requires (sign == "" || sign == "+" || sign == "-") && SpellsNumber(s, sign, digits, n)
    ensures if s[0] == '-' || s[0] == '+' then sign == [s[0]] && digits == s[1..] else sign == "" && digits == s
  {
    assert IsDigit(digits[0]);
  }

  /** A year is read from digits with or without a sign, within 32 bits. */
  lemma YearIsRead(s: string, n: int)
    ensures ParseI32(s) == Some(n) <==> SpellsYear(s, n)
  {
    if ParseI32(s) == Some(n) {
      YearIsSpelled(s, n);
    }
    if SpellsYear(s, n) {
      var sign, digits :| (sign == "" || sign == "+" || sign == "-") && SpellsNumber(s, sign, digits, n);
      SpelledBySign(s, sign, digits, n);
    }
  }

  lemma YearIsSpelled(s: string, n: int)
    requires ParseI32(s) == Some(n)
    ensures SpellsYear(s, n)
  {
    var sign, digits := SignOf(s);
    assert IsDigits(digits) && digits != [];
    assert SpellsNumber(s, sign, digits, n);
  }

  /** A month and a day are read from digits, with or without a plus sign. */
  lemma UnsignedIsReadExactly(s: string, n: nat)
    ensures ParseU32(s) == Some(n) <==> SpellsUnsigned(s, n)
  {
    if ParseU32(s) == Some(n) {
      UnsignedIsSpelled(s, n);
    }
    if SpellsUnsigned(s, n) {
      var sign, digits :| (sign == "" || sign == "+") && SpellsNumber(s, sign, digits, n);
      SpelledBySign(s, sign, digits, n);
    }
  }

  lemma UnsignedIsSpelled(s: string, n: nat)
    requires ParseU32(s) == Some(n)
    ensures SpellsUnsigned(s, n)
  {
    var sign, digits := SignOf(s);
    assert SpellsNumber(s, sign, digits, n);
  }

  /** ASCII letters in either case, digits, underscores and hyphens, at least one. */
  predicate UsernameText(s: string) {
    s != [] && forall c :: c in s ==> 'a' <= c <= 'z' || 'A' <= c <= 'Z' || '0' <= c <= '9' || c == '_' || c == '-'
  }

  /** The parser accepts five texts as a route exactly when they spell its parts. */
  lemma RouteIsExact(u: Unicode, username: string, year: string, month: string, day: string, slug: string,
                     r: PermalinkRoute)
    ensures ParseRoute(u, username, year, month, day, slug) == Some(r) <==>
            && UsernameText(username) && r.username == ToAsciiLowercase(username)
            && SpellsYear(year, r.date.year) && SpellsUnsigned(month, r.date.month) && SpellsUnsigned(day, r.date.day)
            && ValidDate(r.date) && ParseSlug(u, slug) == Some(r.slug)
  {
    UsernameIsRead(username);
    YearIsRead(year, r.date.year);
    if r.date.month >= 0 && r.date.day >= 0 {
      UnsignedIsReadExactly(month, r.date.month);
      UnsignedIsReadExactly(day, r.date.day);
    }
  }

  lemma UsernameIsRead(s: string)
    ensures ParseUsername(s) == if UsernameText(s) then Some(ToAsciiLowercase(s)) else None
  {
    if UsernameText(s) {
      assert forall i :: 0 <= i < |s| ==> s[i] in s;
    } else if s != [] {
      var c :| c in s && !IsUsernameChar(c);
      var i :| 0 <= i < |s| && s[i] == c;
      assert !IsUsernameChar(s[i]);
    }
  }

  // The canonical path

  /** `{:04}` of a signed year: the sign counts toward the width. */
  function SignedFour(y: int): string {
    if y < 0 then "-" + Padded(-y, 3) else Padded(y, 4)
  }

  function PermalinkPath(r: PermalinkRoute, year: string): string
    requires IsDate(r.date)
  {
    "/~" + r.username + "/" + year + "/" + Padded(r.date.month, 2) + "/" + Padded(r.date.day, 2) + "/" + r.slug
  }

  /** `canonical_permalink_path` */
  function CanonicalPath(r: PermalinkRoute): string
    requires IsDate(r.date)
  {
    PermalinkPath(r, SignedFour(r.date.year))
  }

  /** The segments of a permalink path: the slug may hold more than one. */
  function PathParts(r: PermalinkRoute, year: string): seq<string>
    requires IsDate(r.date)
  {
    ["", "~" + r.username, year, Padded(r.date.month, 2), Padded(r.date.day, 2)] + SplitSlash(r.slug)
  }

  lemma DigitsHaveNoSlash(s: string)
    requires IsDigits(s)
    ensures SlashFree(s)
  {
  }

  lemma FiveSlashes(a: string, b: string, c: string, d: string, e: string)
    ensures "/" + a + "/" + b + "/" + c + "/" + d + "/" + e ==
            "" + "/" + (a + "/" + (b + "/" + (c + "/" + (d + "/" + e))))
  {
    Regroup("", a, b + "/" + (c + "/" + (d + "/" + e)));
    Regroup("/" + a, b, c + "/" + (d + "/" + e));
    Regroup("/" + a + "/" + b, c, d + "/" + e);
    Regroup("/" + a + "/" + b + "/" + c, d, e);
  }

  lemma SplitPair(a: string, b: string, rest: string)
    requires SlashFree(a) && SlashFree(b)
    ensures SplitSlash(a + "/" + (b + "/" + rest)) == [a, b] + SplitSlash(rest)
  {
    SplitAfter(a, b + "/" + rest);
    SplitAfter(b, rest);
  }

  lemma RegroupParts(a: string, b: string, c: string, d: string, rest: seq<string>)
    ensures [""] + ([a, b] + ([c, d] + rest)) == ["", a, b, c, d] + rest
  {
  }

  lemma SplitFive(a: string, b: string, c: string, d: string, e: string)
    requires SlashFree(a) && SlashFree(b) && SlashFree(c) && SlashFree(d)
    ensures SplitSlash("/" + a + "/" + b + "/" + c + "/" + d + "/" + e) == ["", a, b, c, d] + SplitSlash(e)
  {
    FiveSlashes(a, b, c, d, e);
    var tail := c + "/" + (d + "/" + e);
    SplitPair(c, d, e);
    SplitPair(a, b, tail);
    SplitAfter("", a + "/" + (b + "/" + tail));
    RegroupParts(a, b, c, d, SplitSlash(e));
  }

  /** The segments of a permalink path. */
  lemma PathSplits(r: PermalinkRoute, year: string)
    requires ValidUsername(r.username) && IsDate(r.date) && SlashFree(year)
    ensures SplitSlash(PermalinkPath(r, year)) == PathParts(r, year)
  {
    UsernameHasNoSlash(r.username);
    DigitsHaveNoSlash(Padded(r.date.month, 2));
    DigitsHaveNoSlash(Padded(r.date.day, 2));
    assert "/~" + r.username == "/" + ("~" + r.username);
    SplitFive("~" + r.username, year, Padded(r.date.month, 2), Padded(r.date.day, 2), r.slug);
  }

  lemma UnsignedIsRead(s: string)
    requires IsDigits(s) && s != [] && Value(s) <= I32_MAX
    ensures ParseI32(s) == Some(Value(s))
  {
    assert IsDigit(s[0]);
  }

  lemma NegativeIsRead(s: string)
    requires IsDigits(s) && s != [] && Value(s) <= -I32_MIN
    ensures ParseI32("-" + s) == Some(SignedYear(Value(s), true))
  {
    assert ("-" + s)[1..] == s;
  }

  lemma SignedFourIsRead(y: int)
    requires MIN_YEAR <= y <= MAX_YEAR
    ensures ParseI32(SignedFour(y)) == Some(y) && SlashFree(SignedFour(y))
  {
    if y < 0 {
      ValueOfPadded(-y, 3);
      NegativeIsRead(Padded(-y, 3));
      DigitsHaveNoSlash(Padded(-y, 3));
    } else {
      ValueOfPadded(y, 4);
      UnsignedIsRead(Padded(y, 4));
      DigitsHaveNoSlash(Padded(y, 4));
    }
  }

  lemma TwoDigitsAreRead(n: nat)
    requires n <= 31
    ensures ParseU32(Padded(n, 2)) == Some(n)
  {
    ValueOfPadded(n, 2);
    assert IsDigit(Padded(n, 2)[0]);
  }

  lemma PartsAreRead(u: Unicode, r: PermalinkRoute)
    requires ValidRoute(u, r)
    ensures ParseRoute(u, r.username, SignedFour(r.date.year), Padded(r.date.month, 2), Padded(r.date.day, 2), r.slug)
            == Some(r)
  {
    SignedFourIsRead(r.date.year);
    TwoDigitsAreRead(r.date.month);
    TwoDigitsAreRead(r.date.day);
  }

  /** A path as a router hands it over: five segments, the username's marked by a tilde. */
  function ParsePath(u: Unicode, path: string): Option<PermalinkRoute> {
    var parts := SplitSlash(path);
    if |parts| == 6 && parts[0] == "" && StartsWith(parts[1], "~") then
      ParseRoute(u, parts[1][1..], parts[2], parts[3], parts[4], parts[5])
    else None
  }

  lemma ParseOfParts(u: Unicode, path: string, username: string, year: string, month: string, day: string, slug: string)
    requires SplitSlash(path) == ["", "~" + username, year, month, day, slug]
    ensures ParsePath(u, path) == ParseRoute(u, username, year, month, day, slug)
  {
    assert ("~" + username)[1..] == username && ("~" + username)[..1] == "~";
  }

  /**
   Splitting a canonical path and parsing its segments gives back the route exactly when its
   slug holds no slash; otherwise the path has too many segments.
   */
  lemma CanonicalPathRoundTrip(u: Unicode, r: PermalinkRoute)
    requires ValidRoute(u, r)
    ensures ParsePath(u, CanonicalPath(r)) == if SlashFree(r.slug) then Some(r) else None
  {
    var year := SignedFour(r.date.year);
    assert SlashFree(year) by {
      SignedFourIsRead(r.date.year);
    }
    PathSplits(r, year);
    SplitWhole(r.slug);
    if SlashFree(r.slug) {
      var month, day := Padded(r.date.month, 2), Padded(r.date.day, 2);
      assert ["", "~" + r.username, year, month, day] + [r.slug] == ["", "~" + r.username, year, month, day, r.slug];
      ParseOfParts(u, CanonicalPath(r), r.username, year, month, day, r.slug);
      PartsAreRead(u, r);
    }
  }

  /** What the parser returns is a valid route. */
  lemma ParsedRoutesAreValid(u: Unicode, username: string, year: string, month: string, day: string, slug: string)
    requires Slug.WellFormed(u) && ParseRoute(u, username, year, month, day, slug).Some?
    ensures ValidRoute(u, ParseRoute(u, username, year, month, day, slug).value)
  {
    var r := ParseRoute(u, username, year, month, day, slug).value;
    LowercaseUsername(username);
    SlugLaws.SlugDoor(u, slug, r.slug);
  }

  lemma LowercaseUsername(s: string)
    requires ParseUsername(s).Some?
    ensures ValidUsername(ParseUsername(s).value)
  {
    var t := ToAsciiLowercase(s);
    forall i | 0 <= i < |t|
      ensures IsUsernameChar(t[i]) && AsciiLower(t[i]) == t[i]
    {
      assert IsUsernameChar(s[i]);
    }
    assert ToAsciiLowercase(t) == t;
  }

  /** A valid route whose canonical path does not give it back: its slug holds a slash. */
  lemma SlashedRoute()
    ensures var r := PermalinkRoute("a", Date(2024, 1, 2), [SlugSamples.REPH, '/', 'x']);
            ValidRoute(SlugSamples.Sample(), r) && ParsePath(SlugSamples.Sample(), CanonicalPath(r)) == None
  {
    var r := PermalinkRoute("a", Date(2024, 1, 2), [SlugSamples.REPH, '/', 'x']);
    SlugSamples.SlashedSlug();
    assert ToAsciiLowercase("a") == "a";
    assert !SlashFree(r.slug) by {
      assert r.slug[1] == '/';
    }
    CanonicalPathRoundTrip(SlugSamples.Sample(), r);
  }

  // Route identities for header selection

  datatype ThemeRoute =
    | Site
    | SiteTag(tag: string)
    | Author(username: string)
    | AuthorTag(username: string, tag: string)
    | Permalink(route: PermalinkRoute)

  predicate ValidThemeRoute(u: Unicode, r: ThemeRoute) {
    match r
    case Site => true
    case SiteTag(tag) => ValidTag(tag)
    case Author(username) => ValidUsername(username)
    case AuthorTag(username, tag) => ValidUsername(username) && ValidTag(tag)
    case Permalink(route) => ValidRoute(u, route)
  }

  /** `PublicThemeRoute`: the constructor's spelling. */
  function Spelling(u: Unicode, r: ThemeRoute): string
    requires ValidThemeRoute(u, r)
  {
    match r
    case Site => "/"
    case SiteTag(tag) => "/tags/" + tag
    case Author(username) => "/~" + username
    case AuthorTag(username, tag) => "/~" + username + "/tags/" + tag
    case Permalink(route) => PermalinkPath(route, IsoYear(route.date.year))
  }

  function Parts(u: Unicode, r: ThemeRoute): seq<string>
    requires ValidThemeRoute(u, r)
  {
    match r
    case Site => ["", ""]
    case SiteTag(tag) => ["", "tags", tag]
    case Author(username) => ["", "~" + username]
    case AuthorTag(username, tag) => ["", "~" + username, "tags", tag]
    case Permalink(route) => PathParts(route, IsoYear(route.date.year))
  }

  lemma IsoYearHasNoSlash(y: int)
    ensures SlashFree(IsoYear(y))
  {
  }

  lemma TwoParts(a: string, b: string)
    requires SlashFree(a) && SlashFree(b)
    ensures SplitSlash(a + "/" + b) == [a, b]
  {
    SplitAfter(a, b);
    SplitWhole(b);
  }

  lemma SiteTagSplits(tag: string)
    requires SlashFree(tag)
    ensures SplitSlash("/tags/" + tag) == ["", "tags", tag]
  {
    assert "/tags/" + tag == "" + "/" + ("tags" + "/" + tag);
    SplitPair("", "tags", tag);
    SplitWhole(tag);
  }

  lemma AuthorSplits(username: string)
    requires SlashFree(username)
    ensures SplitSlash("/~" + username) == ["", "~" + username]
  {
    assert "/~" + username == "" + "/" + ("~" + username);
    TwoParts("", "~" + username);
  }

  lemma AuthorTagSplits(username: string, tag: string)
    requires SlashFree(username) && SlashFree(tag)
    ensures SplitSlash("/~" + username + "/tags/" + tag) == ["", "~" + username, "tags", tag]
  {
    var part, rest := "~" + username, "tags" + "/" + tag;
    assert "/~" + username + "/tags/" + tag == "" + "/" + (part + "/" + rest);
    SplitPair("", part, rest);
    TwoParts("tags", tag);
  }

  lemma SpellingSplits(u: Unicode, r: ThemeRoute)
    requires ValidThemeRoute(u, r)
    ensures SplitSlash(Spelling(u, r)) == Parts(u, r)
  {
    match r
    case Site => TwoParts("", "");
    case SiteTag(tag) =>
      TagHasNoSlash(tag);
      SiteTagSplits(tag);
    case Author(username) =>
      UsernameHasNoSlash(username);
      AuthorSplits(username);
    case AuthorTag(username, tag) =>
      UsernameHasNoSlash(username);
      TagHasNoSlash(tag);
      AuthorTagSplits(username, tag);
    case Permalink(route) =>
      IsoYearHasNoSlash(route.date.year);
      PathSplits(route, IsoYear(route.date.year));
  }

  lemma TildeCancels(a: string, b: string)
    requires "~" + a == "~" + b
    ensures a == b
  {
    assert a == ("~" + a)[1..] && b == ("~" + b)[1..];
  }

  lemma IsoYearInjective(y: int, z: int)
    requires IsoYear(y) == IsoYear(z)
    ensures y == z
  {
    IsoYearSign(y);
    IsoYearSign(z);
    if y < 0 && z < 0 {
      assert Padded(-y, 6) == IsoYear(y)[1..] && Padded(-z, 6) == IsoYear(z)[1..];
      PaddedInjective(-y, -z, 6);
    } else if y >= 0 && z >= 0 {
      PaddedInjective(y, z, 4);
    }
  }

  lemma IsoYearSign(y: int)
    ensures IsoYear(y) != [] && (IsoYear(y)[0] == '-' <==> y < 0)
  {
    if y >= 0 {
      assert IsDigit(Padded(y, 4)[0]);
    }
  }

  /** Two different public routes never share a spelling, slashes in slugs included. */
  lemma SpellingInjective(u: Unicode, r: ThemeRoute, s: ThemeRoute)
    requires ValidThemeRoute(u, r) && ValidThemeRoute(u, s)
    requires Spelling(u, r) == Spelling(u, s)
    ensures r == s
  {
    SpellingSplits(u, r);
    SpellingSplits(u, s);
    var p, q := Parts(u, r), Parts(u, s);
    assert p[1] == q[1];
    if |p| == 2 && (r.Author? || s.Author?) {
      assert p[1] != "";
      TildeCancels(r.username, s.username);
    } else if |p| == 3 {
      assert p[2] == q[2];
    } else if |p| == 4 {
      assert p[3] == q[3];
      TildeCancels(r.username, s.username);
    } else if |p| >= 6 {
      PermalinkPartsInjective(r.route, s.route);
    }
  }

  lemma PermalinkPartsInjective(r: PermalinkRoute, s: PermalinkRoute)
    requires IsDate(r.date) && IsDate(s.date)
    requires PathParts(r, IsoYear(r.date.year)) == PathParts(s, IsoYear(s.date.year))
    ensures r == s
  {
    var p, q := PathParts(r, IsoYear(r.date.year)), PathParts(s, IsoYear(s.date.year));
    assert p[1] == q[1] && p[2] == q[2] && p[3] == q[3] && p[4] == q[4];
    assert p[5..] == SplitSlash(r.slug) && q[5..] == SplitSlash(s.slug);
    JoinOfSplit(r.slug);
    JoinOfSplit(s.slug);
    TildeCancels(r.username, s.username);
    IsoYearInjective(r.date.year, s.date.year);
    PaddedInjective(r.date.month, s.date.month, 2);
    PaddedInjective(r.date.day, s.date.day, 2);
  }

  /** The header-selection spelling of a permalink is its canonical path exactly from the year 0000 on. */
  lemma SpellingsAgree(u: Unicode, r: PermalinkRoute)
    requires ValidRoute(u, r)
    ensures Spelling(u, Permalink(r)) == CanonicalPath(r) <==> r.date.year >= 0
  {
    if r.date.year < 0 {
      SignedFourIsShort(r.date.year);
      assert |Spelling(u, Permalink(r))| - |IsoYear(r.date.year)| == |CanonicalPath(r)| - |SignedFour(r.date.year)|;
    }
  }

  lemma SignedFourIsShort(y: int)
    requires MIN_YEAR <= y < 0
    ensures |SignedFour(y)| <= 5 && |IsoYear(y)| >= 7
  {
    Pow10Values();
    DigitsLength(-y, 4);
  }
}
