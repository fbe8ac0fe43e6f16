/**
 Tags (`common/src/tag.rs`): the canonical slug of a tag, the case-preserving label, the
 folding of free-form Org keywords into labels, and deduplication under a cap. Unicode
 lowercasing is a parameter.
 */
module Tags {
  import opened Wrappers
  import opened Text

  type Lowercase = string -> string

  predicate IsAscii(s: string) {
    forall i :: 0 <= i < |s| ==> s[i] <= '\U{7F}'
  }

  /** On ASCII text, Unicode lowercasing is ASCII lowercasing. */
  predicate LowersAscii(lower: Lowercase, s: string) {
    IsAscii(s) ==> lower(s) == ToAsciiLowercase(s)
  }

  ghost predicate WellFormed(lower: Lowercase) {
    forall s :: LowersAscii(lower, s)
  }

  predicate IsLowerAlnum(c: char) {
    'a' <= c <= 'z' || '0' <= c <= '9'
  }

  /** `[a-z0-9][a-z0-9-]*` */
  predicate ValidTag(s: string) {
    s != [] && IsLowerAlnum(s[0]) && forall i :: 0 <= i < |s| ==> IsLowerAlnum(s[i]) || s[i] == '-'
  }

  /** `Tag::from_str` */
  function ParseTag(lower: Lowercase, s: string): Option<string> {
    if s != [] && ValidTag(lower(s)) then Some(lower(s)) else None
  }

  /** `TagLabel::from_str`: trims, and keeps the author's casing. */
  function ParseLabel(lower: Lowercase, s: string): Option<string> {
    if ParseTag(lower, Trim(s)).Some? then Some(Trim(s)) else None
  }

  predicate ValidLabel(lower: Lowercase, kept: string) {
    ParseLabel(lower, kept) == Some(kept)
  }

  /** Parsing a label yields a label that parses to itself, whose slug is its tag. */
  lemma LabelDoor(lower: Lowercase, s: string)
    requires ParseLabel(lower, s).Some?
    ensures var kept := ParseLabel(lower, s).value;
            ValidLabel(lower, kept) && ParseTag(lower, kept) == Some(lower(kept)) && ValidTag(lower(kept))
  {
    TrimSplits(s);
    TrimOfTrimmed(Trim(s));
  }

  // Free-form keywords

  predicate IsAsciiPunctuation(c: char) {
    '!' <= c <= '/' || ':' <= c <= '@' || '[' <= c <= '`' || '{' <= c <= '~'
  }

  /** `char::is_ascii_whitespace`: the vertical tab is not one. */
  predicate IsAsciiWhitespace(c: char) {
    c == ' ' || c == '\t' || c == '\n' || c == '\U{0C}' || c == '\r'
  }

  predicate IsSeparator(c: char) {
    IsAsciiPunctuation(c) || IsAsciiWhitespace(c)
  }

  predicate IsAsciiAlnum(c: char) {
    IsLowerAlnum(AsciiLower(c))
  }

  /** Separator runs become one hyphen each, and letters become lowercase. */
  function Fold(term: string): string {
    if term == [] then []
    else
      var s, c := Fold(term[..|term| - 1]), term[|term| - 1];
      if !IsSeparator(c) then s + [AsciiLower(c)]
      else if EndsWithDash(s) then s
      else s + "-"
  }

  function TrimStartDashes(s: string): string {
    if s != [] && s[0] == '-' then TrimStartDashes(s[1..]) else s
  }

  /** What `TagLabel::normalize_keyword` returns. */
  function KeywordLabel(lower: Lowercase, term: string): Option<string> {
    if IsAscii(Trim(term)) && ParseLabel(lower, term).Some? then ParseLabel(lower, term)
    else if !IsAscii(term) then None
    else ParseLabel(lower, TrimDashes(TrimStartDashes(Fold(Trim(term)))))
  }

  method NormalizeKeyword(lower: Lowercase, term: string) returns (r: Option<string>)
    ensures r == KeywordLabel(lower, term)
  {
    var trimmed := Trim(term);
    if IsAscii(trimmed) && ParseLabel(lower, term).Some? {
      return ParseLabel(lower, term);
    }
    if !IsAscii(term) {
      return None;
    }
    var normalized := "";
    var i := 0;
    while i < |trimmed|
      invariant 0 <= i <= |trimmed|
      invariant normalized == Fold(trimmed[..i])
    {
      assert trimmed[..i + 1][..i] == trimmed[..i];
      var character := trimmed[i];
      if IsSeparator(character) {
        if !EndsWithDash(normalized) {
          normalized := normalized + "-";
        }
      } else {
        normalized := normalized + [AsciiLower(character)];
      }
      i := i + 1;
    }
    assert trimmed[..i] == trimmed;
    r := ParseLabel(lower, TrimDashes(TrimStartDashes(normalized)));
  }

  lemma {:induction false} TrimStartDashesShape(s: string)
    ensures |TrimStartDashes(s)| <= |s| && TrimStartDashes(s) == s[|s| - |TrimStartDashes(s)|..]
  {
    if s != [] && s[0] == '-' {
      TrimStartDashesShape(s[1..]);
    }
  }

  lemma {:induction false} TrimDashesShape(s: string)
    ensures TrimDashes(s) <= s
  {
    if s != [] && s[|s| - 1] == '-' {
      TrimDashesShape(s[..|s| - 1]);
    }
  }

  /** Every scalar of a folded term is a hyphen or the lowercase of a scalar that is no separator. */
  predicate FoldedFrom(term: string, c: char) {
    c == '-' || exists i :: 0 <= i < |term| && !IsSeparator(term[i]) && AsciiLower(term[i]) == c
  }

  lemma {:induction false} FoldScalars(term: string)
    ensures forall k :: 0 <= k < |Fold(term)| ==> FoldedFrom(term, Fold(term)[k])
  {
    if term != [] {
      var front := term[..|term| - 1];
      FoldScalars(front);
      forall k | 0 <= k < |Fold(term)|
        ensures FoldedFrom(term, Fold(term)[k])
      {
        if k < |Fold(front)| {
          assert FoldedFrom(front, Fold(front)[k]);
        }
      }
    }
  }

  /** What the free-form path hands to the label parser. */
  function Folded(term: string): string {
    TrimDashes(TrimStartDashes(Fold(Trim(term))))
  }

  lemma FoldedScalars(term: string)
    ensures forall k :: 0 <= k < |Folded(term)| ==> FoldedFrom(Trim(term), Folded(term)[k])
  {
    var f := Fold(Trim(term));
    var g := TrimStartDashes(f);
    FoldScalars(Trim(term));
    TrimStartDashesShape(f);
    TrimDashesShape(g);
    assert forall k :: 0 <= k < |g| ==> g[k] == f[|f| - |g| + k];
  }

  /**
   Every accepted term yields an ASCII label that parses to itself and is left alone by a
   second normalization.
   */
  lemma KeywordsSettle(lower: Lowercase, term: string)
    requires KeywordLabel(lower, term).Some?
    ensures var kept := KeywordLabel(lower, term).value;
            IsAscii(kept) && ValidLabel(lower, kept) && KeywordLabel(lower, kept) == Some(kept)
  {
    var kept := KeywordLabel(lower, term).value;
    if IsAscii(Trim(term)) && ParseLabel(lower, term).Some? {
      LabelDoor(lower, term);
    } else {
      LabelDoor(lower, Folded(term));
      FoldedIsAscii(term);
    }
    TrimOfLabel(lower, kept);
  }

  lemma TrimOfLabel(lower: Lowercase, kept: string)
    requires ValidLabel(lower, kept)
    ensures Trim(kept) == kept
  {
  }

  lemma FoldedIsAscii(term: string)
    requires IsAscii(term)
    ensures IsAscii(Trim(Folded(term)))
  {
    TrimSplits(term);
    TrimSplits(Folded(term));
    FoldedScalars(term);
    var n: nat, m: nat :| TrimsTo(term, n, m);
    assert IsAscii(Trim(term));
  }

  // Deduplication

  function Slugs(lower: Lowercase, raw: seq<string>): set<string> {
    set i | 0 <= i < |raw| :: lower(raw[i])
  }

  /** Position `i` holds the first label of its slug. */
  predicate IsFirst(lower: Lowercase, raw: seq<string>, i: nat)
    requires i < |raw|
  {
    forall j :: 0 <= j < i ==> lower(raw[j]) != lower(raw[i])
  }

  function Firsts(lower: Lowercase, raw: seq<string>): (ps: seq<nat>)
    ensures forall k :: 0 <= k < |ps| ==> ps[k] < |raw|
  {
    if raw == [] then []
    else
      var n := |raw| - 1;
      Firsts(lower, raw[..n]) + if IsFirst(lower, raw, n) then [n] else []
  }

  function Picked(raw: seq<string>, ps: seq<nat>): seq<string>
    requires forall k :: 0 <= k < |ps| ==> ps[k] < |raw|
  {
    seq(|ps|, k requires 0 <= k < |ps| => raw[ps[k]])
  }

  const MAX_TAGS_PER_POST := 256

  datatype TagValidationError = TooMany(count: nat, max: nat)

  function Validated(lower: Lowercase, raw: seq<string>): Result<seq<string>, TagValidationError> {
    var out := Picked(raw, Firsts(lower, raw));
    if |out| > MAX_TAGS_PER_POST then Err(TooMany(|out|, MAX_TAGS_PER_POST)) else Ok(out)
  }

  method ParseAndValidateTags(lower: Lowercase, raw: seq<string>)
    returns (r: Result<seq<string>, TagValidationError>)
    ensures r == Validated(lower, raw)
  {
    var seen: set<string> := {};
    var out: seq<string> := [];
    var i := 0;
    while i < |raw|
      invariant 0 <= i <= |raw|
      invariant seen == Slugs(lower, raw[..i])
      invariant out == Picked(raw[..i], Firsts(lower, raw[..i]))
    {
      FirstsStep(lower, raw, i);
      var slug := lower(raw[i]);
      if slug !in seen {
        seen := seen + {slug};
        out := out + [raw[i]];
      }
      i := i + 1;
    }
    assert raw[..i] == raw;
    if |out| > MAX_TAGS_PER_POST {
      return Err(TooMany(|out|, MAX_TAGS_PER_POST));
    }
    r := Ok(out);
  }

  lemma FirstsStep(lower: Lowercase, raw: seq<string>, i: nat)
    requires i < |raw|
    ensures var prefix, next := raw[..i], raw[..i + 1];
            var isNew := lower(raw[i]) !in Slugs(lower, prefix);
            && Slugs(lower, next) == Slugs(lower, prefix) + {lower(raw[i])}
            && Picked(next, Firsts(lower, next)) ==
               Picked(prefix, Firsts(lower, prefix)) + if isNew then [raw[i]] else []
  {
    var prefix, next := raw[..i], raw[..i + 1];
    assert next[..i] == prefix && next[i] == raw[i];
    assert forall j :: 0 <= j < i ==> next[j] == prefix[j];
    SlugsSnoc(lower, prefix, raw[i]);
    assert next == prefix + [raw[i]];
    assert IsFirst(lower, next, i) <==> lower(raw[i]) !in Slugs(lower, prefix);
  }

  lemma SlugsSnoc(lower: Lowercase, prefix: seq<string>, last: string)
    ensures Slugs(lower, prefix + [last]) == Slugs(lower, prefix) + {lower(last)}
  {
    var next := prefix + [last];
    assert forall j :: 0 <= j < |prefix| ==> next[j] == prefix[j];
    assert next[|prefix|] == last;
  }

  /** The positions picked are exactly those of first labels, in order. */
  lemma {:induction false} FirstsAreFirst(lower: Lowercase, raw: seq<string>)
    ensures var ps := Firsts(lower, raw);
            && (forall i: nat :: i < |raw| ==> (i in ps <==> IsFirst(lower, raw, i)))
            && (forall k, l :: 0 <= k < l < |ps| ==> ps[k] < ps[l])
  {
    if raw != [] {
      var n := |raw| - 1;
      var front := raw[..n];
      var qs := Firsts(lower, front);
      FirstsAreFirst(lower, front);
      forall i: nat | i < |raw|
        ensures i in Firsts(lower, raw) <==> IsFirst(lower, raw, i)
      {
        if i < n {
          assert forall j :: 0 <= j <= i ==> raw[j] == front[j];
          assert i in qs <==> IsFirst(lower, raw, i);
        } else {
          assert n !in qs;
        }
      }
      var ps := Firsts(lower, raw);
      assert ps == qs || ps == qs + [n];
      assert forall k :: 0 <= k < |qs| ==> ps[k] == qs[k];
    }
  }

  lemma {:induction false} AsManyAsSlugs(lower: Lowercase, raw: seq<string>)
    ensures |Firsts(lower, raw)| == |Slugs(lower, raw)|
  {
    if raw != [] {
      var n := |raw| - 1;
      var front, last := raw[..n], raw[n];
      var slugs := Slugs(lower, front);
      AsManyAsSlugs(lower, front);
      SlugsSnoc(lower, front, last);
      assert front + [last] == raw;
      assert IsFirst(lower, raw, n) <==> lower(last) !in slugs by {
        assert forall j :: 0 <= j < n ==> front[j] == raw[j];
      }
      assert lower(last) in slugs ==> slugs + {lower(last)} == slugs;
    }
  }

  /**
   An accepted list holds the first label of every slug and nothing else, in input order and
   with distinct slugs; a list is refused exactly when it has more than 256 distinct slugs.
   */
  lemma ValidatedTags(lower: Lowercase, raw: seq<string>)
    ensures Validated(lower, raw).Ok? <==> |Slugs(lower, raw)| <= MAX_TAGS_PER_POST
    ensures Validated(lower, raw).Err? ==> Validated(lower, raw).error.count == |Slugs(lower, raw)|
    ensures Validated(lower, raw).Ok? ==>
              && Validated(lower, raw).value == Picked(raw, Firsts(lower, raw))
              && DistinctSlugs(lower, Validated(lower, raw).value)
              && Slugs(lower, Validated(lower, raw).value) == Slugs(lower, raw)
  {
    AsManyAsSlugs(lower, raw);
    PickedSlugs(lower, raw);
  }

  predicate DistinctSlugs(lower: Lowercase, tags: seq<string>) {
    forall k, l :: 0 <= k < l < |tags| ==> lower(tags[k]) != lower(tags[l])
  }

  lemma PickedSlugs(lower: Lowercase, raw: seq<string>)
    ensures var out := Picked(raw, Firsts(lower, raw));
            DistinctSlugs(lower, out) && Slugs(lower, out) == Slugs(lower, raw)
  {
    var ps := Firsts(lower, raw);
    var out := Picked(raw, ps);
    FirstsAreFirst(lower, raw);
    forall k, l | 0 <= k < l < |out|
      ensures lower(out[k]) != lower(out[l])
    {
      assert ps[l] in ps && IsFirst(lower, raw, ps[l]);
    }
    forall i | 0 <= i < |raw|
      ensures lower(raw[i]) in Slugs(lower, out)
    {
      var first := FirstWith(lower, raw, i);
      var k :| 0 <= k < |ps| && ps[k] == first;
      assert out[k] == raw[first];
    }
  }

  ghost function FirstWith(lower: Lowercase, raw: seq<string>, i: nat): (j: nat)
    requires i < |raw|
    ensures j <= i && lower(raw[j]) == lower(raw[i]) && IsFirst(lower, raw, j)
  {
    if IsFirst(lower, raw, i) then i
    else
      var j: nat :| j < i && lower(raw[j]) == lower(raw[i]);
      FirstWith(lower, raw, j)
  }
}
