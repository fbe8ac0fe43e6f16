/**
 How one line of an Org header reads (`common/src/org.rs`): every keyword and property as it
 is spelled, in any case, with the field it supplies, what is refused and what is left alone.
 */
module OrgLines {
  import opened Wrappers
  import opened Text
  import opened Render
  import opened OrgHeader
  import Tags

  function KeywordLine(key: string, value: string): string {
    "#+" + key + ":" + value
  }

  lemma {:induction false} FirstIndex(a: string, c: char, rest: string)
    requires c !in a
    ensures IndexOf(a + [c] + rest, c) == |a|
  {
    if a != [] {
      FirstIndex(a[1..], c, rest);
      assert (a + [c] + rest)[1..] == a[1..] + [c] + rest;
    }
  }

  lemma SplitAtColon(a: string, rest: string)
    requires ':' !in a
    ensures SplitOnce(a + ":" + rest, ':') == Some((a, rest))
  {
    var s := a + ":" + rest;
    FirstIndex(a, ':', rest);
    assert s[|a|] == ':';
    assert s[..|a|] == a && s[|a| + 1..] == rest;
  }

  /** The key is what stands between the mark and the first colon, lowercased. */
  lemma KeywordOfLine(key: string, value: string)
    requires ':' !in key
    ensures Keyword(KeywordLine(key, value)) == Some((ToAsciiLowercase(key), value))
  {
    GraphicIsNotWhitespace('#');
    assert TrimStart(KeywordLine(key, value)) == KeywordLine(key, value);
    SplitAtColon("#+" + key, value);
    assert ("#+" + key)[2..] == key && ("#+" + key)[..2] == "#+";
  }

  lemma BlankTrims(value: string)
    ensures Trim(value) == [] <==> Text.Blank(value)
  {
    TrimSplits(value);
  }

  /** Title, description and date lines supply their trimmed value; a blank value is refused. */
  lemma ReadsText(r: Readers, key: string, value: string)
    requires ':' !in key
    ensures var name, line := ToAsciiLowercase(key), KeywordLine(key, value);
            && (name == "title" ==>
                  ReadLine(r, line) ==
                  if Text.Blank(value) then Err(OrgMetadataError.Blank(TITLE)) else Ok(Some(TitleEntry(Trim(value)))))
            && (name == "description" ==>
                  ReadLine(r, line) ==
                  if Text.Blank(value) then Err(OrgMetadataError.Blank(DESCRIPTION))
                  else Ok(Some(DescriptionEntry(Trim(value)))))
            && (name == "date" ==>
                  ReadLine(r, line) ==
                  if Text.Blank(value) then Err(OrgMetadataError.Blank(DATE)) else Ok(Some(DateEntry(Trim(value)))))
            && (name !in {"title", "description", "keywords", "date", "property"} ==> ReadLine(r, line) == Ok(None))
  {
    KeywordOfLine(key, value);
    BlankTrims(value);
  }

  lemma PrefixOfPart(t: string, k: nat, p: string)
    requires k <= |t|
    ensures StartsWith(t[..k], p) ==> StartsWith(t, p)
  {
  }

  /** A line that is no keyword line supplies nothing. */
  lemma ReadsNothing(r: Readers, line: string)
    requires !StartsWith(TrimStart(line), "#+") || ':' !in line
    ensures ReadLine(r, line) == Ok(None)
  {
    var t := TrimStart(line);
    TrimStartIsSuffix(line);
    if ':' in t {
      PrefixOfPart(t, IndexOf(t, ':'), "#+");
    }
  }

  // Keywords

  function JoinComma(parts: seq<string>): string {
    if parts == [] then [] else if |parts| == 1 then parts[0] else parts[0] + "," + JoinComma(parts[1..])
  }

  /** The terms are what stands between commas. */
  lemma {:induction false} TermsOfValue(value: string)
    ensures SplitCommas(value) != [] && JoinComma(SplitCommas(value)) == value
    ensures forall i :: 0 <= i < |SplitCommas(value)| ==> ',' !in SplitCommas(value)[i]
    decreases |value|
  {
    var i := IndexOf(value, ',');
    if i < |value| {
      TermsOfValue(value[i + 1..]);
      var rest := SplitCommas(value[i + 1..]);
      assert ([value[..i]] + rest)[1..] == rest;
      assert value == value[..i] + "," + value[i + 1..];
    }
  }

  function TermsWithText(terms: seq<string>): seq<string> {
    if terms == [] then []
    else if Text.Blank(terms[0]) then TermsWithText(terms[1..])
    else [terms[0]] + TermsWithText(terms[1..])
  }

  /** Some term makes no label. */
  predicate SomeRefused(lower: Tags.Lowercase, texts: seq<string>) {
    exists i :: 0 <= i < |texts| && Tags.KeywordLabel(lower, texts[i]).None?
  }

  /** Every term makes the label in its place. */
  predicate Labelled(lower: Tags.Lowercase, texts: seq<string>, tags: seq<string>) {
    |tags| == |texts| && forall i :: 0 <= i < |texts| ==> Tags.KeywordLabel(lower, texts[i]) == Some(tags[i])
  }

  lemma RefusedCons(lower: Tags.Lowercase, text: string, rest: seq<string>)
    ensures SomeRefused(lower, [text] + rest) <==> Tags.KeywordLabel(lower, text).None? || SomeRefused(lower, rest)
  {
    var all := [text] + rest;
    assert all[0] == text && forall i :: 0 <= i < |rest| ==> all[i + 1] == rest[i];
  }

  lemma LabelledCons(lower: Tags.Lowercase, text: string, rest: seq<string>, tag: string, tags: seq<string>)
    requires Tags.KeywordLabel(lower, text) == Some(tag) && Labelled(lower, rest, tags)
    ensures Labelled(lower, [text] + rest, [tag] + tags)
  {
  }

  lemma {:induction false} LabelsOfTerms(lower: Tags.Lowercase, terms: seq<string>)
    ensures match KeywordLabels(lower, terms)
            case None => SomeRefused(lower, TermsWithText(terms))
            case Some(tags) => Labelled(lower, TermsWithText(terms), tags)
  {
    if terms != [] {
      LabelsOfTerms(lower, terms[1..]);
      if !Text.Blank(terms[0]) {
        var rest := TermsWithText(terms[1..]);
        RefusedCons(lower, terms[0], rest);
        match (Tags.KeywordLabel(lower, terms[0]), KeywordLabels(lower, terms[1..])) {
          case (Some(tag), Some(tags)) => LabelledCons(lower, terms[0], rest, tag, tags);
          case _ =>
        }
      }
    }
  }

  /** A keywords line supplies the label of every term with text, in order, or is refused. */
  lemma ReadsKeywords(r: Readers, key: string, value: string)
    requires ':' !in key && ToAsciiLowercase(key) == "keywords"
    ensures var texts := TermsWithText(SplitCommas(value));
            match ReadLine(r, KeywordLine(key, value))
            case Ok(Some(KeywordsEntry(tags))) => tags != [] && Labelled(r.lower, texts, tags)
            case Err(e) =>
              || (e == OrgMetadataError.Blank(KEYWORDS) && texts == [])
              || (e == Malformed(KEYWORDS) && SomeRefused(r.lower, texts))
            case _ => false
  {
    KeywordOfLine(key, value);
    LabelsOfTerms(r.lower, SplitCommas(value));
    KeywordsOnly(r, key, value);
  }

  lemma KeywordsOnly(r: Readers, key: string, value: string)
    requires ':' !in key && ToAsciiLowercase(key) == "keywords"
    ensures ReadLine(r, KeywordLine(key, value)) ==
            match KeywordLabels(r.lower, SplitCommas(value))
            case None => Err(Malformed(KEYWORDS))
            case Some(tags) =>
              if tags == [] then Err(OrgMetadataError.Blank(KEYWORDS)) else Ok(Some(KeywordsEntry(tags)))
  {
    KeywordOfLine(key, value);
  }

  // Properties

  predicate Inked(name: string) {
    name != [] && forall i :: 0 <= i < |name| ==> !IsWhitespace(name[i])
  }

  lemma {:induction false} FirstBlank(name: string, rest: string)
    requires (forall i :: 0 <= i < |name| ==> !IsWhitespace(name[i])) && (rest != [] ==> IsWhitespace(rest[0]))
    ensures IndexOfWhitespace(name + rest) == |name|
  {
    if name == [] {
      assert name + rest == rest;
    } else {
      FirstBlank(name[1..], rest);
      assert (name + rest)[1..] == name[1..] + rest;
    }
  }

  /** A property line: a name, a space, a value. */
  function PropertyLine(key: string, name: string, value: string): string {
    KeywordLine(key, " " + name + " " + value)
  }

  lemma TrimmedProperty(name: string, value: string)
    requires Inked(name) && !Text.Blank(value)
    ensures Trim(" " + name + " " + value) == name + (" " + TrimEnd(value))
  {
    var s := name + (" " + value);
    SpacesAreWhitespace();
    assert " " + name + " " + value == " " + s;
    assert (" " + s)[1..] == s;
    assert TrimStart(" " + s) == s;
    assert s == (name + " ") + value;
    TrimEndAppend(name + " ", value);
    assert (name + " ") + TrimEnd(value) == name + (" " + TrimEnd(value));
  }

  lemma TrimOfTrimEnd(value: string)
    ensures Trim(TrimEnd(value)) == Trim(value)
  {
    TrimEndSplits(value);
    var b := value[|TrimEnd(value)|..];
    assert value == TrimEnd(value) + b;
    if Text.Blank(value) {
      TrimSplits(value);
      assert TrimEnd(value) == [];
    } else {
      BlankAppend(TrimEnd(value), b);
      TrimStartAppend(TrimEnd(value), b);
      TrimEndBlankSuffix(TrimStart(TrimEnd(value)), b);
    }
  }

  lemma PropertyParts(name: string, value: string)
    requires Inked(name) && !Text.Blank(value)
    ensures var t := Trim(" " + name + " " + value);
            var i := IndexOfWhitespace(t);
            i < |t| && t[..i] == name && Trim(t[i + 1..]) == Trim(value) && Trim(value) != []
  {
    var rest := " " + TrimEnd(value);
    var t := name + rest;
    TrimmedProperty(name, value);
    SpacesAreWhitespace();
    FirstBlank(name, rest);
    assert t[..|name|] == name && t[|name| + 1..] == TrimEnd(value);
    TrimOfTrimEnd(value);
    BlankTrims(value);
  }

  lemma PropertyKeywordOfLine(key: string, name: string, value: string)
    requires ':' !in key && ToAsciiLowercase(key) == "property"
    ensures HeaderKeywordOf(PropertyLine(key, name, value)) == Some(PropertyKeyword(Trim(" " + name + " " + value)))
  {
    KeywordOfLine(key, " " + name + " " + value);
  }

  lemma ReadsPropertyValue(r: Readers, key: string, name: string, value: string)
    requires ':' !in key && ToAsciiLowercase(key) == "property" && Inked(name) && !Text.Blank(value)
    ensures ReadLine(r, PropertyLine(key, name, value)) ==
            match PropertyName(name)
            case None => Ok(None)
            case Some(field) =>
              match ParseProperty(r, field, Trim(value))
              case Ok(e) => Ok(Some(e))
              case Err(e) => Err(e)
  {
    var t := Trim(" " + name + " " + value);
    PropertyKeywordOfLine(key, name, value);
    LineOfProperty(r, PropertyLine(key, name, value), t);
    PropertyParts(name, value);
    PropertyRead(r, t, name, Trim(value));
  }

  lemma LineOfProperty(r: Readers, line: string, t: string)
    requires HeaderKeywordOf(line) == Some(PropertyKeyword(t))
    ensures ReadLine(r, line) == ReadProperty(r, t)
  {
  }

  lemma PropertyRead(r: Readers, t: string, name: string, v: string)
    requires var i := IndexOfWhitespace(t);
             i < |t| && t[..i] == name && Trim(t[i + 1..]) == v && v != []
    ensures ReadProperty(r, t) ==
            match PropertyName(name)
            case None => Ok(None)
            case Some(field) =>
              match ParseProperty(r, field, v)
              case Ok(e) => Ok(Some(e))
              case Err(e) => Err(e)
  {
  }

  const PROPERTIES: seq<string> := [
    "jaunder_date_tz", "jaunder_status", "jaunder_audience", "jaunder_slug", "jaunder_format", "jaunder_id",
    "jaunder_synced", "jaunder_synced_at", "jaunder_date_utc"]

  function PropertyIndex(f: Field): (k: nat)
    ensures k < 9
  {
    match f
    case DATE_TZ => 0
    case STATUS => 1
    case AUDIENCE => 2
    case SLUG => 3
    case FORMAT => 4
    case ID => 5
    case SYNCED => 6
    case SYNCED_AT => 7
    case _ => 8
  }

  /** The property a known name stands for, in any case. */
  lemma KnownName(name: string)
    requires PropertyName(name).Some?
    ensures ToAsciiLowercase(name) == PROPERTIES[PropertyIndex(PropertyName(name).value)]
    ensures PropertyIndex(PropertyName(name).value) == 8 ==> PropertyName(name).value == DATE_UTC
  {
  }

  lemma UnknownName(name: string)
    requires PropertyName(name).None?
    ensures ToAsciiLowercase(name) !in PROPERTIES
  {
  }

  function Supplied<T>(value: Option<T>, field: Field, entry: T -> Entry): Result<Option<Entry>, OrgMetadataError> {
    match value
    case Some(v) => Ok(Some(entry(v)))
    case None => Err(Malformed(field))
  }

  /** An audience is one of three words, or a named audience by its id. */
  predicate AudienceReads(r: Readers, v: string, read: Result<Option<Entry>, OrgMetadataError>) {
    if v == "public" then read == Ok(Some(AudienceEntry(Public)))
    else if v == "subscribers" then read == Ok(Some(AudienceEntry(Subscribers)))
    else if v == "private" then read == Ok(Some(AudienceEntry(Private)))
    else if StartsWith(v, "named:") then read == Supplied(r.audienceId(v[6..]), AUDIENCE, i => AudienceEntry(Named(i)))
    else read == Err(Malformed(AUDIENCE))
  }

  /** The value of the `k`th property reads as this. */
  predicate PropertyReads(r: Readers, k: nat, v: string, read: Result<Option<Entry>, OrgMetadataError>) {
    if k == 0 then read == Ok(Some(DateTimezoneEntry(v)))
    else if k == 1 then read == Ok(Some(StatusEntry(v)))
    else if k == 2 then AudienceReads(r, v, read)
    else if k == 3 then read == Supplied(r.slug(v), SLUG, s => SlugEntry(s))
    else if k == 4 then read == Supplied(r.format(v), FORMAT, f => FormatEntry(f))
    else if k == 5 then read == Supplied(r.postId(v), ID, i => IdEntry(i))
    else if k == 6 then read == Supplied(r.etag(v), SYNCED, t => SyncedEntry(t))
    else if k == 7 then read == Supplied(r.instant(v), SYNCED_AT, at => SyncedAtEntry(at))
    else read == Supplied(r.instant(v), DATE_UTC, at => DateUtcEntry(at))
  }

  /**
   A property line with a value supplies what its property's reader makes of the trimmed value,
   or is refused; a property of another name is left alone.
   */
  lemma ReadsProperty(r: Readers, key: string, name: string, value: string)
    requires ':' !in key && ToAsciiLowercase(key) == "property" && Inked(name) && !Text.Blank(value)
    ensures var read := ReadLine(r, PropertyLine(key, name, value));
            if ToAsciiLowercase(name) in PROPERTIES then
              exists k :: 0 <= k < 9 && ToAsciiLowercase(name) == PROPERTIES[k]
                          && PropertyReads(r, k, Trim(value), read)
            else read == Ok(None)
  {
    ReadsPropertyValue(r, key, name, value);
    if PropertyName(name).None? {
      UnknownName(name);
    } else {
      KnownName(name);
      var k := PropertyIndex(PropertyName(name).value);
      ValueReads(r, k, PropertyName(name).value, Trim(value));
    }
  }

  lemma ValueReads(r: Readers, k: nat, f: Field, v: string)
    requires k == PropertyIndex(f) && (k == 8 ==> f == DATE_UTC)
    ensures PropertyReads(r, k, v, match ParseProperty(r, f, v) case Ok(e) => Ok(Some(e)) case Err(e) => Err(e))
  {
  }
}
