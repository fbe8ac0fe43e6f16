/**
 `derive_post_naming` (`common/src/render.rs`): the title and the slug of a Post, and when
 the arm the program calls unreachable is reached.
 */
module Naming {
  import opened Wrappers
  import opened Text
  import opened PostText
  import opened Graphemes
  import opened Slug
  import opened SlugLaws
  import opened SlugSamples
  import opened Render
  import opened Titles
  import Summary
  import TitleSources

  datatype NamingError = InvalidTitle | UnreachableArm

  /** The slug seed: the title, or an untitled body's first line with content. */
  function Seed(title: Option<string>, body: string): string
    requires ValidBody(body)
  {
    match title
    case Some(t) => t
    case None => Summary.FirstMeaningfulLine(body)
  }

  function DerivePostNaming(u: Unicode, explicit: Option<string>, body: string, format: PostFormat)
    : Result<(Option<string>, string), NamingError>
    requires ValidBody(body)
  {
    match DerivedTitle(explicit, body, format)
    case Err(_) => Err(InvalidTitle)
    case Ok(title) =>
      match ParseSlug(u, Slugify(u, Seed(title, body)))
      case Some(slug) => Ok((title, slug))
      case None => Err(UnreachableArm)
  }

  lemma SeedIsTitleOrText(title: Option<string>, body: string)
    requires ValidBody(body)
    ensures TitleSources.Texts(Lines(body)) != []
    ensures Seed(title, body) ==
            match title
            case Some(t) => t
            case None => Summary.TruncateAtTextBoundary(TitleSources.Texts(Lines(body))[0], 100)
  {
    TitleSources.FirstText(Lines(body));
  }

  lemma NamingBySeed(u: Unicode, explicit: Option<string>, body: string, format: PostFormat)
    requires WellFormed(u) && ValidBody(body) && DerivedTitle(explicit, body, format).Ok?
    ensures var title := DerivedTitle(explicit, body, format).value;
            var seed := Seed(title, body);
            DerivePostNaming(u, explicit, body, format) ==
            if StrayMark(u, TitleClusters(u, seed)) then Err(UnreachableArm) else Ok((title, Slugify(u, seed)))
  {
    ValidatorAcceptsGenerated(u, Seed(DerivedTitle(explicit, body, format).value, body));
  }

  /**
   Naming yields the derived title. Its slug is generated from that title or, without one,
   from the first text of the body cut at 100 scalars; when this seed has a stray mark, the
   arm called unreachable is reached. A refused title is an error.
   */
  lemma NamingSucceeds(u: Unicode, explicit: Option<string>, body: string, format: PostFormat)
    requires WellFormed(u) && ValidBody(body)
    ensures TitleSources.Texts(Lines(body)) != []
    ensures DerivePostNaming(u, explicit, body, format) ==
            match DerivedTitle(explicit, body, format)
            case Err(_) => Err(InvalidTitle)
            case Ok(title) =>
              var text := TitleSources.Texts(Lines(body))[0];
              var seed := if title.Some? then title.value else Summary.TruncateAtTextBoundary(text, 100);
              if StrayMark(u, TitleClusters(u, seed)) then Err(UnreachableArm) else Ok((title, Slugify(u, seed)))
  {
    TitleSources.FirstText(Lines(body));
    match DerivedTitle(explicit, body, format)
    case Err(_) =>
    case Ok(title) =>
      SeedIsTitleOrText(title, body);
      NamingBySeed(u, explicit, body, format);
  }

  /** A valid title that reaches the arm called unreachable: a vowel sign after a tab. */
  lemma UnreachableArmIsReached(body: string, format: PostFormat)
    requires ValidBody(body)
    ensures WellFormed(Sample()) && ValidTitle(['a', '\t', SIGN])
    ensures DerivePostNaming(Sample(), Some(['a', '\t', SIGN]), body, format) == Err(UnreachableArm)
  {
    StrayMarkTitle();
    RefusedSlug();
    RefusedNaming(Sample(), ['a', '\t', SIGN], body, format);
  }

  lemma RefusedNaming(u: Unicode, title: string, body: string, format: PostFormat)
    requires ValidBody(body) && ParseSlug(u, Slugify(u, title)) == None
    ensures DerivePostNaming(u, Some(title), body, format) == Err(UnreachableArm)
  {
  }

  lemma StrayMarkTitle()
    ensures ValidTitle(['a', '\t', SIGN])
  {
    var title := ['a', '\t', SIGN];
    SignIsInk();
    GraphicIsNotWhitespace('a');
    TrimOfTrimmed(title);
    assert OneLine(title);
  }

  lemma SignIsInk()
    ensures !IsWhitespace(SIGN)
  {
    var above := WHITE_SPACE.rest.rest.rest.rest;
    assert Above(SIGN, above);
    AboveIsOutside(SIGN, above);
    assert !InRanges(SIGN, WHITE_SPACE.rest.rest);
  }
}
