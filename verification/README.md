# Jaunder: a verified model of its canonical forms

Jaunder is a self-hosted publishing server. This project models the parts of it whose
correctness rests on unbounded arguments, and proves what they are for:

- **Canonical byte encodings** (`Bytes`, `Etag`, `Sorting`, `ThemePool`, and the readers in
  `Readers`, `FeedReader`, `PoolReader`): the feed fingerprint and the header-image pool hash
  length-prefixed, tagged encodings. The pre-images determine their inputs, readers of their
  layout get every value back, and the pool does not depend on the order of its input. SHA-256
  is a parameter, and a claim about equal digests names the two pre-images on which it would
  have to collide.
- **Post bodies and titles** (`Text`, `PostText`, `Render`, `CanonicalLaws`, `BodyText`,
  `OrgIdempotence`, `Titles`, `TitleSources`, `Summary`, `Naming`): the line scanners that
  canonicalize a body, derive a title and cut a summary. Proved are fixed points, conservation of
  authored text, what is stored line by line, and the agreement of scanners that read the same
  lines by different rules.
- **Tags and Org metadata** (`Tags`, `Keywords`, `OrgHeader`, `OrgBlock`, `OrgLines`, `OrgFields`,
  `OrgNormalize`, `OrgRefusals`): splitting a source into header fields and body, how each header
  line reads, precedence of structured fields, the rules every accepted result meets, and the
  first rule every refused one breaks.
- **Slugs** (`Graphemes`, `Slug`, `SlugLaws`, `SlugHyphens`, `SlugSamples`): generation against the separate
  validator, over extended grapheme clusters. The Unicode tables are a parameter, constrained
  only by `Slug.WellFormed`; `SlugSamples` holds a table cut out of Unicode.
- **Duration budgets** (`Collector`, `CollectorLaws`, `ProjectIds`): a mutable collector whose
  final check compares only set sizes, over all call sequences, and the project-id allocator.
- **Code highlighting** (`Quasiquote`, `CodeLines`): the explicit-stack quasiquote walk, the
  line-ending repair, and the admission budget.
- **Text codecs** (`Decimal`, `Civil`, `SqliteTime`, `Routes`, `Mailbox`): dates, stored
  instants, permalink and header-selection routes, display names.

Code that works step by step is a method or a class with loops, proved against a specification
function; the laws are lemmas about those functions. Text is a sequence of Unicode scalar
values, and bytes are integers below 256. Check everything with `dafny verify dfyconfig.toml`.

## Where the code and its documentation differ

The model follows the code.

- `common/src/render.rs:874-885` calls Org canonicalization idempotent. It is not: a `* `
  heading below a `#+TITLE:` line survives the first pass and is removed by the second
  (`OrgPassIsNotIdempotent`). `OrgIdempotence` gives the exact condition on the lines of the
  body, and `OrgSecondPass` shows what else happens and that repetition ends. Whitespace
  normalization alone repeats itself exactly when the trimmed body holds no CR CR LF
  (`NormalizeIdempotence`).
- Canonicalization removes every `#+title:` line of an Org header, but the scanner publishes only
  the first one with text, and none behind a `#+` line without a colon (`PublishedTitle`). Any
  later one is lost (`LaterTitleIsLost`).
- `common/src/slug.rs:83-84` says a generated slug always re-parses, and
  `common/src/render.rs:784-786` calls the other case unreachable. The title made of the letter
  a, a tab and the Devanagari vowel sign U+093F reaches it (`RefusedSlug`,
  `UnreachableArmIsReached`): the tab becomes a hyphen, and the sign, which is alphabetic,
  attaches to that hyphen when the slug is segmented again. `ValidatorAcceptsGenerated` gives
  the exact condition on the title; `GeneratorIsIdempotent` fails for the same titles.
- Extended clusters let a prepended letter such as U+0D4E take in what follows it. So a generated
  slug can hold two hyphens in a row (`DoubledSlug`, exactly when: `SlugIsTidy`), and an accepted
  slug can hold a slash (`SlashedSlug`, exactly when: `SlashInSlug`), in which case its permalink
  path does not parse back (`SlashedRoute`, exactly when: `CanonicalPathRoundTrip`).
- The header-selection spelling of a permalink equals its canonical path exactly for years from
  0000 on (`SpellingsAgree`). Stored instants sort chronologically unless both lie before the
  year 0000 in different years, where they sort backwards (`TextOrderExactly`).
- A structured schedule is never compared with the clock (`StructuredScheduleIsUnchecked`), so a
  request with one in the past is accepted (`PastScheduleIsAccepted`); a schedule in an Org
  header is compared.
- With a structured title, a leading heading that canonicalization removes is stored neither as
  title nor in the body (`NormalizedBody`).

## Model

| member | source | states |
|---|---|---|
| Bytes.FrameCancels | host/src/etag.rs:188-191 | A length prefix makes a value self-delimiting: equal streams that start with framed values start with equal values and go on equally. |
| Etag.Hasher.WriteBytes | host/src/etag.rs:188-191 | Feeds the hasher the 64-bit length and then the bytes, which together are one framed field. |
| Etag.Hasher.WriteOptionalString | host/src/etag.rs:169-177 | Feeds one tagged optional field: a zero byte, or a one byte and the framed text. |
| Etag.Hasher.WriteTimestamp | host/src/etag.rs:183-186 | Feeds the signed seconds and signed nanoseconds, in fixed width. |
| Etag.Hasher.WriteDeclarationIdentity | host/src/etag.rs:160-167 | Feeds year, author name and license token of a copyright declaration, in that order. |
| Etag.WriteItems | host/src/etag.rs:136-156 | The item loop with its inner tag loop feeds exactly the fields of the items in order. |
| Etag.SemanticFingerprintWithRevision | host/src/etag.rs:114-158 | The imperative hasher returns the digest of the specified pre-image. |
| Etag.ComputeFeedEtag | host/src/etag.rs:103-112 | The ETag is the quoted digest of domain, fingerprint and representation time. |
| Etag.FieldsCancel | host/src/etag.rs:169-191 | Streams of fields of one shape are equal only if the fields are equal, whatever follows them. |
| Etag.PreimageIsUniquelyDecodable | host/src/etag.rs:114-191 | Two feeds have one pre-image if and only if format, revision, metadata, item count, item order and every item field agree, up to representation time and author kind. |
| Etag.EqualEtagsMeanEqualFeeds | host/src/etag.rs:88-112 | Equal ETags mean equal feeds and equal representation times, unless the digest function collides on the streams of these two feeds or on the streams of these two tags. |
| Etag.AuthorKindIsNotIdentity | host/src/etag.rs:160-167 | A display name and a login name that read the same give different items with the same pre-image. |
| FeedReader.FeedIsReadable | host/src/etag.rs:114-191 | A reader of the stream's layout returns every feed's format, revision, metadata and, item by item, id, year, author name, license, titles, permalink, summary, content, both times and tags, each at its place, and nothing behind the last item. |
| FeedReader.TagIsReadable | host/src/etag.rs:103-112 | The stream behind an ETag reads back as the fingerprint and the representation time. |
| FeedReader.EtagIsOfTag | host/src/etag.rs:103-112 | The ETag is a quoted entity tag that spells the digest of a stream that reads back so. |
| FeedReader.LicenseIsNamed | common/src/content_license.rs:12-31 | The token fed for each license is the one that names it. |
| ThemePool.HexDigestBytes | common/src/theme.rs:407-424 | The in-place loop over 32 bytes reads a digest text exactly. |
| ThemePool.DigestHexText | common/src/theme.rs:426-433 | Writes each byte as two lowercase hex digits, in order. |
| ThemePool.HexOfBytes | common/src/theme.rs:407-433 | Spelling the bytes read from a lowercase hex text gives that text back. |
| ThemePool.BytesOfHex | common/src/theme.rs:407-433 | Reading the spelled bytes gives the bytes back. |
| ThemePool.EncodingCancels | common/src/theme.rs:259-279 | The canonical encoding of pool entries is injective and prefix-free at once. |
| ThemePool.LexExactly | common/src/theme.rs:312-312 | One encoding sorts before another if and only if it is a proper prefix of it or holds the smaller byte where they first differ. |
| Sorting.SortedUnique | common/src/theme.rs:312-312 | Under a total order a multiset has only one sorted listing. |
| Sorting.SortedDuplicatesAreAdjacent | common/src/theme.rs:313-318 | In a sorted list some neighbours are equal exactly when any two elements are. |
| ThemePool.CreatePool | common/src/theme.rs:308-330 | Sorting, adjacent-pair check and hashing loop return the specified pool or error. |
| ThemePool.PoolVerdict | common/src/theme.rs:308-318 | Empty input and input with two equal entries are rejected, nothing else is; an accepted pool is the strictly ascending permutation of the input. |
| ThemePool.PoolIgnoresOrder | common/src/theme.rs:299-330 | Any permutation of the entries gives the same pool, the same revision and the same refusal. |
| ThemePool.PoolPreimageInjective | common/src/theme.rs:319-325 | Different entry lists have different revision pre-images. |
| ThemePool.RevisionIdentifiesPool | common/src/theme.rs:319-329 | Accepted pools with one revision hold the same entries, unless the digest function collides on the pre-images of these two pools. |
| PoolReader.PoolIsReadable | common/src/theme.rs:259-325 | The bytes behind a revision read back as the pool's entries, in order, with kind, path, source, digest and file name. |
| PoolReader.RevisionIsOfEntries | common/src/theme.rs:319-329 | The revision of an accepted pool spells the digest of a stream that reads back as its entries. |
| ThemePool.Select | common/src/theme.rs:343-366 | The byte loop, in the width of `usize`, picks the specified entry, within the pool; `PoolReader.SelectionIsRead` says which one that is. |
| ThemePool.NoOverflow | common/src/theme.rs:343-366 | No loop step can overflow if and only if the pool size is at most 2^56 with 64-bit sizes, 2^24 with 32-bit sizes. |
| ThemePool.RemainderIsModulus | common/src/theme.rs:343-366 | The byte-wise remainder equals the digest as one big-endian number modulo the pool size. |
| PoolReader.AssignmentIsReadable | common/src/theme.rs:343-366 | The bytes hashed for a choice read back as route, published revision, pool revision and seed, in this order. |
| PoolReader.AssignmentsDiffer | common/src/theme.rs:343-366 | Two choices hash the same bytes if and only if these four agree. |
| PoolReader.ReadingIsUnique | common/src/theme.rs:343-366 | Only one byte string reads back as given four. |
| PoolReader.SelectionIsRead | common/src/theme.rs:343-366 | The chosen entry is the one at the digest, as one number, modulo the pool size, where the digest is that of the one stream that reads back as these four. |
| PoolReader.DefaultIsRead | common/src/theme.rs:368-395 | The packaged default is the entry so chosen from the supplied paths, with a seed of zeros. |
| ThemePool.PackagedDefault | common/src/theme.rs:372-395 | The packaged default is a supplied path, absent exactly when the list is missing, empty or has a duplicate. |
| ThemePool.PackagedDefaultIgnoresOrder | common/src/theme.rs:368-395 | Reordering the supplied paths does not change the default. |
| ThemePool.WidthsAgree | common/src/theme.rs:368-395 | A 64-bit server and a 32-bit browser choose the same default among up to 2^24 paths. |
| PostText.BodyDoor | common/src/post_body.rs:65-70 | A body is accepted, verbatim, exactly when some scalar of it is not whitespace. |
| PostText.TitleDoor | common/src/post_title.rs:62-73 | Every parsed title parses to itself. |
| PostText.TitleIsExact | common/src/post_title.rs:62-73 | A text parses as a title if and only if it is that title, one line with text at both ends, between whitespace that breaks no line. |
| PostText.JoinedTitlesAreRejected | common/src/post_title.rs:65-67 | Two or more title lines joined by LF never parse. |
| Render.NormalizeBodyWhitespace | common/src/render.rs:960-973 | The loop returns the specified normalization. |
| Render.NormalizeKeepsInk | common/src/render.rs:941-973 | Normalization keeps every non-whitespace scalar, in order. |
| Render.MarkdownNeverErrs | common/src/render.rs:986-995 | Canonicalizing a valid Markdown body always succeeds. |
| Render.NormalizeShape | common/src/render.rs:960-973 | A normalized body is LF-terminated lines, the first not blank, the last ending in ink. |
| CanonicalLaws.NormalizeIdempotence | common/src/render.rs:941-973 | Normalizing twice equals normalizing once if and only if the trimmed body holds no CR CR LF. |
| Render.CanonicalizeOrgBody | common/src/render.rs:895-939 | The header state machine keeps exactly the declaratively specified lines, or errs when nothing is left. |
| CanonicalLaws.CanonicalizeOrgShape | common/src/render.rs:895-939 | A pass errs exactly when no line is left; otherwise it stores canonical lines. |
| OrgIdempotence.OrgIdempotence | common/src/render.rs:873-939 | A second pass changes nothing if and only if the lines of the authored body leave no title line or heading for it, and no authored line between the first and the last text ends with two CRs. |
| OrgIdempotence.StoredExactly | common/src/render.rs:895-939 | A body is stored if and only if some line that is no title source has text. |
| CanonicalLaws.OrgSecondPass | common/src/render.rs:873-895 | A stored body is a fixed point exactly when it has no header title line, no leading heading and no CR before an LF; else another pass errs or strictly shortens it. |
| CanonicalLaws.SettledForm | common/src/render.rs:895-939 | Iterating the pass terminates, at an error or at a fixed point. |
| CanonicalLaws.HeadingUnderTitle | common/src/render.rs:895-939 | Every body made of a title line, a heading and text loses the title in one pass and the heading in the next. |
| CanonicalLaws.OrgPassIsNotIdempotent | common/src/render.rs:874-885 | A concrete body on which two passes differ from one. |
| CanonicalLaws.OrgKeepsAuthoredInk | common/src/render.rs:873-939 | A pass stores, in order, all non-whitespace text of all lines but header title lines and at most one heading; it errs exactly when those lines are blank. |
| BodyText.RemovedExactly | common/src/render.rs:895-939 | An Org pass removes a line if and only if it is a title keyword with only keywords and blank lines before it, or a heading with only blank lines before it. |
| BodyText.NormalizedText | common/src/render.rs:941-973 | Normalization keeps the text from its first line with text to its last scalar that is text, drops each CR directly in front of an LF there, and adds one LF. |
| BodyText.CutOf | common/src/render.rs:941-973 | Every body with text has such a part; of any other nothing is stored. |
| BodyText.StoredByFormat | common/src/render.rs:986-996 | HTML is stored as it stands, Markdown normalized, Org normalized without the removed lines; only a body that leaves no text is refused. |
| Titles.ExtractOrgTitle | common/src/render.rs:826-871 | The Org scanner's loop finds the specified title and remaining lines. |
| Titles.ExtractMarkdownTitle | common/src/render.rs:802-824 | The Markdown scanner's loop finds the first `# ` line and the remaining lines. |
| TitleSources.TextsOfTrim | common/src/render.rs:751-789 | Trimming a body leaves its lines with content, each trimmed, the same and in order. |
| Titles.FoundTitlesHaveText | common/src/render.rs:826-871 | A title the Org scanner finds is trimmed and not empty. |
| TitleSources.PublishedTitle | common/src/render.rs:751-871 | The title derived from an Org body is the first header title line with text, unless a `#+` line without a colon comes first; without either it is the text of a heading right behind the header. |
| TitleSources.PublishedMarkdownTitle | common/src/render.rs:751-824 | The title derived from a Markdown body is the trimmed rest of the first line with text that starts with a mark and a space, none if there is no such line, an error if that rest is no title. |
| TitleSources.NoTitleToDerive | common/src/render.rs:751-789 | An explicit title is used as it stands, and an HTML body derives none. |
| TitleSources.MarkdownLeaves | common/src/render.rs:802-824 | The Markdown scanner takes the first heading line out of a text and drops the blank lines in front of it; it refuses exactly the texts without one. |
| TitleSources.OrgLeaves | common/src/render.rs:826-871 | The Org scanner leaves exactly the lines behind the one that gives the title. |
| TitleSources.LaterTitleIsLost | common/src/render.rs:826-939 | A header title line behind the line that decides the title is in neither the stored body nor the title: changing its value changes neither. |
| TitleSources.SecondTitleIsLost | common/src/render.rs:826-939 | Every body made of two title lines with text and a line of text publishes the first and stores only that line. |
| TitleSources.TwoTitles | common/src/render.rs:826-939 | A concrete such body. |
| TitleSources.ScannersAgree | common/src/render.rs:751-939 | When canonicalization removes a leading heading, the title derived from the same body is exactly that heading's text; no text means no title, and a separator inside means an error. |
| Summary.TruncationLaw | common/src/post_summary.rs:80-110 | The cut is a trimmed, non-empty prefix within the cap, ends at the last sentence, else the last word break, else the cap, and gives up nothing else. |
| Summary.SummaryAndSeedAgree | common/src/post_summary.rs:58-71 | Trim-then-split and scanning all lines select and cut the same text of every valid body. |
| Summary.DerivedSummariesAreValid | common/src/post_summary.rs:47-71 | Both derived doors yield values the parser accepts unchanged; a title of at most 500 scalars is its own summary. |
| Summary.TruncateAtFirstSentence | common/src/post_summary.rs:129-157 | The closing-punctuation loop returns the specified cut. |
| Summary.FirstSentenceSettles | common/src/post_summary.rs:122-157 | For every text the cut is a prefix within the cap, and cutting it again changes nothing. |
| Summary.FirstSentenceIsCut | common/src/post_summary.rs:122-157 | With a terminator within the cap, the cut falls behind the first one and the closing quotes and brackets that follow it. |
| Summary.WordIsCut | common/src/post_summary.rs:122-157 | Without one, a short text is kept whole and a long one up to its last word break, or the cap when it has none. |
| Naming.NamingSucceeds | common/src/render.rs:751-789 | Naming returns the derived title and the slug of its seed, which is that title or else the first text of the body cut at 100 scalars; a seed with a stray mark reaches the arm called unreachable, and a refused title is an error. |
| Naming.UnreachableArmIsReached | common/src/render.rs:780-788 | A valid title for which naming reaches the arm called unreachable. |
| Graphemes.SegmentedIsClusters | common/src/text.rs:19-31 | A text has one segmentation: clusters that each take in their scalars, and none of which takes in the start of the next. |
| Graphemes.TruncateByGraphemes | common/src/text.rs:19-31 | The budget loop returns the specified whole-cluster prefix. |
| Graphemes.FittingIsLongest | common/src/text.rs:5-31 | That prefix is within the budget, and one more cluster would not be. |
| Slug.SlugifyTitle | common/src/slug.rs:86-115 | The loop, trim and truncation pipeline returns the specified slug. |
| SlugLaws.SlugDoor | common/src/slug.rs:42-70 | What the validator returns, it returns unchanged. |
| SlugLaws.SlugIsExact | common/src/slug.rs:42-70 | However the normalized text falls into clusters, it is accepted if and only if it is not empty, within 80 scalars, and every cluster is a letter's or digit's or a bare hyphen behind the first. |
| SlugHyphens.SlugTextIsLetters | common/src/slug.rs:86-105 | Before the cap, a slug is the clusters of letters and digits in order, with one hyphen behind each that has something else behind it. |
| SlugHyphens.FallbackExactly | common/src/slug.rs:105-115 | The slug is a non-empty prefix of that text, unless no letter or digit is kept: then, and only then, it is the fallback. |
| SlugHyphens.LetterKept | common/src/slug.rs:86-115 | A letter or digit of the title reaches the slug if and only if its cluster, with the hyphen and marks it takes in, ends within the cap of 80 scalars. |
| SlugHyphens.SlugIsTidy | common/src/slug.rs:86-115 | A generated slug is non-empty, at most 80 scalars, with no leading or trailing hyphen; it holds a doubled hyphen if and only if a letter's cluster in the title ends with its own hyphen, something other than a letter or digit follows, and a letter or digit behind that is kept. |
| SlugHyphens.TidyTitles | common/src/slug.rs:79-115 | A title in which no letter's cluster ends with a hyphen of its own makes a slug without doubled hyphens. |
| SlugLaws.ValidatorAcceptsGenerated | common/src/slug.rs:42-115 | The validator returns a generated slug unchanged if and only if the title has no stray mark: a letter or digit that the hyphen before it takes in, while nothing takes in that hyphen, within the cap. |
| SlugLaws.GeneratorIsIdempotent | common/src/slug.rs:79-115 | Generating a slug from a generated slug changes nothing if and only if the title has no stray mark. |
| SlugLaws.SafeTitles | common/src/slug.rs:79-115 | A title in which no letter or digit is taken in by a hyphen has no stray mark. |
| SlugSamples.SampleIsWellFormed | common/src/slug.rs:42-115 | A table cut out of Unicode, with a prepended letter, a combining mark and composing Hangul, meets every assumption made of Unicode. |
| SlugSamples.RefusedSlug | common/src/slug.rs:79-115 | A concrete title whose generated slug the validator refuses and whose slug generates another. |
| SlugSamples.SheltersMark | common/src/slug.rs:42-115 | The same mark behind a prepended letter and a tab: the generated slug is accepted. |
| SlugSamples.DoubledSlug | common/src/slug.rs:79-115 | A concrete title whose generated, accepted slug holds two hyphens in a row. |
| SlugSamples.SlashedSlug | common/src/slug.rs:42-115 | A concrete title whose generated, accepted slug holds a slash. |
| SlugSamples.ComposedSlug | common/src/slug.rs:42-115 | Conjoining jamo compose before anything is cut, and the slug is accepted. |
| Tags.NormalizeKeyword | common/src/tag.rs:102-126 | The folding loop returns the specified label or refusal. |
| Tags.KeywordsSettle | common/src/tag.rs:85-126 | Every accepted keyword is an ASCII label that parses to itself and that normalization leaves alone. |
| Keywords.AsciiKeywords | common/src/tag.rs:85-126 | Every ASCII term is accepted if and only if what is left inside its outer separators, and then inside vertical tabs, starts with a letter or digit and holds only letters, digits, punctuation and other whitespace; says which label results. |
| Keywords.OtherKeywords | common/src/tag.rs:85-126 | A term with other scalars is accepted if and only if those are whitespace around a label, which it then is. |
| Keywords.InnerVtCut | common/src/tag.rs:85-126 | A vertical tab between an outer separator and the first letter is dropped from the label. |
| Keywords.InnerVtRefused | common/src/tag.rs:85-126 | With a separator behind that vertical tab the term is refused. |
| Tags.ParseAndValidateTags | common/src/tag.rs:179-198 | The loop with its set returns the specified list, or the count that exceeds the cap. |
| Tags.ValidatedTags | common/src/tag.rs:163-198 | Accepted lists hold the first label of each slug with distinct slugs and no slug lost; a list is refused exactly beyond 256 distinct slugs. |
| Tags.FirstsAreFirst | common/src/tag.rs:184-191 | The kept positions are in order and are exactly those whose slug did not occur before. |
| OrgHeader.HeaderFields.ParseHeaderKeyword | common/src/org.rs:265-288 | Records exactly the field a line supplies, reports whether it was handled, and errs on a malformed line or a second single field. |
| OrgHeader.TitleText | common/src/org.rs:265-303 | Only a title line supplies a title, which is trimmed and not empty. |
| OrgLines.ReadsText | common/src/org.rs:290-341 | A title, description or date line, in any case, supplies its trimmed value; a blank one is refused; a line of any other keyword supplies nothing. |
| OrgLines.ReadsNothing | common/src/org.rs:290-345 | A line without the mark or without a colon supplies nothing. |
| OrgLines.TermsOfValue | common/src/org.rs:305-319 | The terms of a keywords line are what stands between its commas. |
| OrgLines.ReadsKeywords | common/src/org.rs:305-319 | A keywords line supplies the label of every term with text, in order; no such term, or one that makes no label, is refused. |
| OrgLines.ReadsProperty | common/src/org.rs:347-473 | A property line supplies what the reader of its property, named in any case, makes of the trimmed value; an unreadable value is refused and an unknown name is left alone. |
| OrgRefusals.ReadsBareProperty | common/src/org.rs:347-396 | A known property without a value is refused; an unknown one is left alone. |
| OrgBlock.ScanSource | common/src/org.rs:210-228 | The offset loop over lines returns the specified fields and body lines. |
| OrgBlock.ScanPartitions | common/src/org.rs:215-288 | The loop succeeds if and only if no header line is malformed and no single field repeats; then every line is consumed once before the header end or kept in order, and the fields hold exactly the consumed entries. |
| OrgRefusals.HeaderLines | common/src/org.rs:215-228 | A line counts as a header line if and only if the text before it is shorter, in UTF-8, than the header. |
| OrgRefusals.FirstRefusedLine | common/src/org.rs:215-288 | A header is refused with the error of its first malformed line or for the first single field that repeats, whichever comes first. |
| OrgBlock.ParseLeadingBlock | common/src/org.rs:210-263 | Scanning and assembling return the specified block or error. |
| OrgBlock.HeaderTitle | common/src/org.rs:234-242 | A header title exists exactly when there is one title line, and is its trimmed value; two title lines are always refused. |
| OrgBlock.HeaderTags | common/src/org.rs:252-257 | Header tags are the first label of each slug over all keyword lines, in order, distinct, none lost, at most 256. |
| OrgBlock.HeaderBodyAndLifecycle | common/src/org.rs:210-263 | The body is the unconsumed lines; a published header instant is not after the clock and a scheduled one is after it. |
| OrgBlock.UntouchedSource | common/src/org.rs:215-231 | A source whose header holds no field is its own body, without a final LF. |
| OrgFields.HeaderLifecycle | common/src/org.rs:475-501 | An accepted header is absent, draft, scheduled at an instant or published at an instant exactly when its one status, in any case, and its date and zone say so: a draft is undated, a schedule lies after the clock, a publication not, and an undated one is at the clock. |
| OrgFields.HeaderRest | common/src/org.rs:210-263 | Summary, audiences and each bookkeeping value of an accepted block are what its header lines say. |
| OrgFields.BlockVerdict | common/src/org.rs:210-263 | A block is accepted if and only if no header line is malformed, no single field repeats, there is at most one title and it is one line, the descriptions make a summary, the tags fit the cap, and the lifecycle is allowed. |
| OrgRefusals.BlockRefusal | common/src/org.rs:210-263 | Otherwise it is refused for the first of these rules it breaks, and a lifecycle for the rule it breaks. |
| OrgNormalize.MarkedBody | common/src/org.rs:563-582 | The marker line is never stored; it changes the result exactly when a leading heading would have been removed, and then that heading is kept first. |
| OrgNormalize.NormalizedMetadata | common/src/org.rs:126-171 | Every accepted result has no published instant after the clock, no mixed private audience and no refused bookkeeping; its lifecycle is on time if and only if the structured one is. |
| OrgNormalize.NormalizedFields | common/src/org.rs:126-171 | Summary, tags, audiences and lifecycle are the structured ones where present, else the header's; bookkeeping is the header's. |
| OrgNormalize.NormalizedVerdict | common/src/org.rs:126-171 | A request is accepted if and only if no structured publication lies in the future, the header block is accepted and fits the operation, the unconsumed lines can be stored, and a private audience stands alone. |
| OrgRefusals.NormalizedRefusal | common/src/org.rs:126-171 | Otherwise it is refused for the first of these rules it breaks, in this order. |
| OrgNormalize.StructuredScheduleIsUnchecked | common/src/org.rs:126-171 | An accepted request stays accepted, with that lifecycle and nothing else changed, when any schedule at all is structured into it. |
| OrgNormalize.PastScheduleIsAccepted | common/src/org.rs:538-548 | A concrete request with a schedule before the clock is accepted. |
| OrgNormalize.UnreachableExactly | common/src/org.rs:126-171 | A request reaches the arm called unreachable if and only if nothing is refused before and the unconsumed lines, under the marker, have a slug seed with a stray mark. |
| OrgNormalize.NormalizedTitle | common/src/org.rs:136-145 | The title is the structured one, else the only header title, else the one derived from the body text. |
| OrgNormalize.NormalizedBody | common/src/org.rs:126-171 | The stored body holds, in order, all non-whitespace text of the unconsumed lines but leading title lines and, without a header title, one heading, whose text is then the title exactly when no title is structured. |
| Collector.DurationBudgetManifestCollector.constructor | end2end/durationBudgetManifest.ts:65-74 | The discovery loop builds the specified state; a repeated id makes it incomplete. |
| Collector.DurationBudgetManifestCollector.Invalidate | end2end/durationBudgetManifest.ts:76-78 | Only completeness is lost. |
| Collector.DurationBudgetManifestCollector.ObserveAttempt | end2end/durationBudgetManifest.ts:80-91 | Adds a new non-negative integer retry of a known test, else makes the run incomplete. |
| Collector.DurationBudgetManifestCollector.RecordBudget | end2end/durationBudgetManifest.ts:93-116 | Records an observed, unrecorded retry with a finite positive timeout, else makes the run incomplete. |
| Collector.DurationBudgetManifestCollector.ManifestOf | end2end/durationBudgetManifest.ts:118-139 | Returns the specified manifest and leaves the attempts of the checked tests sorted in place, also when it returns none. |
| CollectorLaws.ManifestIsSound | end2end/durationBudgetManifest.ts:60-140 | Over every call sequence a manifest lists exactly the discovered tests, which have distinct ids, each with exactly the observed retries, once, strictly ascending, with finite positive timeouts. |
| CollectorLaws.DistinctIdsLaw | end2end/durationBudgetManifest.ts:65-74 | A list of discovered tests has distinct ids, as the manifest laws say it recursively, exactly when no two positions share one. |
| CollectorLaws.IncompleteForever | end2end/durationBudgetManifest.ts:64-119 | Once incomplete, no further calls yield a manifest. |
| CollectorLaws.SameSizeSubset | end2end/durationBudgetManifest.ts:123-130 | A recorded subset of the observed retries with the same size is all of them. |
| CollectorLaws.CompleteMeansClean | end2end/durationBudgetManifest.ts:76-116 | A complete state has seen no invalidation, no repeated observation and no unknown test. |
| CollectorLaws.OnTestEnd | end2end/durationBudgetManifest.ts:265-295 | Observes the attempt and records its attachment, or a zero timeout when that is missing, doubled or another attempt's. |
| CollectorLaws.ManifestIff | end2end/durationBudgetManifest.ts:226-305 | A reporter run yields a manifest if and only if discovery was complete without repeated ids, every end event is good and new, and every test ended. |
| CollectorLaws.SessionReports | end2end/durationBudgetManifest.ts:226-305 | When a run yields a manifest, its reports follow the discovered tests, and a retry with a timeout is listed, once and in ascending order, if and only if some end event of that test carries one attachment of that retry with exactly that timeout. |
| ProjectIds.SearchIsBounded | end2end/durationBudgetManifest.ts:148-154 | By pigeonhole, a suffix search passes at most as many taken candidates as ids are assigned. |
| ProjectIds.FindFreeId | end2end/durationBudgetManifest.ts:148-154 | The unbounded loop terminates at the first free candidate. |
| ProjectIds.ResolvedProjectIds | end2end/durationBudgetManifest.ts:144-157 | Every project gets a distinct id, the first free candidate of its name. |
| Quasiquote.ElispQuotedSymbols | host/src/code_highlight.rs:482-525 | The explicit-stack walk returns exactly the symbols marked by inherited-mode semantics. |
| Quasiquote.AnyOrder | host/src/code_highlight.rs:496-523 | Whatever pending entry is handled at each step, an emptied list has found the same symbols. |
| Quasiquote.MarkedByPath | host/src/code_highlight.rs:482-525 | A start is marked if and only if some chain of named children leads to a symbol there outside evaluated mode. |
| Quasiquote.DepthIsPositive | host/src/code_highlight.rs:504-514 | Depth is never below one in quasiquote mode. |
| Quasiquote.QuotedAbsorbs | host/src/code_highlight.rs:498-517 | Everything below a literal quote is quoted. |
| Quasiquote.ModeIsDepth | host/src/code_highlight.rs:498-517 | Along a chain the mode is quoted exactly when a literal quote is on it, else the saturating count of backquotes minus unquotes. |
| Quasiquote.DepthIsLargestSurplus | host/src/code_highlight.rs:498-517 | That count is the largest surplus over any lower part of the chain, so nesting bounds it. |
| Quasiquote.QuotedExactly | host/src/code_highlight.rs:482-525 | The walk finds a start if and only if a symbol there stands below a literal quote, or below nodes the lowest of which hold more backquotes than unquotes. |
| CodeLines.LineIsRepaired | host/src/code_highlight.rs:527-536 | A rendered line gets back exactly the separator of its authored line. |
| CodeLines.AuthoredHighlightedLines | host/src/code_highlight.rs:567-582 | The line loop returns the specified repair, or nothing when the renderer gave too few lines. |
| CodeLines.UnpairedSomewhere | host/src/code_highlight.rs:538-543 | The window test finds exactly the carriage returns that no LF follows. |
| CodeLines.RepairedLines | host/src/code_highlight.rs:527-582 | Joining repaired lines gives back the source exactly when no line's CR LF follows another CR; otherwise it is shorter. |
| CodeLines.SourceIsReproduced | host/src/code_highlight.rs:527-582 | Without unpaired carriage returns the repaired lines join to the authored source, whatever lines the renderer adds. |
| CodeLines.HighlightBudget.Admit | host/src/code_highlight.rs:592-613 | Admits a block exactly within all three limits, counts only admitted blocks, and never underflows. |
| CodeLines.AdmittedWithinLimits | host/src/code_highlight.rs:592-613 | The admitted blocks of any Post stay within the byte, attempt and block limits. |
| Civil.CivilFromDaysInverse | common/src/time.rs:137-145 | Day numbers and proleptic Gregorian dates are inverse. |
| Civil.EpochIsZero | common/src/time.rs:287-310 | Day numbers count from the Unix epoch. |
| Civil.DayNumberMonotone | common/src/time.rs:137-145 | Day numbers follow the calendar order. |
| Civil.DayNumberIsMarchNumber | common/src/time.rs:137-145 | The day number of every date is the closed form counted from 1 March. |
| Civil.DatesExactly | common/src/time.rs:137-145 | A month from 1 to 12 has exactly the days from 1 up to the first of the next month, by that closed form. |
| Civil.DayAfter | common/src/time.rs:137-145 | The day after a date is the next of its month, or the first of the next month. |
| Civil.ParseDecimal | common/src/time.rs:120-130 | The digit loop reads a number, or refuses, without overflow. |
| Civil.WithinI32 | common/src/time.rs:120-130 | Up to nine digits never exceed a 32-bit signed integer. |
| Civil.ReaderIsExact | common/src/time.rs:99-118 | The reader accepts exactly the canonical ISO 8601 spelling of each real date in the years -9999 to 9999, and reads that date. |
| SqliteTime.EncodeSqlite | common/src/time.rs:289-310 | The encoder writes the specified text: fraction width, offset in place of the Z. |
| SqliteTime.WidthIsEnough | common/src/time.rs:293-302 | The fraction is written with the fewest of 0, 3, 6 and 9 digits that leave out only zeros, also before the epoch, where the sub-second part is negative. |
| SqliteTime.TextOrderExactly | common/src/time.rs:287-310 | One stored text sorts before another if and only if its instant is earlier, except that instants in different years before 0000 sort exactly backwards. |
| SqliteTime.BackwardInstants | common/src/time.rs:287-310 | Midnight of 1 January in the years -0002 and -0001: the later instant sorts first. |
| SqliteTime.TextRoundTrip | common/src/time.rs:287-332 | Reading the stored text gives the instant back, to the nanosecond, in every supported year. |
| Routes.CanonicalPathRoundTrip | common/src/permalink_route.rs:28-64 | Splitting a canonical path and parsing its segments gives back the route if its slug holds no slash, and nothing otherwise, for every valid route. |
| Routes.ParsedRoutesAreValid | common/src/permalink_route.rs:28-49 | Every route the parser returns is valid: its username and slug parse to themselves. |
| Routes.RouteIsExact | common/src/permalink_route.rs:28-49 | Five texts parse as a route if and only if they are a username, a 32-bit year with or without a sign, an unsigned month and day that make a real date, and a slug; the username is lowercased. |
| Routes.SplitOfJoin | common/src/permalink_route.rs:51-64 | Splitting at slashes gives back the separator-free segments a path was joined from. |
| Routes.JoinOfSplit | common/src/permalink_route.rs:51-64 | Joining the segments of any path gives back the path. |
| Routes.SlashInSlug | common/src/slug.rs:42-70 | An accepted slug holds a slash if and only if the cluster of one of its letters or digits takes one in. |
| Routes.SlashedSlugs | common/src/slug.rs:42-70 | Some slug with a slash is accepted if and only if some cluster of a letter or digit takes in a slash. |
| Routes.SlashedRoute | common/src/permalink_route.rs:28-64 | A concrete valid route whose canonical path does not parse back. |
| Routes.SpellingInjective | common/src/theme.rs:192-238 | Across all five constructors, different public routes never share a spelling, also when their slugs hold slashes. |
| Routes.SpellingsAgree | common/src/theme.rs:216-236 | The header-selection spelling of a permalink is its canonical path if and only if its year is not negative. |
| Mailbox.DecodeDisplayName | common/src/mailbox.rs:83-107 | The unescaping loop returns the specified name, absence or error. |
| Mailbox.WriteQuotedDisplayName | common/src/mailbox.rs:114-123 | The printing loop writes the escaped name between quotes. |
| Mailbox.DecodeOfPrinted | common/src/mailbox.rs:83-136 | Decoding the printed form of any valid name gives that name. |
| Mailbox.DecodedNamesSettle | common/src/mailbox.rs:83-136 | Every name decoding accepts is valid, re-prints and decodes to itself. |
| Mailbox.DecodedExactly | common/src/mailbox.rs:83-107 | A blank display part is no name; any other is what it spells, each escaped scalar without its backslash, trimmed, and is refused if and only if that is blank or longer than 255 scalars. |
| Mailbox.EveryPartSpells | common/src/mailbox.rs:83-107 | Every display part spells some text in that sense, so the verdict covers them all. |
| Mailbox.PrintedPlainly | common/src/mailbox.rs:109-123 | A name is printed without quotes if and only if it consists of spaces, tabs and visible ASCII other than the specials of section 3.2.3 of RFC 5322. |
| Mailbox.EscapesSparingly | common/src/mailbox.rs:114-123 | No shorter quoted text that closes at its last quote decodes to the name. |
| Mailbox.PrintedIsReadable | common/src/mailbox.rs:125-136 | A printed mailbox is its address, or a part that decodes to the name and the address in angle brackets. |
| Mailbox.ReadOfEscape | common/src/mailbox.rs:114-123 | The closing quote of a printed name is its first unescaped one, whatever follows. |
| Mailbox.PrintedIsInjective | common/src/mailbox.rs:125-136 | Two valid mailboxes that print alike are equal. |

## Left out

- Unicode tables, lowercasing, NFC and the rules of grapheme segmentation: they are parameters. Segmentation is any rule by which the cluster read so far takes in the next scalar or not; of the tables only what `Slug.WellFormed` says is assumed, and every lemma that assumes it says so.
- SHA-256 itself: digests are arbitrary functions, and claims about equal digests allow for a collision on the named pre-images. That none is known is not part of this model.
- `PostContentEtag` (`host/src/etag.rs:206-222`): JSON through serde.
- The orgize parser: where it ends the leading keywords is any byte offset. Its agreement with the line scanner is not part of this model.
- Readers of slugs, formats, identifiers, entity tags, instants and zoned dates inside an Org header: parameters of `OrgHeader.ReadLine`; time-zone resolution is one of them.
- Texts of error messages: errors are constructors with the field they name.
- The email_address grammar: mailbox addresses are any text that does not end in a closing angle bracket.
- tree-sitter parsing and queries, the HTML renderer and grammar configurations: the syntax tree is a datatype, and the renderer is known by the plain text of its lines.
- Markup inside rendered lines: `CodeLines` states reproduction for the plain text of each line.
- The 32-bit width of the quasiquote depth: `Quasiquote.DepthIsLargestSurplus` bounds the depth by the nesting of the tree.
- Live references in a returned manifest: the program hands out its own test objects, the model a copy of their values, so a call after the manifest cannot change it here.
- JavaScript strings as UTF-16, JSON parsing of attachments, and writing the manifest file: an attachment is its parsed payload or nothing.
- SqliteTime.TextRoundTrip: reads back with `SqliteTime.ReadSqlite`, a reference reader for the encoder's own form, because the jiff timestamp parser the program decodes with is not part of this model.
- Markdown and Org rendering, sanitization, `normalize_summary_whitespace`, and the URL, identifier and configuration newtypes: rendering is not part of this model, and the others would only add easy members.
- Audience selection, pagination, sessions, storage and the HTTP surface: no code of the modelled core.
