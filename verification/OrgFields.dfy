/**
 What an Org header means (`common/src/org.rs`): how each line of it reads, which fields an
 accepted block has, and exactly which headers are refused. All of it is said of the entries
 of the header lines, none of it of the functions that assemble them.
 */
module OrgFields {
  import opened Wrappers
  import opened Text
  import opened PostText
  import opened Render
  import opened OrgHeader
  import opened OrgBlock
  import Summary
  import Tags

  // Fields that occur once

  predicate Names(es: seq<Entry>, f: Field) {
    exists i :: 0 <= i < |es| && FieldOf(es[i]) == f
  }

  /** Among entries that repeat no single field, an entry is the one its field is filled with. */
  lemma {:induction false} OnlyFiller(es: seq<Entry>, e: Entry)
    requires SingleSlots(es) && !Repeatable(FieldOf(e))
    ensures e in es <==> Filler(es, FieldOf(e)) == Some(e)
  {
    var found := Filler(es, FieldOf(e));
    if e in es {
      var i :| 0 <= i < |es| && es[i] == e;
      var j :| 0 <= j < |es| && es[j] == found.value;
      assert i == j;
    }
  }

  lemma FillerNames(es: seq<Entry>, f: Field)
    ensures Filler(es, f).Some? <==> Names(es, f)
  {
    var found := Filler(es, f);
    if found.Some? {
      var i :| 0 <= i < |es| && es[i] == found.value;
    }
  }

  lemma SlotSays(v: Fields, es: seq<Entry>, e: Entry)
    requires Collects(v, es) && SingleSlots(es) && !Repeatable(FieldOf(e))
    ensures e in es <==> Held(v, FieldOf(e)) == Some(e)
    ensures Names(es, FieldOf(e)) <==> Held(v, FieldOf(e)).Some?
  {
    OnlyFiller(es, e);
    FillerNames(es, FieldOf(e));
  }

  // Lifecycle

  /** The header gives this status, in any case. */
  ghost predicate StatusIs(es: seq<Entry>, word: string) {
    exists t :: StatusEntry(t) in es && ToAsciiLowercase(t) == word
  }

  /** The header's date and time zone name this instant. */
  ghost predicate Dated(r: Readers, es: seq<Entry>, at: int) {
    exists d, z :: DateEntry(d) in es && DateTimezoneEntry(z) in es && r.orgDate(d, z) == Some(at)
  }

  predicate Undated(es: seq<Entry>) {
    !Names(es, DATE) && !Names(es, DATE_TZ)
  }

  /** The lifecycles a header may ask for at this clock. */
  ghost predicate LifecycleAllowed(r: Readers, es: seq<Entry>, clock: int) {
    || (!Names(es, STATUS) && Undated(es))
    || (StatusIs(es, "draft") && Undated(es))
    || (StatusIs(es, "scheduled") && exists at :: Dated(r, es, at) && at > clock)
    || (StatusIs(es, "published") && (Undated(es) || exists at :: Dated(r, es, at) && at <= clock))
  }

  /** The lifecycle is the one the header asks for. */
  ghost predicate LifecycleAsked(r: Readers, es: seq<Entry>, clock: int, lifecycle: Presence<PublicationState>) {
    match lifecycle
    case Absent => !Names(es, STATUS) && Undated(es)
    case Present(Draft) => StatusIs(es, "draft") && Undated(es)
    case Present(Scheduled(at)) => StatusIs(es, "scheduled") && Dated(r, es, at) && at > clock
    case Present(Published(at)) =>
      StatusIs(es, "published") && ((Dated(r, es, at) && at <= clock) || (Undated(es) && at == clock))
  }

  lemma StatusSlot(v: Fields, es: seq<Entry>, word: string)
    requires Collects(v, es) && SingleSlots(es)
    ensures StatusIs(es, word) <==> v.status.Some? && ToAsciiLowercase(v.status.value) == word
    ensures Names(es, STATUS) <==> v.status.Some?
  {
    SlotSays(v, es, StatusEntry(""));
    if v.status.Some? {
      SlotSays(v, es, StatusEntry(v.status.value));
    }
    if t :| StatusEntry(t) in es && ToAsciiLowercase(t) == word {
      SlotSays(v, es, StatusEntry(t));
    }
  }

  lemma DateSlots(r: Readers, v: Fields, es: seq<Entry>, at: int)
    requires Collects(v, es) && SingleSlots(es)
    ensures Dated(r, es, at) <==>
            v.date.Some? && v.timezone.Some? && r.orgDate(v.date.value, v.timezone.value) == Some(at)
    ensures Undated(es) <==> v.date.None? && v.timezone.None?
  {
    SlotSays(v, es, DateEntry(""));
    SlotSays(v, es, DateTimezoneEntry(""));
    if v.date.Some? && v.timezone.Some? {
      SlotSays(v, es, DateEntry(v.date.value));
      SlotSays(v, es, DateTimezoneEntry(v.timezone.value));
    }
    if d, z :| DateEntry(d) in es && DateTimezoneEntry(z) in es && r.orgDate(d, z) == Some(at) {
      SlotSays(v, es, DateEntry(d));
      SlotSays(v, es, DateTimezoneEntry(z));
    }
  }

  /** The lifecycle read from the collected fields, by cases. */
  predicate FieldsAsk(r: Readers, v: Fields, clock: int, lifecycle: Presence<PublicationState>) {
    var word := if v.status.Some? then ToAsciiLowercase(v.status.value) else "";
    var undated := v.date.None? && v.timezone.None?;
    var instant := if v.date.Some? && v.timezone.Some? then r.orgDate(v.date.value, v.timezone.value) else None;
    match lifecycle
    case Absent => v.status.None? && undated
    case Present(Draft) => v.status.Some? && word == "draft" && undated
    case Present(Scheduled(at)) => v.status.Some? && word == "scheduled" && instant == Some(at) && at > clock
    case Present(Published(at)) =>
      && v.status.Some? && word == "published"
      && ((instant == Some(at) && at <= clock) || (undated && at == clock))
  }

  lemma ReadLifecycle(r: Readers, v: Fields, clock: int, lifecycle: Presence<PublicationState>)
    ensures ParseLifecycle(r.orgDate, v, clock) == Ok(lifecycle) <==> FieldsAsk(r, v, clock, lifecycle)
  {
  }

  lemma AskedOfFields(r: Readers, v: Fields, es: seq<Entry>, clock: int, lifecycle: Presence<PublicationState>)
    requires Collects(v, es) && SingleSlots(es)
    ensures FieldsAsk(r, v, clock, lifecycle) <==> LifecycleAsked(r, es, clock, lifecycle)
  {
    StatusSlot(v, es, "draft");
    StatusSlot(v, es, "scheduled");
    StatusSlot(v, es, "published");
    DateSlots(r, v, es, clock);
    match lifecycle
    case Present(Scheduled(at)) => DateSlots(r, v, es, at);
    case Present(Published(at)) => DateSlots(r, v, es, at);
    case _ =>
  }

  /** A header is refused for its lifecycle exactly when it asks for none that is allowed. */
  lemma AllowedIsAsked(r: Readers, es: seq<Entry>, clock: int)
    ensures LifecycleAllowed(r, es, clock) <==> exists lifecycle :: LifecycleAsked(r, es, clock, lifecycle)
  {
    if LifecycleAllowed(r, es, clock) {
      if !Names(es, STATUS) && Undated(es) {
        assert LifecycleAsked(r, es, clock, Absent);
      } else if StatusIs(es, "draft") && Undated(es) {
        assert LifecycleAsked(r, es, clock, Present(Draft));
      } else if StatusIs(es, "scheduled") && exists at :: Dated(r, es, at) && at > clock {
        var at :| Dated(r, es, at) && at > clock;
        assert LifecycleAsked(r, es, clock, Present(Scheduled(at)));
      } else if Undated(es) {
        assert LifecycleAsked(r, es, clock, Present(Published(clock)));
      } else {
        var at :| Dated(r, es, at) && at <= clock;
        assert LifecycleAsked(r, es, clock, Present(Published(at)));
      }
    }
  }

  lemma LifecycleOfEntries(r: Readers, v: Fields, es: seq<Entry>, clock: int)
    requires Collects(v, es) && SingleSlots(es)
    ensures ParseLifecycle(r.orgDate, v, clock).Ok? <==> LifecycleAllowed(r, es, clock)
    ensures forall lifecycle ::
              ParseLifecycle(r.orgDate, v, clock) == Ok(lifecycle) <==> LifecycleAsked(r, es, clock, lifecycle)
  {
    forall lifecycle
      ensures ParseLifecycle(r.orgDate, v, clock) == Ok(lifecycle) <==> LifecycleAsked(r, es, clock, lifecycle)
    {
      ReadLifecycle(r, v, clock, lifecycle);
      AskedOfFields(r, v, es, clock, lifecycle);
    }
    AllowedIsAsked(r, es, clock);
    if ParseLifecycle(r.orgDate, v, clock).Ok? {
      assert LifecycleAsked(r, es, clock, ParseLifecycle(r.orgDate, v, clock).value);
    }
  }

  // Accepted blocks

  /** The entries of the header lines. */
  function EntriesOf(r: Readers, source: string, headerEnd: nat): seq<Entry> {
    var pieces := SplitInclusive(source);
    Entries(HeaderReader(r), pieces, headerEnd, |pieces|)
  }

  lemma ScanOfEntries(r: Readers, source: string, headerEnd: nat)
    ensures var pieces := SplitInclusive(source);
            var s := ScanOf(r, source, headerEnd);
            && (s.Ok? <==> WellFormedHeader(HeaderReader(r), pieces, headerEnd, |pieces|))
            && (s.Ok? ==> Collects(s.value.fields, EntriesOf(r, source, headerEnd))
                          && SingleSlots(EntriesOf(r, source, headerEnd)))
  {
    var pieces := SplitInclusive(source);
    ScanPartitions(HeaderReader(r), pieces, headerEnd, |pieces|);
  }

  /** The lifecycle of an accepted block is exactly the one its header asks for. */
  lemma HeaderLifecycle(r: Readers, source: string, headerEnd: nat, clock: int, lifecycle: Presence<PublicationState>)
    requires Block(r, source, headerEnd, clock).Ok?
    ensures Block(r, source, headerEnd, clock).value.lifecycle == lifecycle <==>
            LifecycleAsked(r, EntriesOf(r, source, headerEnd), clock, lifecycle)
  {
    ScanOfEntries(r, source, headerEnd);
    var s := ScanOf(r, source, headerEnd).value;
    LifecycleOfEntries(r, s.fields, EntriesOf(r, source, headerEnd), clock);
    AssembledLifecycle(r, s, clock);
  }

  lemma AssembledLifecycle(r: Readers, s: Scan, clock: int)
    requires Assemble(r, s, clock).Ok?
    ensures ParseLifecycle(r.orgDate, s.fields, clock) == Ok(Assemble(r, s, clock).value.lifecycle)
  {
  }

  /** Summary, audiences and bookkeeping of an accepted block are what the header lines say. */
  lemma HeaderRest(r: Readers, source: string, headerEnd: nat, clock: int)
    requires Block(r, source, headerEnd, clock).Ok?
    ensures var es := EntriesOf(r, source, headerEnd);
            var block := Block(r, source, headerEnd, clock).value;
            && (match block.summary
                case Absent => Descriptions(es) == []
                case Present(text) =>
                  Descriptions(es) != [] && Summary.ParseSummary(Join(Descriptions(es))) == Some(text))
            && (match block.audiences
                case Absent => Audiences(es) == []
                case Present(list) => list != [] && list == Audiences(es))
            && BookkeepingSaid(block.bookkeeping, es)
  {
    ScanOfEntries(r, source, headerEnd);
    var s := ScanOf(r, source, headerEnd).value;
    AssembledRest(r, s, clock);
    BookkeepingOfEntries(s.fields, EntriesOf(r, source, headerEnd));
  }

  lemma AssembledRest(r: Readers, s: Scan, clock: int)
    requires Assemble(r, s, clock).Ok?
    ensures var block := Assemble(r, s, clock).value;
            && block.bookkeeping == s.fields.bookkeeping
            && (match block.summary
                case Absent => s.fields.summaries == []
                case Present(text) =>
                  s.fields.summaries != [] && Summary.ParseSummary(Join(s.fields.summaries)) == Some(text))
            && block.audiences == if s.fields.audiences == [] then Absent else Present(s.fields.audiences)
  {
  }

  /** Every bookkeeping value is the value of its one header line, and the other way around. */
  ghost predicate BookkeepingSaid(b: Bookkeeping, es: seq<Entry>) {
    && (forall s :: b.slug == Some(s) <==> SlugEntry(s) in es)
    && (forall f :: b.format == Some(f) <==> FormatEntry(f) in es)
    && (forall i :: b.postId == Some(i) <==> IdEntry(i) in es)
    && (forall t :: b.synced == Some(t) <==> SyncedEntry(t) in es)
    && (forall at :: b.syncedAt == Some(at) <==> SyncedAtEntry(at) in es)
    && (forall at :: b.dateUtc == Some(at) <==> DateUtcEntry(at) in es)
  }

  lemma BookkeepingOfEntries(v: Fields, es: seq<Entry>)
    requires Collects(v, es) && SingleSlots(es)
    ensures BookkeepingSaid(v.bookkeeping, es)
  {
    forall s ensures v.bookkeeping.slug == Some(s) <==> SlugEntry(s) in es { SlotSays(v, es, SlugEntry(s)); }
    forall f ensures v.bookkeeping.format == Some(f) <==> FormatEntry(f) in es { SlotSays(v, es, FormatEntry(f)); }
    forall i ensures v.bookkeeping.postId == Some(i) <==> IdEntry(i) in es { SlotSays(v, es, IdEntry(i)); }
    forall t ensures v.bookkeeping.synced == Some(t) <==> SyncedEntry(t) in es { SlotSays(v, es, SyncedEntry(t)); }
    forall at ensures v.bookkeeping.syncedAt == Some(at) <==> SyncedAtEntry(at) in es {
      SlotSays(v, es, SyncedAtEntry(at));
    }
    forall at ensures v.bookkeeping.dateUtc == Some(at) <==> DateUtcEntry(at) in es {
      SlotSays(v, es, DateUtcEntry(at));
    }
  }

  /**
   A block is accepted exactly when no header line is malformed, no single field repeats,
   there is at most one title and it is one line, the descriptions make a summary, the
   keywords have at most 256 distinct slugs, and the lifecycle is allowed.
   */
  lemma BlockVerdict(r: Readers, source: string, headerEnd: nat, clock: int)
    ensures var pieces := SplitInclusive(source);
            var es := EntriesOf(r, source, headerEnd);
            Block(r, source, headerEnd, clock).Ok? <==>
            && (forall i :: 0 <= i < |pieces| ==> !MalformedLine(HeaderReader(r), pieces, headerEnd, i))
            && SingleSlots(es)
            && |OrgBlock.Titles(es)| <= 1 && (OrgBlock.Titles(es) == [] || OneLine(OrgBlock.Titles(es)[0]))
            && (Descriptions(es) == [] || Summary.ParseSummary(Join(Descriptions(es))).Some?)
            && |Tags.Slugs(r.lower, Labels(es))| <= Tags.MAX_TAGS_PER_POST
            && LifecycleAllowed(r, es, clock)
  {
    var pieces := SplitInclusive(source);
    var es := EntriesOf(r, source, headerEnd);
    ScanOfEntries(r, source, headerEnd);
    if ScanOf(r, source, headerEnd).Ok? {
      var s := ScanOf(r, source, headerEnd).value;
      TitlesAreTrimmed(r, pieces, headerEnd, |pieces|);
      TitleDoors(OrgBlock.Titles(es));
      TagDoor(r.lower, Labels(es));
      LifecycleOfEntries(r, s.fields, es, clock);
      AssembledVerdict(r, s, clock);
    }
  }

  lemma AssembledVerdict(r: Readers, s: Scan, clock: int)
    ensures Assemble(r, s, clock).Ok? <==>
            && (s.fields.titles == [] || ParseTitle(Join(s.fields.titles)).Some?)
            && (s.fields.summaries == [] || Summary.ParseSummary(Join(s.fields.summaries)).Some?)
            && (s.fields.tags == [] || Tags.Validated(r.lower, s.fields.tags).Ok?)
            && ParseLifecycle(r.orgDate, s.fields, clock).Ok?
  {
  }

  lemma TitleDoors(titles: seq<string>)
    requires TrimmedTexts(titles)
    ensures titles == [] || ParseTitle(Join(titles)).Some? <==> |titles| <= 1 && (titles == [] || OneLine(titles[0]))
  {
    if |titles| > 1 {
      JoinedTitlesAreRejected(titles);
    }
  }

  lemma TagDoor(lower: Tags.Lowercase, labels: seq<string>)
    ensures labels == [] || Tags.Validated(lower, labels).Ok? <==> |Tags.Slugs(lower, labels)| <= Tags.MAX_TAGS_PER_POST
  {
    Tags.ValidatedTags(lower, labels);
    if labels == [] {
      assert Tags.Slugs(lower, labels) == {};
    }
  }
}
