/** The feed item, and its serialization to and from the dictionary stored as a source payload. */
module Models {
  import opened Wrappers
  import opened Ordering
  import opened IsoTime
  import opened Like

  datatype FeedItem = FeedItem(
    id: string, title: string, summary: string, url: string, source: string, sourceUrl: string,
    published: Option<Moment>, tags: set<string>, cves: seq<string>, severity: string,
    urgent: bool, kev: bool, epssScore: Option<real>, isSample: bool,
    osvAffected: seq<string>, osvFixed: seq<string>, osvSeverity: Option<string>, patchStatus: string)

  /** What `item_to_dict` returns, without the rendered age. */
  datatype ItemDict = ItemDict(
    id: string, title: string, summary: string, url: string, source: string, sourceUrl: string,
    published: Option<string>, tags: seq<string>, cves: seq<string>, severity: string,
    urgent: bool, kev: bool, epssScore: Option<real>, isSample: bool,
    osvAffected: seq<string>, osvFixed: seq<string>, osvSeverity: Option<string>, patchStatus: string)

  const UNKNOWN := "unknown"

  /** Python's `text or default`. */
  function TextOr(text: string, default: string): string { if text == "" then default else text }

  // ---------- tag order ----------

  const TAG_ORDER: seq<string> := ["exploit", "kubernetes", "cloud", "linux", "cve", "patch", "threat"]

  function IndexIn(tag: string, order: seq<string>): (r: nat)
    ensures r < |order| <==> tag in order
  {
    if order == [] || order[0] == tag then 0 else 1 + IndexIn(tag, order[1..])
  }

  /** `_tag_priority`: the place in the list of known tags, 99 for any other tag. */
  function TagPriority(tag: string, order: seq<string>): int {
    if tag in order then IndexIn(tag, order) else 99
  }

  predicate TagBefore(a: string, b: string, order: seq<string>) {
    TagPriority(a, order) < TagPriority(b, order)
    || (TagPriority(a, order) == TagPriority(b, order) && TextLess(a, b))
  }

  /** The known tags of `order` that are in the set, in that order. */
  function KnownTags(tags: set<string>, order: seq<string>): seq<string> {
    if order == [] then [] else (if order[0] in tags then [order[0]] else []) + KnownTags(tags, order[1..])
  }

  /** `sorted(tags, key=lambda t: (_tag_priority(t), t))` */
  function TagList(tags: set<string>, order: seq<string>): seq<string> {
    KnownTags(tags, order) + SortedText(set t | t in tags && t !in order)
  }

  lemma {:induction false} KnownTagsMembers(tags: set<string>, order: seq<string>)
    ensures forall t :: t in KnownTags(tags, order) <==> t in tags && t in order
  {
    if order != [] {
      KnownTagsMembers(tags, order[1..]);
      assert order == [order[0]] + order[1..];
    }
  }

  lemma TagListMembers(tags: set<string>, order: seq<string>)
    ensures forall t :: t in TagList(tags, order) <==> t in tags
    ensures (set t | t in TagList(tags, order)) == tags
  {
    KnownTagsMembers(tags, order);
  }

  ghost predicate IndexesGrow(r: seq<string>, order: seq<string>) {
    forall i, j :: 0 <= i < j < |r| ==> IndexIn(r[i], order) < IndexIn(r[j], order)
  }

  lemma {:induction false} KnownTagsSorted(tags: set<string>, order: seq<string>)
    requires NoDuplicates(order)
    ensures IndexesGrow(KnownTags(tags, order), order)
  {
    if order != [] {
      KnownTagsSorted(tags, order[1..]);
      KnownTagsMembers(tags, order[1..]);
      var r, tail := KnownTags(tags, order), KnownTags(tags, order[1..]);
      var d := if order[0] in tags then 1 else 0;
      assert forall i :: d <= i < |r| ==> r[i] == tail[i - d];
      forall i, j | 0 <= i < j < |r| ensures IndexIn(r[i], order) < IndexIn(r[j], order) {
        assert tail[j - d] in tail;
        IndexShift(tail[j - d], order);
        if i >= d {
          assert tail[i - d] in tail;
          IndexShift(tail[i - d], order);
          assert r[i] == tail[i - d] && r[j] == tail[j - d];
        } else {
          assert r[i] == order[0] && r[j] == tail[j - d];
        }
      }
    }
  }

  lemma IndexShift(t: string, order: seq<string>)
    requires order != [] && t in order[1..] && NoDuplicates(order)
    ensures IndexIn(t, order) == 1 + IndexIn(t, order[1..])
  {
    assert order[0] !in order[1..];
  }

  lemma TagOrderDistinct()
    ensures NoDuplicates(TAG_ORDER)
  {
    assert TAG_ORDER[0][0] == 'e' && TAG_ORDER[1][0] == 'k' && TAG_ORDER[2][0] == 'c' && TAG_ORDER[3][0] == 'l';
    assert TAG_ORDER[4][0] == 'c' && TAG_ORDER[5][0] == 'p' && TAG_ORDER[6][0] == 't';
    assert TAG_ORDER[2][1] == 'l' && TAG_ORDER[4][1] == 'v';
  }

  /** The list really is sorted by priority and then by text. */
  lemma TagListSorted(tags: set<string>, order: seq<string>)
    requires NoDuplicates(order) && |order| <= 99
    ensures var r := TagList(tags, order);
            forall i, j :: 0 <= i < j < |r| ==> TagBefore(r[i], r[j], order)
  {
    var known := KnownTags(tags, order);
    var others := SortedText(set t | t in tags && t !in order);
    KnownTagsSorted(tags, order);
    KnownTagsMembers(tags, order);
    var r := TagList(tags, order);
    forall i, j | 0 <= i < j < |r| ensures TagBefore(r[i], r[j], order) {
      if j < |known| {
        assert r[i] == known[i] && r[j] == known[j];
        assert known[i] in known && known[j] in known;
      } else {
        assert r[j] == others[j - |known|];
        assert others[j - |known|] in others;
        if i < |known| {
          assert r[i] == known[i] && known[i] in known;
        } else {
          assert r[i] == others[i - |known|] && others[i - |known|] in others;
        }
      }
    }
  }

  // ---------- item_to_dict and item_from_dict ----------

  /** The item with its date converted to UTC; `None` is the OverflowError of the conversion. */
  function InUtc(item: FeedItem): (r: Option<FeedItem>)
    ensures r.Some? ==> r.value == item.(published := r.value.published)
    ensures r.Some? && r.value.published.Some? ==> IsUtc(r.value.published.value)
  {
    match item.published
    case None => Some(item)
    case Some(dt) =>
      var utc := EnsureAware(dt);
      if utc.None? then None else Some(item.(published := Some(utc.value)))
  }

  /** `item_to_dict`; `None` is the OverflowError of the date conversion. */
  function ToDict(item: FeedItem): Option<ItemDict> {
    var utc := InUtc(item);
    if utc.None? then None else
      var published := if utc.value.published.None? then None else Some(Iso(utc.value.published.value));
      Some(ItemDict(item.id, item.title, item.summary, item.url, item.source, item.sourceUrl,
                    published, TagList(item.tags, TAG_ORDER), item.cves, item.severity, item.urgent, item.kev,
                    item.epssScore, item.isSample, item.osvAffected, item.osvFixed, item.osvSeverity, item.patchStatus))
  }

  /** The tag list of every item, in the order the program has: by priority, then by text, nothing twice or lost. */
  lemma ItemTagsSorted(item: FeedItem)
    requires ToDict(item).Some?
    ensures var r := ToDict(item).value.tags;
            && (forall i, j :: 0 <= i < j < |r| ==> TagBefore(r[i], r[j], TAG_ORDER))
            && (forall t :: t in r <==> t in item.tags) && NoDuplicates(r)
  {
    hide TagList, TagBefore, InUtc, Iso;
    TagOrderDistinct();
    TagListSorted(item.tags, TAG_ORDER);
    TagListMembers(item.tags, TAG_ORDER);
    var r := TagList(item.tags, TAG_ORDER);
    forall i, j | 0 <= i < j < |r| ensures r[i] != r[j] { NotBeforeItself(r[i], TAG_ORDER); }
  }

  /** Every entry of the dictionary by its own field of the item. */
  lemma DictOfMeaning(item: FeedItem)
    requires ToDict(item).Some?
    ensures var d := ToDict(item).value;
            && d.id == item.id && d.title == item.title && d.summary == item.summary && d.url == item.url
            && d.source == item.source && d.sourceUrl == item.sourceUrl && d.cves == item.cves && d.severity == item.severity
            && d.urgent == item.urgent && d.kev == item.kev && d.epssScore == item.epssScore && d.isSample == item.isSample
            && d.osvAffected == item.osvAffected && d.osvFixed == item.osvFixed
            && d.osvSeverity == item.osvSeverity && d.patchStatus == item.patchStatus
            && (d.published.Some? <==> item.published.Some?)
            && (item.published.Some? ==> ParseIso(d.published.value).Some?
                                         && Instant(ParseIso(d.published.value).value) == Instant(item.published.value))
  {
    hide Iso, ParseIso, TagList, Instant;
    if item.published.Some? { ParseOfIso(InUtc(item).value.published.value); }
  }

  lemma NotBeforeItself(t: string, order: seq<string>)
    ensures !TagBefore(t, t, order)
  {
    TextLessTotal(t, t);
  }

  /** The date text of a stored dictionary: empty, unreadable or overflowing text is no date. */
  function ReadDate(text: Option<string>): Option<Moment> {
    if text.None? || text.value == "" then None else
      var dt := ParseIso(Replace(text.value, 'Z', "+00:00"));
      if dt.None? then None else Some(dt.value)
  }

  function FromDict(d: ItemDict): FeedItem {
    FeedItem(d.id, d.title, d.summary, d.url, d.source, d.sourceUrl,
             ReadDate(d.published), (set t | t in d.tags), d.cves, TextOr(d.severity, UNKNOWN), d.urgent, d.kev,
             d.epssScore, d.isSample, d.osvAffected, d.osvFixed, d.osvSeverity, TextOr(d.patchStatus, UNKNOWN))
  }

  lemma IsoHasNoZ(dt: DateTime)
    requires IsUtc(dt)
    ensures 'Z' !in Iso(dt) && Iso(dt) != ""
  {
    var s := IsoTail(dt.micro);
    NoZInDigits(dt.micro, 6, "+00:00");
    NoZInDigits(dt.second, 2, s);
    s := Pad(dt.second, 2) + s;
    NoZInDigits(dt.minute, 2, ":" + s);
    s := Pad(dt.minute, 2) + (":" + s);
    NoZInDigits(dt.hour, 2, ":" + s);
    s := Pad(dt.hour, 2) + (":" + s);
    NoZInDigits(dt.day, 2, "T" + s);
    s := Pad(dt.day, 2) + ("T" + s);
    NoZInDigits(dt.month, 2, "-" + s);
    s := Pad(dt.month, 2) + ("-" + s);
    NoZInDigits(dt.year, 4, "-" + s);
  }

  lemma NoZInDigits(n: int, w: nat, rest: string)
    requires n >= 0 && 'Z' !in rest
    ensures 'Z' !in Pad(n, w) + rest
  {
    var r := Pad(n, w);
    forall i | 0 <= i < |r| ensures r[i] != 'Z' { assert '0' <= r[i] <= '9'; }
  }

  lemma ReadDateOfIso(dt: DateTime)
    requires IsUtc(dt)
    ensures ReadDate(Some(Iso(dt))) == Some(dt)
  {
    IsoHasNoZ(dt);
    ReplaceAbsent(Iso(dt), 'Z', "+00:00");
    ParseOfIso(dt);
  }

  /**
   * A payload item reads back as the item with its date in UTC, exactly when its severity and its
   * patch status are not empty: an empty one comes back as "unknown".
   */
  lemma PayloadRoundTrip(item: FeedItem)
    requires ToDict(item).Some?
    ensures FromDict(ToDict(item).value) == InUtc(item).value <==> item.severity != "" && item.patchStatus != ""
  {
    TagListMembers(item.tags, TAG_ORDER);
    var utc := InUtc(item).value;
    if utc.published.Some? { ReadDateOfIso(utc.published.value); }
  }
}
