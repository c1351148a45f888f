/** The SQLite adapter: the archive as rows of text and numbers, and its SELECTs over that text. */
module SqliteStore {
  import opened Wrappers
  import opened Ordering
  import opened IsoTime
  import opened Like
  import opened JsonText
  import opened Models
  import opened Archive

  datatype Row = Row(
    title: string, summary: string, url: string, source: string, sourceUrl: string,
    published: Option<string>, tags: string, cves: string, severity: string,
    urgent: int, kev: int, epssScore: Option<real>, isSample: int,
    osvAffected: string, osvFixed: string, osvSeverity: Option<string>, patchStatus: string,
    firstSeen: string, lastSeen: string)

  function Flag(b: bool): int { if b then 1 else 0 }

  /** The parameters `upsert_items` binds for an item whose date is already in UTC. */
  function RowOf(item: FeedItem, firstSeen: int, lastSeen: int): Row
    requires ValidStored(Stored(item, firstSeen, lastSeen))
  {
    Row(item.title, item.summary, item.url, item.source, item.sourceUrl,
        if item.published.None? then None else Some(Iso(item.published.value)),
        Dumps(SortedText(item.tags)), Dumps(item.cves), item.severity,
        Flag(item.urgent), Flag(item.kev), item.epssScore, Flag(item.isSample),
        Dumps(item.osvAffected), Dumps(item.osvFixed), item.osvSeverity, item.patchStatus,
        Stamp(firstSeen), Stamp(lastSeen))
  }

  /** Every column by its own field of the item. */
  lemma RowOfMeaning(item: FeedItem, firstSeen: int, lastSeen: int)
    requires ValidStored(Stored(item, firstSeen, lastSeen))
    ensures var row := RowOf(item, firstSeen, lastSeen);
            && row.title == item.title && row.summary == item.summary && row.url == item.url
            && row.source == item.source && row.sourceUrl == item.sourceUrl && row.severity == item.severity
            && (row.urgent == 1 <==> item.urgent) && (row.kev == 1 <==> item.kev) && (row.isSample == 1 <==> item.isSample)
            && (row.urgent == 0 <==> !item.urgent) && (row.kev == 0 <==> !item.kev) && (row.isSample == 0 <==> !item.isSample)
            && row.epssScore == item.epssScore && row.osvSeverity == item.osvSeverity && row.patchStatus == item.patchStatus
            && (row.published.Some? <==> item.published.Some?)
            && (item.published.Some? ==> ParseIso(row.published.value) == Some(item.published.value))
            && Loads(row.tags) == Some(SortedText(item.tags)) && Loads(row.cves) == Some(item.cves)
            && Loads(row.osvAffected) == Some(item.osvAffected) && Loads(row.osvFixed) == Some(item.osvFixed)
            && ParseIso(row.firstSeen) == Some(UtcFromMicros(firstSeen)) && ParseIso(row.lastSeen) == Some(UtcFromMicros(lastSeen))
  {
    hide ParseIso, Iso, UtcFromMicros, Dumps, Loads, SortedText, Stamp;
    LoadsOfDumps(SortedText(item.tags));
    LoadsOfDumps(item.cves);
    LoadsOfDumps(item.osvAffected);
    LoadsOfDumps(item.osvFixed);
    ParseOfStamp(firstSeen);
    ParseOfStamp(lastSeen);
    if item.published.Some? { ParseOfIso(item.published.value); }
  }

  function Image(rows: Rows): map<string, Row>
    requires ValidRows(rows)
  {
    map id | id in rows :: RowOf(rows[id].item, rows[id].firstSeen, rows[id].lastSeen)
  }

  function MarksImage(marks: Marks): map<string, string>
    requires ValidMarks(marks)
  {
    map id | id in marks :: Stamp(marks[id])
  }

  /** `row_to_item` before the final `item_to_dict`; `None` is a JSON error. */
  function ReadRow(id: string, row: Row): Option<FeedItem> {
    var tags := Loads(if row.tags == "" then "[]" else row.tags);
    var cves := Loads(if row.cves == "" then "[]" else row.cves);
    var affected := Loads(if row.osvAffected == "" then "[]" else row.osvAffected);
    var fixed := Loads(if row.osvFixed == "" then "[]" else row.osvFixed);
    if tags.None? || cves.None? || affected.None? || fixed.None? then None else
      var published := if row.published.None? || row.published.value == "" then None
                       else if ParseIso(row.published.value).None? then None
                       else Some(ParseIso(row.published.value).value);
      Some(FeedItem(id, row.title, row.summary, row.url, row.source, row.sourceUrl,
                    published, (set t | t in tags.value), cves.value, TextOr(row.severity, UNKNOWN),
                    row.urgent != 0, row.kev != 0, row.epssScore, row.isSample != 0,
                    affected.value, fixed.value, row.osvSeverity, TextOr(row.patchStatus, UNKNOWN)))
  }

  // ---------- query_feed, search_feed, unalerted_urgent_items ----------

  /** The `live_count > 0` of the first SELECT. */
  predicate HasLive(table: map<string, Row>) { exists id :: id in table && table[id].isSample == 0 }

  /** An absent or empty filter value adds no clause. */
  predicate Given(filter: Option<string>) { filter.Some? && filter.value != "" }

  predicate QuerySelects(table: map<string, Row>, tag: Option<string>, severity: Option<string>, id: string)
    requires id in table
  {
    && (HasLive(table) ==> table[id].isSample == 0)
    && (Given(tag) ==> Matches("%\"" + EscapeLike(tag.value) + "\"%", table[id].tags))
    && (Given(severity) ==> table[id].severity == severity.value)
  }

  predicate SearchMatches(row: Row, q: string) {
    var like := "%" + EscapeLike(q) + "%";
    Matches(like, row.title) || Matches(like, row.summary) || Matches(like, row.source) || Matches(like, row.cves)
  }

  /** `search_feed` with an empty query string is `query_feed`. */
  predicate SearchSelects(table: map<string, Row>, q: string, tag: Option<string>, severity: Option<string>, id: string)
    requires id in table
  {
    QuerySelects(table, tag, severity, id) && (q != "" ==> SearchMatches(table[id], q))
  }

  predicate UrgentSelects(table: map<string, Row>, alerted: map<string, string>, id: string)
    requires id in table
  {
    table[id].urgent == 1 && id !in alerted && (HasLive(table) ==> table[id].isSample == 0)
  }

  /** `published DESC` over text, where SQLite puts NULL last. */
  predicate NewerText(a: Option<string>, b: Option<string>) {
    a.Some? && (b.None? || TextLess(b.value, a.value))
  }

  /** `ORDER BY published DESC, urgent DESC, last_seen DESC` */
  predicate Ahead(a: Row, b: Row) {
    || NewerText(a.published, b.published)
    || (a.published == b.published && (a.urgent > b.urgent || (a.urgent == b.urgent && TextLess(b.lastSeen, a.lastSeen))))
  }

  ghost function TableAhead(table: map<string, Row>): (string, string) -> bool {
    (a, b) => a in table && b in table && Ahead(table[a], table[b])
  }

  ghost function TableNewer(table: map<string, Row>): (string, string) -> bool {
    (a, b) => a in table && b in table && NewerText(table[a].published, table[b].published)
  }

  ghost predicate SearchAnswer(table: map<string, Row>, q: string, tag: Option<string>, severity: Option<string>,
                               limit: nat, out: seq<string>) {
    Answer((set id | id in table && SearchSelects(table, q, tag, severity, id)), TableAhead(table), limit, out)
  }

  ghost predicate UrgentAnswer(table: map<string, Row>, alerted: map<string, string>, limit: nat, out: seq<string>) {
    Answer((set id | id in table && UrgentSelects(table, alerted, id)), TableNewer(table), limit, out)
  }

  // ---------- statements ----------

  function InsertOrUpdate(table: map<string, Row>, id: string, row: Row): map<string, Row> {
    table[id := if id in table then row.(firstSeen := table[id].firstSeen) else row]
  }

  function DeleteOld(table: map<string, Row>, cutoff: string): map<string, Row> {
    map id | id in table && !(table[id].isSample == 0 && TextLess(table[id].lastSeen, cutoff)) :: table[id]
  }

  function DeleteOldMarks(marks: map<string, string>, table: map<string, Row>, cutoff: string): map<string, string> {
    map id | id in marks && !(TextLess(marks[id], cutoff) && id !in table) :: marks[id]
  }

  lemma ImageKeys(rows: Rows)
    requires ValidRows(rows)
    ensures Image(rows).Keys == rows.Keys
  {
    hide RowOf;
  }

  lemma ImageOfUpsert(rows: Rows, item: FeedItem, now: int)
    requires ValidRows(rows) && InTime(now) && (item.published.Some? ==> IsUtc(item.published.value))
    ensures ValidRows(UpsertOne(rows, item, now))
    ensures Image(UpsertOne(rows, item, now)) == InsertOrUpdate(Image(rows), item.id, RowOf(item, now, now))
  {
    hide Iso, UtcFromMicros, Dumps, SortedText, Stamp;
  }

  /** The text comparison of the DELETE is the comparison of times. */
  lemma ImageOfPrune(rows: Rows, before: int)
    requires ValidRows(rows) && InTime(before)
    ensures Image(PruneRows(rows, before)) == DeleteOld(Image(rows), Stamp(before))
  {
    hide Iso, UtcFromMicros, Dumps, SortedText, Stamp;
    forall id | id in rows ensures TextLess(Stamp(rows[id].lastSeen), Stamp(before)) <==> rows[id].lastSeen < before {
      StampOrder(rows[id].lastSeen, before);
    }
  }

  lemma ImageOfPruneMarks(marks: Marks, rows: Rows, before: int)
    requires ValidMarks(marks) && ValidRows(rows) && InTime(before)
    ensures MarksImage(PruneMarks(marks, rows, before)) == DeleteOldMarks(MarksImage(marks), Image(rows), Stamp(before))
  {
    hide Iso, UtcFromMicros, Dumps, SortedText, Stamp;
    forall id | id in marks ensures TextLess(Stamp(marks[id]), Stamp(before)) <==> marks[id] < before {
      StampOrder(marks[id], before);
    }
  }

  // ---------- the store ----------

  /** `rows` and `marks` are the archive the two tables stand for. */
  class Store {
    var feedItems: map<string, Row>
    var alertedItems: map<string, string>
    ghost var rows: Rows
    ghost var marks: Marks

    ghost predicate Valid()
      reads this
    {
      && ValidRows(rows) && ValidMarks(marks)
      && feedItems == Image(rows) && alertedItems == MarksImage(marks)
    }

    constructor ()
      ensures Valid() && rows == map[] && marks == map[]
    {
      feedItems, alertedItems, rows, marks := map[], map[], map[], map[];
    }

    /** Binds every row before it writes: a date that cannot be converted leaves the table as it was. */
    method UpsertItems(items: seq<FeedItem>, now: int) returns (r: Result<nat, string>)
      requires Valid() && InTime(now)
      modifies this
      ensures Valid() && marks == old(marks)
      ensures r.Success? <==> AllInUtc(items).Some?
      ensures r.Success? ==> r.value == |items| && rows == UpsertAll(old(rows), AllInUtc(items).value, now)
      ensures r.Failure? ==> r.error == "OverflowError" && rows == old(rows)
    {
      hide RowOf, InsertOrUpdate, UpsertOne, Image, MarksImage, EnsureAware, Stamp;
      if items == [] { return Success(0); }
      var bound := BindItems(items);
      if bound.None? { return Failure("OverflowError"); }
      var utc := bound.value;
      var i := 0;
      while i < |utc|
        invariant 0 <= i <= |utc|
        invariant Valid() && marks == old(marks)
        invariant rows == UpsertAll(old(rows), utc[..i], now)
      {
        ImageOfUpsert(rows, utc[i], now);
        feedItems := InsertOrUpdate(feedItems, utc[i].id, RowOf(utc[i], now, now));
        rows := UpsertOne(rows, utc[i], now);
        assert utc[..i + 1][..i] == utc[..i];
        i := i + 1;
      }
      assert utc[..|utc|] == utc;
      return Success(|utc|);
    }

    method PruneItems(before: int) returns (deleted: nat)
      requires Valid() && InTime(before)
      modifies this
      ensures Valid()
      ensures rows == PruneRows(old(rows), before)
      ensures marks == PruneMarks(old(marks), rows, before)
      ensures deleted == |old(rows)| - |rows|
    {
      hide RowOf, Stamp, TextLess, Image, MarksImage, PruneRows, PruneMarks, DeleteOld, DeleteOldMarks, ValidRows, ValidMarks;
      var cutoff := Stamp(before);
      ImageOfPrune(rows, before);
      PruneKeepsSome(rows, before);
      PruneMarksValid(marks, PruneRows(rows, before), before);
      ImageKeys(rows);
      ImageKeys(PruneRows(rows, before));
      var kept := DeleteOld(feedItems, cutoff);
      deleted := |feedItems.Keys - kept.Keys|;
      feedItems := kept;
      rows := PruneRows(rows, before);
      ImageOfPruneMarks(marks, rows, before);
      alertedItems := DeleteOldMarks(alertedItems, feedItems, cutoff);
      marks := PruneMarks(marks, rows, before);
    }

    method MarkAlerted(ids: seq<string>, now: int)
      requires Valid() && InTime(now)
      modifies this
      ensures Valid() && rows == old(rows) && marks == MarkAll(old(marks), ids, now)
    {
      hide RowOf, Stamp, Image;
      var text := Stamp(now);
      var i := 0;
      while i < |ids|
        invariant 0 <= i <= |ids|
        invariant rows == old(rows) && feedItems == old(feedItems)
        invariant marks == MarkAll(old(marks), ids[..i], now)
        invariant ValidMarks(marks) && alertedItems == MarksImage(marks)
      {
        assert ids[..i + 1][..i] == ids[..i];
        if ids[i] !in alertedItems {
          alertedItems := alertedItems[ids[i] := text];
          marks := marks[ids[i] := now];
        }
        i := i + 1;
      }
      assert ids[..|ids|] == ids;
    }
  }

  /** The bound rows, as items in UTC. */
  method BindItems(items: seq<FeedItem>) returns (r: Option<seq<FeedItem>>)
    ensures r == AllInUtc(items)
  {
    var bound: seq<FeedItem> := [];
    var i := 0;
    while i < |items|
      invariant 0 <= i <= |items| && |bound| == i
      invariant forall k :: 0 <= k < i ==> InUtc(items[k]) == Some(bound[k])
    {
      var utc := InUtc(items[i]);
      if utc.None? { return None; }
      bound := bound + [utc.value];
      i := i + 1;
    }
    assert AllInUtc(items).Some?;
    assert bound == AllInUtc(items).value;
    return Some(bound);
  }
}
