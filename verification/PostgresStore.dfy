/** The PostgreSQL adapter: the archive as typed columns (timestamptz, jsonb, boolean). */
module PostgresStore {
  import opened Wrappers
  import opened Ordering
  import opened IsoTime
  import opened Like
  import opened JsonText
  import opened Models
  import opened Archive
  import SqliteStore

  datatype Row = Row(
    title: string, summary: string, url: string, source: string, sourceUrl: string,
    published: Option<int>, tags: seq<string>, cves: seq<string>, severity: string,
    urgent: bool, kev: bool, epssScore: Option<real>, isSample: bool,
    osvAffected: seq<string>, osvFixed: seq<string>, osvSeverity: Option<string>, patchStatus: string,
    firstSeen: int, lastSeen: int)

  /** `%s::jsonb` of a list the adapter printed with `json.dumps`. */
  function Jsonb(items: seq<string>): seq<string> { Loads(Dumps(items)).GetOr([]) }

  /** A timestamptz column assigned from ISO text: the moment, or no value for unreadable text. */
  function Timestamp(text: string): Option<int> {
    var dt := ParseIso(text);
    if dt.None? then None else Some(Instant(dt.value))
  }

  function RowOf(item: FeedItem, firstSeen: int, lastSeen: int): Row
    requires ValidStored(Stored(item, firstSeen, lastSeen))
  {
    Row(item.title, item.summary, item.url, item.source, item.sourceUrl,
        if item.published.None? then None else Timestamp(Iso(item.published.value)),
        Jsonb(SortedText(item.tags)), Jsonb(item.cves), item.severity,
        item.urgent, item.kev, item.epssScore, item.isSample,
        Jsonb(item.osvAffected), Jsonb(item.osvFixed), item.osvSeverity, item.patchStatus,
        Timestamp(Stamp(firstSeen)).GetOr(0), Timestamp(Stamp(lastSeen)).GetOr(0))
  }

  lemma TimestampOfIso(dt: DateTime)
    requires IsUtc(dt)
    ensures Timestamp(Iso(dt)) == Some(Instant(dt))
  {
    ParseOfIso(dt);
  }

  lemma TimestampOfStamp(n: int)
    requires InTime(n)
    ensures Timestamp(Stamp(n)) == Some(n)
  {
    ParseOfStamp(n);
  }

  /** Nothing of an item is lost on the way into the typed columns. */
  lemma RowOfMeaning(item: FeedItem, firstSeen: int, lastSeen: int)
    requires ValidStored(Stored(item, firstSeen, lastSeen))
    ensures var row := RowOf(item, firstSeen, lastSeen);
            && row.title == item.title && row.summary == item.summary && row.url == item.url
            && row.source == item.source && row.sourceUrl == item.sourceUrl && row.severity == item.severity
            && row.urgent == item.urgent && row.kev == item.kev && row.isSample == item.isSample
            && row.epssScore == item.epssScore && row.osvSeverity == item.osvSeverity && row.patchStatus == item.patchStatus
            && row.firstSeen == firstSeen && row.lastSeen == lastSeen
            && row.tags == SortedText(item.tags) && row.cves == item.cves
            && row.osvAffected == item.osvAffected && row.osvFixed == item.osvFixed
            && row.published == (if item.published.None? then None else Some(Instant(item.published.value)))
  {
    hide ParseIso, Iso, UtcFromMicros, Dumps, Loads, SortedText, Stamp, Timestamp, Instant;
    TimestampOfStamp(firstSeen);
    TimestampOfStamp(lastSeen);
    LoadsOfDumps(SortedText(item.tags));
    LoadsOfDumps(item.cves);
    LoadsOfDumps(item.osvAffected);
    LoadsOfDumps(item.osvFixed);
    if item.published.Some? { TimestampOfIso(item.published.value); }
  }

  function Image(rows: Rows): map<string, Row>
    requires ValidRows(rows)
  {
    map id | id in rows :: RowOf(rows[id].item, rows[id].firstSeen, rows[id].lastSeen)
  }

  /** `_row_to_item` before the final `item_to_dict`. */
  function ReadRow(id: string, row: Row): FeedItem
    requires row.published.Some? ==> InTime(row.published.value)
  {
    FeedItem(id, row.title, row.summary, row.url, row.source, row.sourceUrl,
             if row.published.None? then None else Some(UtcFromMicros(row.published.value)),
             (set t | t in row.tags), row.cves, TextOr(row.severity, UNKNOWN),
             row.urgent, row.kev, row.epssScore, row.isSample,
             row.osvAffected, row.osvFixed, row.osvSeverity, TextOr(row.patchStatus, UNKNOWN))
  }

  // ---------- query_feed, search_feed, unalerted_urgent_items ----------

  /** The `_HIDE_SAMPLE` predicate. */
  predicate HideSample(table: map<string, Row>, id: string)
    requires id in table
  {
    !table[id].isSample || !exists other :: other in table && !table[other].isSample
  }

  predicate QuerySelects(table: map<string, Row>, tag: Option<string>, severity: Option<string>, id: string)
    requires id in table
  {
    && HideSample(table, id)
    && (SqliteStore.Given(tag) ==> tag.value in table[id].tags)
    && (SqliteStore.Given(severity) ==> table[id].severity == severity.value)
  }

  /** `cves::text`: like `json.dumps`, except that jsonb prints characters beyond ASCII as themselves. */
  function JsonbEscape(s: string): string {
    if s == "" then "" else (if s[0] > '~' then [s[0]] else EscapeChar(s[0])) + JsonbEscape(s[1..])
  }

  function JsonbItems(items: seq<string>): string {
    if items == [] then ""
    else if |items| == 1 then "\"" + JsonbEscape(items[0]) + "\""
    else "\"" + JsonbEscape(items[0]) + "\"" + ", " + JsonbItems(items[1..])
  }

  function JsonbText(items: seq<string>): string { "[" + JsonbItems(items) + "]" }

  predicate SearchMatches(row: Row, q: string) {
    var like := "%" + EscapeLike(q) + "%";
    Matches(like, row.title) || Matches(like, row.summary) || Matches(like, row.source) || Matches(like, JsonbText(row.cves))
  }

  predicate SearchSelects(table: map<string, Row>, q: string, tag: Option<string>, severity: Option<string>, id: string)
    requires id in table
  {
    QuerySelects(table, tag, severity, id) && (q != "" ==> SearchMatches(table[id], q))
  }

  predicate UrgentSelects(table: map<string, Row>, alerted: Marks, id: string)
    requires id in table
  {
    table[id].urgent && id !in alerted && HideSample(table, id)
  }

  /** `published DESC NULLS LAST` */
  predicate Newer(a: Option<int>, b: Option<int>) {
    a.Some? && (b.None? || b.value < a.value)
  }

  /** `ORDER BY published DESC NULLS LAST, urgent DESC, last_seen DESC NULLS LAST` */
  predicate Ahead(a: Row, b: Row) {
    || Newer(a.published, b.published)
    || (a.published == b.published && ((a.urgent && !b.urgent) || (a.urgent == b.urgent && b.lastSeen < a.lastSeen)))
  }

  ghost function TableAhead(table: map<string, Row>): (string, string) -> bool {
    (a, b) => a in table && b in table && Ahead(table[a], table[b])
  }

  ghost function TableNewer(table: map<string, Row>): (string, string) -> bool {
    (a, b) => a in table && b in table && Newer(table[a].published, table[b].published)
  }

  ghost predicate SearchAnswer(table: map<string, Row>, q: string, tag: Option<string>, severity: Option<string>,
                               limit: nat, out: seq<string>) {
    Answer((set id | id in table && SearchSelects(table, q, tag, severity, id)), TableAhead(table), limit, out)
  }

  ghost predicate UrgentAnswer(table: map<string, Row>, alerted: Marks, limit: nat, out: seq<string>) {
    Answer((set id | id in table && UrgentSelects(table, alerted, id)), TableNewer(table), limit, out)
  }

  // ---------- statements ----------

  function InsertOrUpdate(table: map<string, Row>, id: string, row: Row): map<string, Row> {
    table[id := if id in table then row.(firstSeen := table[id].firstSeen) else row]
  }

  function DeleteOld(table: map<string, Row>, cutoff: int): map<string, Row> {
    map id | id in table && !(!table[id].isSample && table[id].lastSeen < cutoff) :: table[id]
  }

  function DeleteOldMarks(marks: Marks, table: map<string, Row>, cutoff: int): Marks {
    map id | id in marks && !(marks[id] < cutoff && id !in table) :: marks[id]
  }

  lemma DeleteOldMarksIsPrune(marks: Marks, rows: Rows, table: map<string, Row>, cutoff: int)
    requires rows.Keys == table.Keys
    ensures DeleteOldMarks(marks, table, cutoff) == PruneMarks(marks, rows, cutoff)
  {
    assert forall id :: id in rows <==> id in table.Keys;
  }

  lemma ImageOfUpsert(rows: Rows, item: FeedItem, now: int)
    requires ValidRows(rows) && InTime(now) && (item.published.Some? ==> IsUtc(item.published.value))
    ensures ValidRows(UpsertOne(rows, item, now))
    ensures Image(UpsertOne(rows, item, now)) == InsertOrUpdate(Image(rows), item.id, RowOf(item, now, now))
  {
    hide ParseIso, Iso, UtcFromMicros, Dumps, Loads, Jsonb, SortedText, Stamp, Timestamp, Instant;
  }

  lemma ImageOfPrune(rows: Rows, before: int)
    requires ValidRows(rows) && InTime(before)
    ensures ValidRows(PruneRows(rows, before))
    ensures Image(PruneRows(rows, before)) == DeleteOld(Image(rows), before)
  {
    hide ParseIso, Iso, UtcFromMicros, Dumps, Loads, Jsonb, SortedText, Stamp, Timestamp, Instant;
    forall id | id in rows ensures RowOf(rows[id].item, rows[id].firstSeen, rows[id].lastSeen).lastSeen == rows[id].lastSeen {
      RowOfMeaning(rows[id].item, rows[id].firstSeen, rows[id].lastSeen);
    }
  }

  // ---------- what PostgreSQL refuses ----------

  /** Neither text nor jsonb can hold U+0000. */
  predicate NoNul(s: string) { '\0' !in s }

  predicate NoNuls(texts: seq<string>) { forall i :: 0 <= i < |texts| ==> NoNul(texts[i]) }

  predicate Storable(item: FeedItem) {
    && NoNuls([item.id, item.title, item.summary, item.url, item.source, item.sourceUrl, item.severity, item.patchStatus])
    && (item.osvSeverity.Some? ==> NoNul(item.osvSeverity.value))
    && (forall t :: t in item.tags ==> NoNul(t)) && NoNuls(item.cves) && NoNuls(item.osvAffected) && NoNuls(item.osvFixed)
  }

  /** The texts of an item, as a caller would list them. */
  predicate IsTextOf(s: string, item: FeedItem) {
    || s == item.id || s == item.title || s == item.summary || s == item.url || s == item.source || s == item.sourceUrl
    || s == item.severity || s == item.patchStatus || item.osvSeverity == Some(s)
    || s in item.tags || s in item.cves || s in item.osvAffected || s in item.osvFixed
  }

  lemma StorableIsExact(item: FeedItem)
    ensures Storable(item) <==> forall s :: IsTextOf(s, item) ==> '\0' !in s
  {
    if forall s :: IsTextOf(s, item) ==> '\0' !in s {
      assert forall t :: t in item.tags || t in item.cves || t in item.osvAffected || t in item.osvFixed ==> IsTextOf(t, item);
      assert IsTextOf(item.id, item) && IsTextOf(item.title, item) && IsTextOf(item.summary, item) && IsTextOf(item.url, item);
      assert IsTextOf(item.source, item) && IsTextOf(item.sourceUrl, item) && IsTextOf(item.severity, item);
      assert IsTextOf(item.patchStatus, item) && (item.osvSeverity.Some? ==> IsTextOf(item.osvSeverity.value, item));
    }
    if Storable(item) {
      var texts := [item.id, item.title, item.summary, item.url, item.source, item.sourceUrl, item.severity, item.patchStatus];
      assert NoNuls(texts);
      assert NoNul(texts[0]) && NoNul(texts[1]) && NoNul(texts[2]) && NoNul(texts[3]);
      assert NoNul(texts[4]) && NoNul(texts[5]) && NoNul(texts[6]) && NoNul(texts[7]);
    }
  }

  predicate AllStorable(items: seq<FeedItem>) { forall i :: 0 <= i < |items| ==> Storable(items[i]) }

  lemma SameText(item: FeedItem, utc: FeedItem)
    requires InUtc(item) == Some(utc)
    ensures Storable(utc) <==> Storable(item)
    ensures utc.published.Some? ==> IsUtc(utc.published.value)
  {
  }

  lemma SameTexts(items: seq<FeedItem>, utc: seq<FeedItem>)
    requires AllInUtc(items) == Some(utc)
    ensures AllStorable(utc) <==> AllStorable(items)
    ensures forall i :: 0 <= i < |utc| ==> (utc[i].published.Some? ==> IsUtc(utc[i].published.value))
  {
    hide Storable, InUtc, IsUtc;
    forall i | 0 <= i < |items|
      ensures Storable(utc[i]) <==> Storable(items[i])
      ensures utc[i].published.Some? ==> IsUtc(utc[i].published.value)
    {
      SameText(items[i], utc[i]);
    }
  }

  lemma NothingToWrite(rows: Rows, now: int)
    ensures AllInUtc([]) == Some([]) && UpsertAll(rows, [], now) == rows && AllStorable([])
  {
  }

  // ---------- the store ----------

  /** `rows` and `marks` are the archive the two tables stand for. */
  class Store {
    var feedItems: map<string, Row>
    var alertedItems: Marks
    ghost var rows: Rows
    ghost var marks: Marks

    ghost predicate Valid()
      reads this
    {
      ValidRows(rows) && ValidMarks(marks) && feedItems == Image(rows) && alertedItems == marks
    }

    constructor ()
      ensures Valid() && rows == map[] && marks == map[]
    {
      feedItems, alertedItems, rows, marks := map[], map[], map[], map[];
    }

    /**
     * Binds every row, then writes all in one transaction: a date that cannot be converted and a
     * text that PostgreSQL refuses both leave the table as it was.
     */
    method UpsertItems(items: seq<FeedItem>, now: int) returns (r: Result<nat, string>)
      requires Valid() && InTime(now)
      modifies this
      ensures Valid() && marks == old(marks)
      ensures r.Success? <==> AllInUtc(items).Some? && AllStorable(items)
      ensures r.Success? ==> r.value == |items| && rows == UpsertAll(old(rows), AllInUtc(items).value, now)
      ensures r.Failure? ==> r.error == (if AllInUtc(items).None? then "OverflowError" else "DataError") && rows == old(rows)
    {
      hide RowOf, UpsertAll, Image, EnsureAware, Storable, AllStorable, ValidRows;
      if items == [] {
        NothingToWrite(rows, now);
        return Success(0);
      }
      var bound := SqliteStore.BindItems(items);
      if bound.None? { return Failure("OverflowError"); }
      SameTexts(items, bound.value);
      ghost var written;
      var table;
      table, written := Execute(feedItems, rows, bound.value, now);
      if table.None? { return Failure("DataError"); }
      feedItems, rows := table.value, written;
      return Success(|items|);
    }

    /** The statements of one transaction; `None` rolls it back. */
    static method Execute(table: map<string, Row>, ghost before: Rows, utc: seq<FeedItem>, now: int)
        returns (r: Option<map<string, Row>>, ghost written: Rows)
      requires ValidRows(before) && table == Image(before) && InTime(now)
      requires forall i :: 0 <= i < |utc| ==> (utc[i].published.Some? ==> IsUtc(utc[i].published.value))
      ensures r.Some? <==> AllStorable(utc)
      ensures r.Some? ==> written == UpsertAll(before, utc, now) && ValidRows(written) && r.value == Image(written)
    {
      hide RowOf, InsertOrUpdate, UpsertOne, Image, Stamp, Storable, ValidRows, IsUtc;
      var current := table;
      written := before;
      var i := 0;
      while i < |utc|
        invariant 0 <= i <= |utc|
        invariant ValidRows(written) && current == Image(written)
        invariant written == UpsertAll(before, utc[..i], now)
        invariant forall k :: 0 <= k < i ==> Storable(utc[k])
      {
        if !Storable(utc[i]) { return None, written; }
        ImageOfUpsert(written, utc[i], now);
        current := InsertOrUpdate(current, utc[i].id, RowOf(utc[i], now, now));
        written := UpsertOne(written, utc[i], now);
        assert utc[..i + 1][..i] == utc[..i];
        i := i + 1;
      }
      assert utc[..|utc|] == utc;
      return Some(current), written;
    }

    method PruneItems(before: int) returns (deleted: nat)
      requires Valid() && InTime(before)
      modifies this
      ensures Valid()
      ensures rows == PruneRows(old(rows), before)
      ensures marks == PruneMarks(old(marks), rows, before)
      ensures deleted == |old(rows)| - |rows|
    {
      hide RowOf, Image, PruneRows, DeleteOld, PruneMarks, DeleteOldMarks;
      ImageOfPrune(rows, before);
      PruneKeepsSome(rows, before);
      ImageKeys(rows);
      ImageKeys(PruneRows(rows, before));
      var kept := DeleteOld(feedItems, before);
      deleted := |feedItems.Keys - kept.Keys|;
      feedItems := kept;
      rows := PruneRows(rows, before);
      DeleteOldMarksIsPrune(marks, rows, feedItems, before);
      PruneMarksValid(marks, rows, before);
      alertedItems := DeleteOldMarks(alertedItems, feedItems, before);
      marks := PruneMarks(marks, rows, before);
    }

    /** One transaction: an id that PostgreSQL refuses leaves the markers as they were. */
    method MarkAlerted(ids: seq<string>, now: int) returns (r: Result<nat, string>)
      requires Valid() && InTime(now)
      modifies this
      ensures Valid() && rows == old(rows)
      ensures r == if forall i :: 0 <= i < |ids| ==> NoNul(ids[i]) then Success(0) else Failure("DataError")
      ensures marks == if r.Success? then MarkAll(old(marks), ids, now) else old(marks)
    {
      hide RowOf, Image, NoNul;
      var table, i := alertedItems, 0;
      while i < |ids|
        invariant 0 <= i <= |ids| && unchanged(this)
        invariant table == MarkAll(old(marks), ids[..i], now) && ValidMarks(table)
        invariant forall k :: 0 <= k < i ==> NoNul(ids[k])
      {
        assert ids[..i + 1][..i] == ids[..i];
        if !NoNul(ids[i]) { return Failure("DataError"); }
        if ids[i] !in table { table := table[ids[i] := now]; }
        i := i + 1;
      }
      assert ids[..|ids|] == ids;
      alertedItems, marks := table, table;
      return Success(0);
    }
  }

  lemma ImageKeys(rows: Rows)
    requires ValidRows(rows)
    ensures Image(rows).Keys == rows.Keys
  {
    hide RowOf;
  }
}
