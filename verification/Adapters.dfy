/**
 * The two storage adapters cannot be told apart: over tables that stand for the same archive their
 * queries have the same answers, and every row reads back as the same item.
 */
module Adapters {
  import opened Wrappers
  import opened Ordering
  import opened IsoTime
  import opened Like
  import opened JsonText
  import opened Models
  import opened Archive
  import S = SqliteStore
  import P = PostgresStore

  // ---------- rows ----------

  /** The item a caller sees: the stored one, with "unknown" for an empty severity or patch status. */
  function Shown(item: FeedItem): FeedItem {
    item.(severity := TextOr(item.severity, UNKNOWN), patchStatus := TextOr(item.patchStatus, UNKNOWN))
  }

  lemma ReadSqliteRow(s: Stored)
    requires ValidStored(s)
    ensures S.ReadRow(s.item.id, S.RowOf(s.item, s.firstSeen, s.lastSeen)) == Some(Shown(s.item))
  {
    hide ParseIso, Iso, UtcFromMicros, Dumps, Loads, SortedText, Stamp, Instant;
    LoadsOfDumps(SortedText(s.item.tags));
    LoadsOfDumps(s.item.cves);
    LoadsOfDumps(s.item.osvAffected);
    LoadsOfDumps(s.item.osvFixed);
    assert (set t | t in SortedText(s.item.tags)) == s.item.tags;
    NoEmptyDump(SortedText(s.item.tags));
    NoEmptyDump(s.item.cves);
    NoEmptyDump(s.item.osvAffected);
    NoEmptyDump(s.item.osvFixed);
    if s.item.published.Some? {
      ParseOfIso(s.item.published.value);
      IsoHasNoZ(s.item.published.value);
    }
  }

  lemma NoEmptyDump(items: seq<string>)
    ensures Dumps(items) != ""
  {
  }

  lemma ReadPostgresRow(s: Stored)
    requires ValidStored(s)
    ensures var row := P.RowOf(s.item, s.firstSeen, s.lastSeen);
            && (row.published.Some? ==> InTime(row.published.value))
            && P.ReadRow(s.item.id, row) == Shown(s.item)
  {
    hide ParseIso, Iso, UtcFromMicros, Dumps, Loads, SortedText, Stamp, P.Timestamp, P.Jsonb;
    P.RowOfMeaning(s.item, s.firstSeen, s.lastSeen);
    if s.item.published.Some? {
      var dt := s.item.published.value;
      WallRange(dt);
      WallOrder(dt, UtcFromMicros(Instant(dt)));
    }
  }

  // ---------- the order ----------

  ghost predicate Live(rows: Rows) { exists id :: id in rows && !rows[id].item.isSample }

  lemma SameAhead(a: Stored, b: Stored)
    requires ValidStored(a) && ValidStored(b)
    ensures S.Ahead(S.RowOf(a.item, a.firstSeen, a.lastSeen), S.RowOf(b.item, b.firstSeen, b.lastSeen)) <==>
            P.Ahead(P.RowOf(a.item, a.firstSeen, a.lastSeen), P.RowOf(b.item, b.firstSeen, b.lastSeen))
    ensures S.NewerText(S.RowOf(a.item, a.firstSeen, a.lastSeen).published, S.RowOf(b.item, b.firstSeen, b.lastSeen).published) <==>
            P.Newer(P.RowOf(a.item, a.firstSeen, a.lastSeen).published, P.RowOf(b.item, b.firstSeen, b.lastSeen).published)
  {
    hide ParseIso, Iso, UtcFromMicros, Dumps, Loads, SortedText, Stamp, P.Timestamp, P.Jsonb, TextLess, Instant, P.RowOf;
    P.RowOfMeaning(a.item, a.firstSeen, a.lastSeen);
    P.RowOfMeaning(b.item, b.firstSeen, b.lastSeen);
    SameUrgent(a);
    SameUrgent(b);
    StampOrder(b.lastSeen, a.lastSeen);
    if a.item.published.Some? && b.item.published.Some? {
      IsoOrder(b.item.published.value, a.item.published.value);
    }
  }

  lemma SameUrgent(s: Stored)
    requires ValidStored(s)
    ensures P.RowOf(s.item, s.firstSeen, s.lastSeen).urgent == s.item.urgent
    ensures P.RowOf(s.item, s.firstSeen, s.lastSeen).isSample == s.item.isSample
    ensures P.RowOf(s.item, s.firstSeen, s.lastSeen).severity == s.item.severity
  {
    hide ParseIso, Iso, UtcFromMicros, Dumps, Loads, SortedText, Stamp, P.Timestamp, P.Jsonb, TextLess, Instant;
  }

  // ---------- the selection ----------

  /** Not hidden by the sample rule. */
  ghost predicate Visible(rows: Rows, id: string)
    requires id in rows
  {
    Live(rows) ==> !rows[id].item.isSample
  }

  /** What the SQLite filter looks for: the query between quotes in the printed list, up to ASCII case. */
  ghost predicate TagShows(tags: set<string>, q: string) { Occurs("\"" + q + "\"", Dumps(SortedText(tags))) }

  /** Some stored tag, or what follows its last quote, is q up to ASCII case. */
  predicate Lookalike(tags: set<string>, q: string) {
    exists t :: t in tags && Fold(AfterLastQuote(t)) == Fold(q)
  }

  /**
   * The rows on which LIKE over the printed tags decides as containment does: a tag that is there
   * has to be printable ASCII, and for one that is not there nothing may look like it.
   */
  predicate TagClear(tags: set<string>, q: string) {
    if q in tags then Plain(q)
    else !Plain(q) || !(Lookalike(tags, q) || (q == ", " && |tags| >= 2))
  }

  lemma TagFilterIsSearch(tags: set<string>, q: string)
    ensures Matches("%\"" + EscapeLike(q) + "\"%", Dumps(SortedText(tags))) <==> TagShows(tags, q)
  {
    hide Matches, EscapeLike, Dumps, SortedText, Occurs;
    QuotedTagPattern(q);
    EscapedSearchIsContainment("\"" + q + "\"", Dumps(SortedText(tags)));
  }

  /** Decided by the tags, for a query without quotes and backslashes. */
  lemma TagFilterExact(tags: set<string>, q: string)
    requires QuoteFree(q) && '\\' !in q
    ensures (TagShows(tags, q) <==> q in tags) <==> TagClear(tags, q)
  {
    hide Matches, EscapeLike, Dumps, SortedText, Fold, Occurs;
    TagFilterIsSearch(tags, q);
    TagPatternIsMembership(SortedText(tags), q);
    SortedTextLength(tags);
    if q in tags { assert AfterLastQuote(q) == q; }
  }

  /** Tags and query in lower case, without quotes, and not the separator: what the program writes. */
  lemma LowerCaseTagsAreClear(tags: set<string>, q: string)
    requires Plain(q) && Fold(q) == q && q != ", "
    requires forall t :: t in tags ==> QuoteFree(t) && Fold(t) == t
    ensures TagClear(tags, q)
  {
  }

  predicate Ascii(s: string) { forall i :: 0 <= i < |s| ==> s[i] <= '~' }

  lemma {:induction false} JsonbEscapeOfAscii(s: string)
    requires Ascii(s)
    ensures P.JsonbEscape(s) == EscapeText(s)
  {
    if s != "" { JsonbEscapeOfAscii(s[1..]); }
  }

  lemma {:induction false} JsonbTextOfAscii(items: seq<string>)
    requires forall i :: 0 <= i < |items| ==> Ascii(items[i])
    ensures P.JsonbItems(items) == DumpItems(items)
  {
    if items != [] {
      JsonbEscapeOfAscii(items[0]);
      if |items| > 1 { JsonbTextOfAscii(items[1..]); }
    }
  }

  lemma SameLive(rows: Rows)
    requires ValidRows(rows)
    ensures S.HasLive(S.Image(rows)) <==> Live(rows)
    ensures (exists id :: id in P.Image(rows) && !P.Image(rows)[id].isSample) <==> Live(rows)
  {
    hide ParseIso, Iso, UtcFromMicros, Dumps, Loads, SortedText, Stamp, P.Timestamp, P.Jsonb, TextLess, Instant;
    if Live(rows) {
      var id :| id in rows && !rows[id].item.isSample;
      assert S.Image(rows)[id].isSample == 0;
      assert !P.Image(rows)[id].isSample;
    }
  }

  /** What the two rows for one stored item hold in the columns the filters read. */
  lemma FilterColumns(s: Stored)
    requires ValidStored(s)
    ensures var a, b := S.RowOf(s.item, s.firstSeen, s.lastSeen), P.RowOf(s.item, s.firstSeen, s.lastSeen);
            && a.title == b.title && a.summary == b.summary && a.source == b.source && a.severity == b.severity
            && (a.isSample == 0 <==> !s.item.isSample) && (b.isSample <==> s.item.isSample)
            && (a.urgent == 1 <==> s.item.urgent) && (b.urgent <==> s.item.urgent)
            && a.tags == Dumps(SortedText(s.item.tags)) && a.cves == Dumps(s.item.cves) && b.cves == s.item.cves
            && forall t :: t in b.tags <==> t in s.item.tags
  {
    hide ParseIso, Iso, UtcFromMicros, Dumps, Loads, SortedText, Stamp, P.Timestamp, P.Jsonb, TextLess, Instant;
    P.RowOfMeaning(s.item, s.firstSeen, s.lastSeen);
  }

  /** q stands, as it is written and up to ASCII case, in title, summary, source or this CVE text. */
  ghost predicate TextShows(item: FeedItem, q: string, cves: string) {
    Occurs(q, item.title) || Occurs(q, item.summary) || Occurs(q, item.source) || Occurs(q, cves)
  }

  /** What the SQLite filters come to, apart from severity and samples. */
  ghost predicate SqliteFinds(item: FeedItem, q: string, tag: Option<string>) {
    (S.Given(tag) ==> TagShows(item.tags, tag.value)) && (q != "" ==> TextShows(item, q, Dumps(item.cves)))
  }

  /** What the PostgreSQL filters come to: containment of the tag, and the CVE list as jsonb prints it. */
  ghost predicate PostgresFinds(item: FeedItem, q: string, tag: Option<string>) {
    (S.Given(tag) ==> tag.value in item.tags) && (q != "" ==> TextShows(item, q, P.JsonbText(item.cves)))
  }

  lemma TextColumns(s: Stored)
    requires ValidStored(s)
    ensures var a, b := S.RowOf(s.item, s.firstSeen, s.lastSeen), P.RowOf(s.item, s.firstSeen, s.lastSeen);
            && a.title == b.title == s.item.title && a.summary == b.summary == s.item.summary
            && a.source == b.source == s.item.source && a.severity == b.severity == s.item.severity
  {
    hide ParseIso, Iso, UtcFromMicros, Dumps, Loads, SortedText, Stamp, P.Timestamp, P.Jsonb, TextLess, Instant;
  }

  lemma SearchIsContainment(rows: Rows, q: string, id: string)
    requires ValidRows(rows) && id in rows
    ensures S.SearchMatches(S.Image(rows)[id], q) <==> TextShows(rows[id].item, q, Dumps(rows[id].item.cves))
    ensures P.SearchMatches(P.Image(rows)[id], q) <==> TextShows(rows[id].item, q, P.JsonbText(rows[id].item.cves))
  {
    hide Matches, EscapeLike, Dumps, SortedText, Stamp, Occurs, S.RowOf, P.RowOf, P.JsonbText;
    TextColumns(rows[id]);
    FilterColumns(rows[id]);
    var item := rows[id].item;
    EscapedSearchIsContainment(q, item.title);
    EscapedSearchIsContainment(q, item.summary);
    EscapedSearchIsContainment(q, item.source);
    EscapedSearchIsContainment(q, Dumps(item.cves));
    EscapedSearchIsContainment(q, P.JsonbText(item.cves));
  }

  /** The clauses of both queries, in terms of the stored item. */
  lemma SelectionIsContainment(rows: Rows, q: string, tag: Option<string>, severity: Option<string>, id: string)
    requires ValidRows(rows) && id in rows
    ensures S.SearchSelects(S.Image(rows), q, tag, severity, id) <==>
              Visible(rows, id) && SqliteFinds(rows[id].item, q, tag) && (S.Given(severity) ==> rows[id].item.severity == severity.value)
    ensures P.SearchSelects(P.Image(rows), q, tag, severity, id) <==>
              Visible(rows, id) && PostgresFinds(rows[id].item, q, tag) && (S.Given(severity) ==> rows[id].item.severity == severity.value)
  {
    hide Matches, EscapeLike, Dumps, SortedText, S.RowOf, P.RowOf, S.SearchMatches, P.SearchMatches, TextShows, TagShows;
    SameLive(rows);
    FilterColumns(rows[id]);
    TextColumns(rows[id]);
    SearchIsContainment(rows, q, id);
    if S.Given(tag) { TagFilterIsSearch(rows[id].item.tags, tag.value); }
  }

  /** The stored item on which the two ways to filter come to the same. */
  ghost predicate RowClear(item: FeedItem, q: string, tag: Option<string>) {
    SqliteFinds(item, q, tag) <==> PostgresFinds(item, q, tag)
  }

  ghost predicate RowsClear(rows: Rows, q: string, tag: Option<string>) {
    forall id :: id in rows && Visible(rows, id) ==> RowClear(rows[id].item, q, tag)
  }

  lemma JsonbTextOfPlainCves(item: FeedItem)
    requires forall i :: 0 <= i < |item.cves| ==> Ascii(item.cves[i])
    ensures P.JsonbText(item.cves) == Dumps(item.cves)
  {
    hide DumpItems, P.JsonbItems;
    JsonbTextOfAscii(item.cves);
  }

  /** What the program writes and asks is clear: a tag that meets its condition, and CVE ids in printable ASCII. */
  lemma PlainRowsAreClear(item: FeedItem, q: string, tag: Option<string>)
    requires S.Given(tag) ==> QuoteFree(tag.value) && '\\' !in tag.value && TagClear(item.tags, tag.value)
    requires forall i :: 0 <= i < |item.cves| ==> Ascii(item.cves[i])
    ensures RowClear(item, q, tag)
  {
    hide TagShows, TextShows, TagClear, Dumps, P.JsonbText;
    JsonbTextOfPlainCves(item);
    if S.Given(tag) { TagFilterExact(item.tags, tag.value); }
  }

  /** Without a text query the condition on a row is the condition on its tags. */
  lemma TagRowsAreClear(item: FeedItem, tag: string)
    requires tag != "" && QuoteFree(tag) && '\\' !in tag
    ensures RowClear(item, "", Some(tag)) <==> TagClear(item.tags, tag)
  {
    hide TagShows, TagClear;
    TagFilterExact(item.tags, tag);
  }

  // ---------- the answers ----------

  lemma SameTableOrder(rows: Rows, a: string, b: string)
    requires ValidRows(rows) && a in rows && b in rows
    ensures S.TableAhead(S.Image(rows))(a, b) <==> P.TableAhead(P.Image(rows))(a, b)
    ensures S.TableNewer(S.Image(rows))(a, b) <==> P.TableNewer(P.Image(rows))(a, b)
  {
    hide S.RowOf, P.RowOf, S.Ahead, P.Ahead, S.NewerText, P.Newer;
    SameAhead(rows[a], rows[b]);
    var s, p := S.Image(rows), P.Image(rows);
    assert s[a] == S.RowOf(rows[a].item, rows[a].firstSeen, rows[a].lastSeen);
    assert p[a] == P.RowOf(rows[a].item, rows[a].firstSeen, rows[a].lastSeen);
    assert S.TableAhead(s)(a, b) == S.Ahead(s[a], s[b]);
    assert P.TableAhead(p)(a, b) == P.Ahead(p[a], p[b]);
    assert S.TableNewer(s)(a, b) == S.NewerText(s[a].published, s[b].published);
    assert P.TableNewer(p)(a, b) == P.Newer(p[a].published, p[b].published);
  }

  /**
   * `search_feed` and, for an empty q, `query_feed`: on tables for the same archive the two
   * adapters may give exactly the same answers, in order and up to ties.
   */
  lemma AdaptersAgree(rows: Rows, q: string, tag: Option<string>, severity: Option<string>, limit: nat, out: seq<string>)
    requires ValidRows(rows) && RowsClear(rows, q, tag)
    ensures S.SearchAnswer(S.Image(rows), q, tag, severity, limit, out) <==>
            P.SearchAnswer(P.Image(rows), q, tag, severity, limit, out)
  {
    hide S.RowOf, P.RowOf, S.SearchSelects, P.SearchSelects, Answer, S.TableAhead, P.TableAhead, SqliteFinds, PostgresFinds;
    forall id | id in rows
      ensures S.SearchSelects(S.Image(rows), q, tag, severity, id) <==> P.SearchSelects(P.Image(rows), q, tag, severity, id)
    {
      SelectionIsContainment(rows, q, tag, severity, id);
    }
    var s := set id | id in S.Image(rows) && S.SearchSelects(S.Image(rows), q, tag, severity, id);
    var t := set id | id in P.Image(rows) && P.SearchSelects(P.Image(rows), q, tag, severity, id);
    assert s == t;
    forall a, b | a in s && b in s ensures S.TableAhead(S.Image(rows))(a, b) <==> P.TableAhead(P.Image(rows))(a, b) {
      SameTableOrder(rows, a, b);
    }
    SameAnswers(s, t, S.TableAhead(S.Image(rows)), P.TableAhead(P.Image(rows)), limit, out);
  }

  // ---------- what the answers are ----------

  predicate SameDate(a: Stored, b: Stored) {
    match (a.item.published, b.item.published)
    case (Some(x), Some(y)) => Instant(x) == Instant(y)
    case (None, None) => true
    case _ => false
  }

  /** Newest first with undated rows last; of one date the urgent first; of those the one seen last. */
  predicate InOrder(earlier: Stored, later: Stored) {
    && (later.item.published.Some? ==>
          earlier.item.published.Some? && Instant(earlier.item.published.value) >= Instant(later.item.published.value))
    && (SameDate(earlier, later) ==>
          && (later.item.urgent ==> earlier.item.urgent)
          && (earlier.item.urgent == later.item.urgent ==> earlier.lastSeen >= later.lastSeen))
  }

  /** What a caller may get: as many found ids as the limit allows, in order, and before all that are left out. */
  ghost predicate OrderedAnswer(rows: Rows, found: set<string>, limit: nat, out: seq<string>)
    requires found <= rows.Keys
  {
    && |out| == (if limit < |found| then limit else |found|)
    && (forall i :: 0 <= i < |out| ==> out[i] in found)
    && (forall i, j :: 0 <= i < j < |out| ==> out[i] != out[j] && InOrder(rows[out[i]], rows[out[j]]))
    && (forall i, id :: 0 <= i < |out| && id in found && id !in out ==> InOrder(rows[out[i]], rows[id]))
  }

  ghost function SqliteFound(rows: Rows, q: string, tag: Option<string>, severity: Option<string>): set<string> {
    set id | id in rows && Visible(rows, id) && SqliteFinds(rows[id].item, q, tag)
             && (severity.Some? && severity.value != "" ==> rows[id].item.severity == severity.value)
  }

  ghost function PostgresFound(rows: Rows, q: string, tag: Option<string>, severity: Option<string>): set<string> {
    set id | id in rows && Visible(rows, id) && PostgresFinds(rows[id].item, q, tag)
             && (severity.Some? && severity.value != "" ==> rows[id].item.severity == severity.value)
  }

  lemma AheadIsOrder(a: Stored, b: Stored)
    requires ValidStored(a) && ValidStored(b)
    ensures P.Ahead(P.RowOf(b.item, b.firstSeen, b.lastSeen), P.RowOf(a.item, a.firstSeen, a.lastSeen)) <==> !InOrder(a, b)
  {
    hide ParseIso, Iso, UtcFromMicros, Dumps, Loads, SortedText, Stamp, P.Timestamp, P.Jsonb, TextLess, Instant, P.RowOf;
    P.RowOfMeaning(a.item, a.firstSeen, a.lastSeen);
    P.RowOfMeaning(b.item, b.firstSeen, b.lastSeen);
    SameUrgent(a);
    SameUrgent(b);
  }

  lemma TableOrder(rows: Rows, a: string, b: string)
    requires ValidRows(rows) && a in rows && b in rows
    ensures S.TableAhead(S.Image(rows))(b, a) <==> !InOrder(rows[a], rows[b])
    ensures P.TableAhead(P.Image(rows))(b, a) <==> !InOrder(rows[a], rows[b])
  {
    hide S.RowOf, P.RowOf, P.Ahead, InOrder;
    SameTableOrder(rows, b, a);
    AheadIsOrder(rows[a], rows[b]);
    var p := P.Image(rows);
    assert p[a] == P.RowOf(rows[a].item, rows[a].firstSeen, rows[a].lastSeen);
    assert p[b] == P.RowOf(rows[b].item, rows[b].firstSeen, rows[b].lastSeen);
    assert P.TableAhead(p)(b, a) == P.Ahead(p[b], p[a]);
  }

  lemma AnswerIsOrdered(rows: Rows, found: set<string>, ahead: (string, string) -> bool, limit: nat, out: seq<string>)
    requires found <= rows.Keys
    requires forall a, b :: a in rows && b in rows ==> (ahead(b, a) <==> !InOrder(rows[a], rows[b]))
    ensures Answer(found, ahead, limit, out) <==> OrderedAnswer(rows, found, limit, out)
  {
    hide InOrder;
  }

  /** The answers of SQLite's query and search, in terms of the stored items and their moments. */
  lemma SqliteAnswers(rows: Rows, q: string, tag: Option<string>, severity: Option<string>, limit: nat, out: seq<string>)
    requires ValidRows(rows)
    ensures S.SearchAnswer(S.Image(rows), q, tag, severity, limit, out) <==>
            OrderedAnswer(rows, SqliteFound(rows, q, tag, severity), limit, out)
  {
    hide S.RowOf, S.SearchSelects, P.SearchSelects, S.TableAhead, P.TableAhead, SqliteFinds, PostgresFinds, InOrder, Answer, OrderedAnswer, Visible;
    forall id | id in rows
      ensures S.SearchSelects(S.Image(rows), q, tag, severity, id) <==> id in SqliteFound(rows, q, tag, severity)
    {
      SelectionIsContainment(rows, q, tag, severity, id);
    }
    assert SqliteFound(rows, q, tag, severity) == set id | id in S.Image(rows) && S.SearchSelects(S.Image(rows), q, tag, severity, id);
    forall a, b | a in rows && b in rows
      ensures S.TableAhead(S.Image(rows))(b, a) <==> !InOrder(rows[a], rows[b])
    {
      TableOrder(rows, a, b);
    }
    AnswerIsOrdered(rows, SqliteFound(rows, q, tag, severity), S.TableAhead(S.Image(rows)), limit, out);
  }

  /** The same of PostgreSQL's. */
  lemma PostgresAnswers(rows: Rows, q: string, tag: Option<string>, severity: Option<string>, limit: nat, out: seq<string>)
    requires ValidRows(rows)
    ensures P.SearchAnswer(P.Image(rows), q, tag, severity, limit, out) <==>
            OrderedAnswer(rows, PostgresFound(rows, q, tag, severity), limit, out)
  {
    hide P.RowOf, S.SearchSelects, P.SearchSelects, S.TableAhead, P.TableAhead, SqliteFinds, PostgresFinds, InOrder, Answer, OrderedAnswer, Visible;
    forall id | id in rows
      ensures P.SearchSelects(P.Image(rows), q, tag, severity, id) <==> id in PostgresFound(rows, q, tag, severity)
    {
      SelectionIsContainment(rows, q, tag, severity, id);
    }
    assert PostgresFound(rows, q, tag, severity) == set id | id in P.Image(rows) && P.SearchSelects(P.Image(rows), q, tag, severity, id);
    forall a, b | a in rows && b in rows
      ensures P.TableAhead(P.Image(rows))(b, a) <==> !InOrder(rows[a], rows[b])
    {
      TableOrder(rows, a, b);
    }
    AnswerIsOrdered(rows, PostgresFound(rows, q, tag, severity), P.TableAhead(P.Image(rows)), limit, out);
  }

  /** Two returned rows, and a returned row beside one the limit left out, by their moments. */
  lemma NewestComeFirst(rows: Rows, q: string, tag: Option<string>, severity: Option<string>, limit: nat, out: seq<string>, i: nat, id: string)
    requires ValidRows(rows) && i < |out|
    requires (S.SearchAnswer(S.Image(rows), q, tag, severity, limit, out) && id in SqliteFound(rows, q, tag, severity))
             || (P.SearchAnswer(P.Image(rows), q, tag, severity, limit, out) && id in PostgresFound(rows, q, tag, severity))
    requires id in out[i + 1..] || id !in out
    ensures out[i] in rows
    ensures var earlier, later := rows[out[i]], rows[id];
            && (later.item.published.Some? ==>
                  earlier.item.published.Some?
                  && Instant(earlier.item.published.value) >= Instant(later.item.published.value))
            && (earlier.item.published.None? && later.item.urgent ==> earlier.item.urgent)
            && (earlier.item.published.Some? && later.item.published.Some?
                && Instant(earlier.item.published.value) == Instant(later.item.published.value) ==>
                  (later.item.urgent ==> earlier.item.urgent)
                  && (earlier.item.urgent == later.item.urgent ==> earlier.lastSeen >= later.lastSeen))
            && (earlier.item.published.None? && later.item.published.None? && earlier.item.urgent == later.item.urgent ==>
                  earlier.lastSeen >= later.lastSeen)
  {
    hide S.SearchAnswer, P.SearchAnswer, S.Image, P.Image, Visible, SqliteFinds, PostgresFinds, Instant;
    SqliteAnswers(rows, q, tag, severity, limit, out);
    PostgresAnswers(rows, q, tag, severity, limit, out);
    if id in out[i + 1..] {
      var j :| 0 <= j < |out[i + 1..]| && out[i + 1..][j] == id;
      assert out[i + 1 + j] == id;
    }
    assert InOrder(rows[out[i]], rows[id]);
  }

  /** A filter that is absent or empty hides nothing, and an empty text is no text query. */
  lemma EmptyFiltersFindAll(rows: Rows, id: string)
    requires ValidRows(rows) && id in rows
    ensures S.SearchSelects(S.Image(rows), "", Some(""), Some(""), id) <==> Visible(rows, id)
    ensures P.SearchSelects(P.Image(rows), "", Some(""), Some(""), id) <==> Visible(rows, id)
    ensures S.SearchSelects(S.Image(rows), "", None, None, id) <==> Visible(rows, id)
    ensures P.SearchSelects(P.Image(rows), "", None, None, id) <==> Visible(rows, id)
  {
    hide S.SearchSelects, P.SearchSelects, S.RowOf, P.RowOf, Visible;
    SelectionIsContainment(rows, "", Some(""), Some(""), id);
    SelectionIsContainment(rows, "", None, None, id);
  }

  lemma SameUrgentSelection(rows: Rows, marks: Marks, id: string)
    requires ValidRows(rows) && ValidMarks(marks) && id in rows
    ensures S.UrgentSelects(S.Image(rows), S.MarksImage(marks), id) <==> P.UrgentSelects(P.Image(rows), marks, id)
  {
    hide S.RowOf, P.RowOf, Stamp;
    SameLive(rows);
    FilterColumns(rows[id]);
  }

  /** `unalerted_urgent_items`: the same answers, without any condition. */
  lemma AdaptersAgreeOnUrgent(rows: Rows, marks: Marks, limit: nat, out: seq<string>)
    requires ValidRows(rows) && ValidMarks(marks)
    ensures S.UrgentAnswer(S.Image(rows), S.MarksImage(marks), limit, out) <==> P.UrgentAnswer(P.Image(rows), marks, limit, out)
  {
    hide S.RowOf, P.RowOf, Answer, S.TableNewer, P.TableNewer, Stamp, S.UrgentSelects, P.UrgentSelects;
    forall id | id in rows
      ensures S.UrgentSelects(S.Image(rows), S.MarksImage(marks), id) <==> P.UrgentSelects(P.Image(rows), marks, id)
    {
      SameUrgentSelection(rows, marks, id);
    }
    var s := set id | id in S.Image(rows) && S.UrgentSelects(S.Image(rows), S.MarksImage(marks), id);
    var t := set id | id in P.Image(rows) && P.UrgentSelects(P.Image(rows), marks, id);
    assert s == t;
    forall a, b | a in s && b in s ensures S.TableNewer(S.Image(rows))(a, b) <==> P.TableNewer(P.Image(rows))(a, b) {
      SameTableOrder(rows, a, b);
    }
    SameAnswers(s, t, S.TableNewer(S.Image(rows)), P.TableNewer(P.Image(rows)), limit, out);
  }

  lemma PostgresOrderIsStrict(table: map<string, P.Row>, s: set<string>)
    ensures StrictOrder(s, P.TableAhead(table))
  {
    var ahead := P.TableAhead(table);
    forall a, b ensures ahead(a, b) <==> a in table && b in table && P.Ahead(table[a], table[b]) {
      assert P.TableAhead(table)(a, b) == (a in table && b in table && P.Ahead(table[a], table[b]));
    }
  }

  lemma OrdersAreStrict(rows: Rows, s: set<string>)
    requires ValidRows(rows) && s <= rows.Keys
    ensures StrictOrder(s, S.TableAhead(S.Image(rows))) && StrictOrder(s, P.TableAhead(P.Image(rows)))
  {
    hide S.RowOf, P.RowOf, S.TableAhead, P.TableAhead;
    PostgresOrderIsStrict(P.Image(rows), s);
    forall a, b | a in s && b in s ensures S.TableAhead(S.Image(rows))(a, b) <==> P.TableAhead(P.Image(rows))(a, b) {
      SameTableOrder(rows, a, b);
    }
  }

  ghost function SqliteChosen(rows: Rows, q: string, tag: Option<string>): set<string>
    requires ValidRows(rows)
  {
    set id | id in S.Image(rows) && S.SearchSelects(S.Image(rows), q, tag, None, id)
  }

  ghost function PostgresChosen(rows: Rows, q: string, tag: Option<string>): set<string>
    requires ValidRows(rows)
  {
    set id | id in P.Image(rows) && P.SearchSelects(P.Image(rows), q, tag, None, id)
  }

  ghost predicate QueriesAgree(rows: Rows, q: string, tag: Option<string>)
    requires ValidRows(rows)
  {
    forall severity, limit, out ::
      S.SearchAnswer(S.Image(rows), q, tag, severity, limit, out) <==> P.SearchAnswer(P.Image(rows), q, tag, severity, limit, out)
  }

  lemma AgreementMeansSameRows(rows: Rows, q: string, tag: Option<string>)
    requires ValidRows(rows) && QueriesAgree(rows, q, tag)
    ensures SqliteChosen(rows, q, tag) == PostgresChosen(rows, q, tag)
  {
    hide S.RowOf, P.RowOf, S.SearchSelects, P.SearchSelects, S.TableAhead, P.TableAhead;
    var s, t := SqliteChosen(rows, q, tag), PostgresChosen(rows, q, tag);
    OrdersAreStrict(rows, s);
    OrdersAreStrict(rows, t);
    var all := FullAnswerExists(s, S.TableAhead(S.Image(rows)));
    assert S.SearchAnswer(S.Image(rows), q, tag, None, |s|, all);
    assert P.SearchAnswer(P.Image(rows), q, tag, None, |s|, all);
    assert s <= t;
    all := FullAnswerExists(t, P.TableAhead(P.Image(rows)));
    assert P.SearchAnswer(P.Image(rows), q, tag, None, |t|, all);
    assert S.SearchAnswer(S.Image(rows), q, tag, None, |t|, all);
  }

  lemma SameChoiceMeansClear(rows: Rows, q: string, tag: Option<string>, id: string)
    requires ValidRows(rows) && id in rows && Visible(rows, id)
    requires S.SearchSelects(S.Image(rows), q, tag, None, id) <==> P.SearchSelects(P.Image(rows), q, tag, None, id)
    ensures RowClear(rows[id].item, q, tag)
  {
    hide S.SearchSelects, P.SearchSelects, SqliteFinds, PostgresFinds;
    SelectionIsContainment(rows, q, tag, None, id);
  }

  /**
   * For every text query and every tag: the adapters agree, whatever the severity and the limit, if
   * and only if on every visible row the quoted tag stands in the printed list exactly when the tag
   * is there, and the text in the printed CVEs exactly when it is in those jsonb prints, as far as
   * the other filter leaves it open.
   */
  lemma AgreementIsExact(rows: Rows, q: string, tag: Option<string>)
    requires ValidRows(rows)
    ensures QueriesAgree(rows, q, tag) <==> RowsClear(rows, q, tag)
  {
    hide S.RowOf, P.RowOf, S.SearchSelects, P.SearchSelects, S.SearchAnswer, P.SearchAnswer, RowClear;
    if RowsClear(rows, q, tag) {
      forall severity, limit, out
        ensures S.SearchAnswer(S.Image(rows), q, tag, severity, limit, out) <==> P.SearchAnswer(P.Image(rows), q, tag, severity, limit, out)
      {
        AdaptersAgree(rows, q, tag, severity, limit, out);
      }
    }
    if QueriesAgree(rows, q, tag) {
      AgreementMeansSameRows(rows, q, tag);
      forall id | id in rows && Visible(rows, id) ensures RowClear(rows[id].item, q, tag) {
        assert id in SqliteChosen(rows, q, tag) <==> id in PostgresChosen(rows, q, tag);
        SameChoiceMeansClear(rows, q, tag, id);
      }
    }
  }

  /** For the plain queries for a tag, in terms of the tags alone. */
  lemma TagAgreementIsExact(rows: Rows, tag: string)
    requires ValidRows(rows) && tag != "" && QuoteFree(tag) && '\\' !in tag
    ensures QueriesAgree(rows, "", Some(tag)) <==>
            forall id :: id in rows && Visible(rows, id) ==> TagClear(rows[id].item.tags, tag)
  {
    hide QueriesAgree, RowClear, TagClear, Visible;
    AgreementIsExact(rows, "", Some(tag));
    forall id | id in rows ensures RowClear(rows[id].item, "", Some(tag)) <==> TagClear(rows[id].item.tags, tag) {
      TagRowsAreClear(rows[id].item, tag);
    }
  }

  /** A witness that they differ: the separator as a tag, wherever a visible row has two tags and not that one. */
  lemma SeparatorTagDiffers(rows: Rows, id: string)
    requires ValidRows(rows) && id in rows && Visible(rows, id)
    requires |rows[id].item.tags| >= 2 && ", " !in rows[id].item.tags
    ensures !QueriesAgree(rows, "", Some(", "))
  {
    hide QueriesAgree, Visible;
    TagAgreementIsExact(rows, ", ");
    assert !TagClear(rows[id].item.tags, ", ");
  }

  // ---------- whole runs ----------

  /** What both take: text without U+0000, which PostgreSQL refuses. */
  predicate Accepted(op: Op) {
    match op
    case Upsert(items, _) => AllInUtc(items).None? || P.AllStorable(items)
    case Prune(_) => true
    case Mark(ids, _) => forall i :: 0 <= i < |ids| ==> P.NoNul(ids[i])
  }

  /**
   * The same calls on both adapters: as long as both take them they report the same results and
   * leave the same archive, and the first that PostgreSQL refuses shows in its result.
   */
  method RunOnBoth(sqlite: S.Store, postgres: P.Store, ops: seq<Op>)
      returns (a: seq<Result<nat, string>>, b: seq<Result<nat, string>>)
    requires sqlite.Valid() && postgres.Valid() && sqlite.rows == postgres.rows && sqlite.marks == postgres.marks
    requires forall i :: 0 <= i < |ops| ==> OpInTime(ops[i])
    modifies sqlite, postgres
    ensures sqlite.Valid() && postgres.Valid() && |a| == |b| == |ops|
    ensures Tables(sqlite.rows, sqlite.marks) == Run(old(Tables(sqlite.rows, sqlite.marks)), ops)
    ensures a == b <==> forall i :: 0 <= i < |ops| ==> Accepted(ops[i])
    ensures a == b ==> Tables(postgres.rows, postgres.marks) == Tables(sqlite.rows, sqlite.marks)
  {
    hide S.RowOf, P.RowOf, S.Image, P.Image, UpsertAll, PruneRows, PruneMarks, MarkAll, AllInUtc, P.AllStorable, P.NoNul, Run;
    a, b := [], [];
    var i := 0;
    RunNothing(Tables(sqlite.rows, sqlite.marks));
    while i < |ops|
      invariant 0 <= i <= |ops| && |a| == |b| == i
      invariant sqlite.Valid() && postgres.Valid()
      invariant Tables(sqlite.rows, sqlite.marks) == Run(old(Tables(sqlite.rows, sqlite.marks)), ops[..i])
      invariant a == b <==> forall k :: 0 <= k < i ==> Accepted(ops[k])
      invariant a == b ==> Tables(postgres.rows, postgres.marks) == Tables(sqlite.rows, sqlite.marks)
    {
      RunOneMore(old(Tables(sqlite.rows, sqlite.marks)), ops, i);
      var x, y := RunOne(sqlite, postgres, ops[i]);
      SameSoFar(a, x, b, y);
      a, b := a + [x], b + [y];
      i := i + 1;
    }
    assert ops[..|ops|] == ops;
  }

  lemma RunNothing(t: Tables)
    ensures Run(t, []) == t
  {
  }

  lemma RunOneMore(t: Tables, ops: seq<Op>, i: nat)
    requires i < |ops|
    ensures Run(t, ops[..i + 1]) == Step(Run(t, ops[..i]), ops[i])
  {
    assert ops[..i + 1][..i] == ops[..i];
  }

  lemma SameSoFar<T>(a: seq<T>, x: T, b: seq<T>, y: T)
    requires |a| == |b|
    ensures a + [x] == b + [y] <==> a == b && x == y
  {
    assert (a + [x])[|a|] == x && (b + [y])[|b|] == y;
    assert (a + [x])[..|a|] == a && (b + [y])[..|b|] == b;
  }

  /** One call on both; whatever the second archive is, the results differ when only one takes the call. */
  method RunOne(sqlite: S.Store, postgres: P.Store, op: Op) returns (x: Result<nat, string>, y: Result<nat, string>)
    requires sqlite.Valid() && postgres.Valid() && OpInTime(op)
    modifies sqlite, postgres
    ensures sqlite.Valid() && postgres.Valid()
    ensures Tables(sqlite.rows, sqlite.marks) == Step(old(Tables(sqlite.rows, sqlite.marks)), op)
    ensures !Accepted(op) ==> x != y
    ensures Accepted(op) ==> Tables(postgres.rows, postgres.marks) == Step(old(Tables(postgres.rows, postgres.marks)), op)
    ensures Accepted(op) && old(Tables(sqlite.rows, sqlite.marks)) == old(Tables(postgres.rows, postgres.marks)) ==> x == y
  {
    hide S.RowOf, P.RowOf, S.Image, P.Image, UpsertAll, PruneRows, PruneMarks, MarkAll, AllInUtc, P.AllStorable, P.NoNul;
    match op {
      case Upsert(items, now) =>
        x := sqlite.UpsertItems(items, now);
        y := postgres.UpsertItems(items, now);
      case Prune(before) =>
        var m := sqlite.PruneItems(before);
        var n := postgres.PruneItems(before);
        x, y := Success(m), Success(n);
      case Mark(ids, now) =>
        sqlite.MarkAlerted(ids, now);
        x := Success(0);
        y := postgres.MarkAlerted(ids, now);
    }
  }
}
