/**
 * The life of an alert: an urgent item is delivered, its id is marked, the row expires, the marker
 * expires after it. Over whole runs no item is alerted again within the retention.
 */
module Alerts {
  import opened Wrappers
  import opened IsoTime
  import opened Models
  import opened Archive
  import opened Adapters
  import S = SqliteStore
  import P = PostgresStore

  const MAX_ALERTS: nat := 10

  // ---------- which items wait ----------

  ghost predicate Waits(t: Tables, id: string) {
    id in t.rows && t.rows[id].item.urgent && id !in t.marks && Visible(t.rows, id)
  }

  ghost function Waiting(t: Tables): set<string> { set id | id in t.rows && Waits(t, id) }

  predicate NewerItem(a: FeedItem, b: FeedItem) {
    a.published.Some? && (b.published.None? || Instant(a.published.value) > Instant(b.published.value))
  }

  ghost function NewerIn(rows: Rows): (string, string) -> bool {
    (a, b) => a in rows && b in rows && NewerItem(rows[a].item, rows[b].item)
  }

  /** What `unalerted_urgent_items` may answer: the newest that wait. */
  ghost predicate Picks(t: Tables, out: seq<string>) { Answer(Waiting(t), NewerIn(t.rows), MAX_ALERTS, out) }

  /** Both adapters select the urgent, unmarked and visible ids, newest first. */
  lemma PicksOfTables(t: Tables, out: seq<string>)
    requires ValidRows(t.rows) && ValidMarks(t.marks)
    ensures P.UrgentAnswer(P.Image(t.rows), t.marks, MAX_ALERTS, out) <==> Picks(t, out)
    ensures S.UrgentAnswer(S.Image(t.rows), S.MarksImage(t.marks), MAX_ALERTS, out) <==> Picks(t, out)
  {
    hide S.RowOf, P.RowOf, S.UrgentAnswer, S.Image, S.MarksImage, Answer, Stamp, P.TableNewer, NewerIn;
    AdaptersAgreeOnUrgent(t.rows, t.marks, MAX_ALERTS, out);
    SameLive(t.rows);
    var table := P.Image(t.rows);
    forall id | id in t.rows ensures P.UrgentSelects(table, t.marks, id) <==> Waits(t, id) { FilterColumns(t.rows[id]); }
    var s := set id | id in table && P.UrgentSelects(table, t.marks, id);
    assert s == Waiting(t);
    forall a, b | a in s && b in s ensures P.TableNewer(table)(a, b) <==> NewerIn(t.rows)(a, b) {
      NewerMeaning(t.rows, a, b);
    }
    SameAnswers(s, Waiting(t), P.TableNewer(table), NewerIn(t.rows), MAX_ALERTS, out);
  }

  lemma NewerMeaning(rows: Rows, a: string, b: string)
    requires ValidRows(rows) && a in rows && b in rows
    ensures P.TableNewer(P.Image(rows))(a, b) <==> NewerIn(rows)(a, b)
  {
    hide P.RowOf, Instant;
    var table, x, y := P.Image(rows), rows[a], rows[b];
    P.RowOfMeaning(x.item, x.firstSeen, x.lastSeen);
    P.RowOfMeaning(y.item, y.firstSeen, y.lastSeen);
    assert table[a] == P.RowOf(x.item, x.firstSeen, x.lastSeen) && table[b] == P.RowOf(y.item, y.firstSeen, y.lastSeen);
    assert P.TableNewer(table)(a, b) == P.Newer(table[a].published, table[b].published);
    assert NewerIn(rows)(a, b) == NewerItem(x.item, y.item);
  }

  // ---------- one delivery ----------

  datatype Channel = Discord | Slack | Email

  datatype Config = Config(discord: bool, slack: bool, email: bool)

  datatype Post = Post(id: string, channel: Channel, accepted: bool)

  function Channels(cfg: Config): seq<Channel> {
    (if cfg.discord then [Discord] else []) + (if cfg.slack then [Slack] else []) + (if cfg.email then [Email] else [])
  }

  /** Discord before Slack before e-mail, each when it is configured. */
  lemma ChannelsInOrder(cfg: Config)
    ensures (Discord in Channels(cfg) <==> cfg.discord) && (Slack in Channels(cfg) <==> cfg.slack) && (Email in Channels(cfg) <==> cfg.email)
    ensures cfg.discord ==> Channels(cfg)[0] == Discord
    ensures cfg.email ==> Channels(cfg)[|Channels(cfg)| - 1] == Email
    ensures forall i, j :: 0 <= i < j < |Channels(cfg)| ==> Channels(cfg)[i] != Channels(cfg)[j]
  {
  }

  /** The posts for one item: channel after channel, up to the first that refuses. */
  function Posts(channels: seq<Channel>, id: string, refusals: set<(string, Channel)>): seq<Post> {
    if channels == [] then [] else
      var accepted := (id, channels[0]) !in refusals;
      [Post(id, channels[0], accepted)] + if accepted then Posts(channels[1..], id, refusals) else []
  }

  /** Delivered: no configured channel refuses. Without any channel the log is enough. */
  predicate Delivers(cfg: Config, id: string, refusals: set<(string, Channel)>) {
    forall c :: c in Channels(cfg) ==> (id, c) !in refusals
  }

  function Delivered(cfg: Config, picked: seq<string>, refusals: set<(string, Channel)>): seq<string> {
    if picked == [] then [] else
      Delivered(cfg, picked[..|picked| - 1], refusals) +
        if Delivers(cfg, picked[|picked| - 1], refusals) then [picked[|picked| - 1]] else []
  }

  function AllPosts(cfg: Config, picked: seq<string>, refusals: set<(string, Channel)>): seq<Post> {
    if picked == [] then []
    else AllPosts(cfg, picked[..|picked| - 1], refusals) + Posts(Channels(cfg), picked[|picked| - 1], refusals)
  }

  lemma {:induction false} DeliveredMembers(cfg: Config, picked: seq<string>, refusals: set<(string, Channel)>)
    ensures forall id :: id in Delivered(cfg, picked, refusals) <==> id in picked && Delivers(cfg, id, refusals)
  {
    if picked != [] {
      DeliveredMembers(cfg, picked[..|picked| - 1], refusals);
      assert picked == picked[..|picked| - 1] + [picked[|picked| - 1]];
    }
  }

  lemma {:induction false} PostsFirst(c: Channel, rest: seq<Channel>, id: string, refusals: set<(string, Channel)>)
    ensures Posts([c] + rest, id, refusals) ==
              [Post(id, c, (id, c) !in refusals)] + if (id, c) in refusals then [] else Posts(rest, id, refusals)
  {
    assert ([c] + rest)[1..] == rest;
  }

  /** The posts by what the three channels answer. */
  lemma {:induction false} PostsInOrder(cfg: Config, id: string, refusals: set<(string, Channel)>)
    ensures var email := if cfg.email then [Post(id, Email, (id, Email) !in refusals)] else [];
            var slack := if !cfg.slack then email else
                           [Post(id, Slack, (id, Slack) !in refusals)] + if (id, Slack) in refusals then [] else email;
            Posts(Channels(cfg), id, refusals) == if !cfg.discord then slack else
                           [Post(id, Discord, (id, Discord) !in refusals)] + if (id, Discord) in refusals then [] else slack
  {
    hide Posts;
    var last := if cfg.email then [Email] else [];
    var later := if cfg.slack then [Slack] + last else last;
    assert Channels(cfg) == if cfg.discord then [Discord] + later else later;
    PostsFirst(Discord, later, id, refusals);
    PostsFirst(Slack, last, id, refusals);
    PostsFirst(Email, [], id, refusals);
    NoPosts(id, refusals);
    assert [Email] + [] == [Email];
  }

  lemma DeliversInOrder(cfg: Config, id: string, refusals: set<(string, Channel)>)
    ensures Delivers(cfg, id, refusals) <==>
              && (cfg.discord ==> (id, Discord) !in refusals) && (cfg.slack ==> (id, Slack) !in refusals)
              && (cfg.email ==> (id, Email) !in refusals)
  {
    assert cfg.discord ==> Discord in Channels(cfg);
    assert cfg.slack ==> Slack in Channels(cfg);
    assert cfg.email ==> Email in Channels(cfg);
  }

  method Deliver(cfg: Config, id: string, refusals: set<(string, Channel)>) returns (ok: bool, posts: seq<Post>)
    ensures ok <==> Delivers(cfg, id, refusals)
    ensures posts == Posts(Channels(cfg), id, refusals)
  {
    hide Posts, Channels, Delivers;
    PostsInOrder(cfg, id, refusals);
    DeliversInOrder(cfg, id, refusals);
    posts := [];
    if cfg.discord {
      posts := posts + [Post(id, Discord, (id, Discord) !in refusals)];
      if (id, Discord) in refusals { return false, posts; }
    }
    if cfg.slack {
      posts := posts + [Post(id, Slack, (id, Slack) !in refusals)];
      if (id, Slack) in refusals { return false, posts; }
    }
    if cfg.email {
      posts := posts + [Post(id, Email, (id, Email) !in refusals)];
      if (id, Email) in refusals { return false, posts; }
    }
    ok := true;
  }

  lemma {:induction false} NoPosts(id: string, refusals: set<(string, Channel)>)
    ensures Posts([], id, refusals) == []
  {
  }

  /** The loop of `send_urgent_alerts` over the items picked. */
  method DeliverAll(cfg: Config, picked: seq<string>, refusals: set<(string, Channel)>) returns (alerted: seq<string>, posts: seq<Post>)
    ensures alerted == Delivered(cfg, picked, refusals)
    ensures posts == AllPosts(cfg, picked, refusals)
    ensures forall id :: id in alerted <==> id in picked && Delivers(cfg, id, refusals)
  {
    hide Delivers, Posts;
    alerted, posts := [], [];
    var i := 0;
    while i < |picked|
      invariant 0 <= i <= |picked|
      invariant alerted == Delivered(cfg, picked[..i], refusals) && posts == AllPosts(cfg, picked[..i], refusals)
    {
      assert picked[..i + 1][..i] == picked[..i];
      var ok, sent := Deliver(cfg, picked[i], refusals);
      posts := posts + sent;
      if ok { alerted := alerted + [picked[i]]; }
      i := i + 1;
    }
    assert picked[..|picked|] == picked;
    DeliveredMembers(cfg, picked, refusals);
  }

  /** `send_urgent_alerts` for the items picked, or `None` when the query failed. */
  method SendUrgentAlerts(store: S.Store, cfg: Config, picked: Option<seq<string>>, refusals: set<(string, Channel)>,
                          marking: bool, now: int) returns (alerted: seq<string>, posts: seq<Post>)
    requires store.Valid() && InTime(now)
    requires picked.Some? ==> S.UrgentAnswer(store.feedItems, store.alertedItems, MAX_ALERTS, picked.value)
    modifies store
    ensures store.Valid() && store.rows == old(store.rows)
    ensures alerted == Delivered(cfg, picked.GetOr([]), refusals)
    ensures posts == AllPosts(cfg, picked.GetOr([]), refusals)
    ensures store.marks == if marking then MarkAll(old(store.marks), alerted, now) else old(store.marks)
  {
    hide Delivers, Posts, S.UrgentAnswer, S.Image, S.MarksImage, S.RowOf;
    if picked.None? { return [], []; }
    alerted, posts := DeliverAll(cfg, picked.value, refusals);
    if alerted != [] && marking { store.MarkAlerted(alerted, now); }
  }

  /** The same over PostgreSQL, where the marking also fails on an id it refuses. */
  method SendUrgentAlertsOnPostgres(store: P.Store, cfg: Config, picked: Option<seq<string>>, refusals: set<(string, Channel)>,
                                    marking: bool, now: int) returns (alerted: seq<string>, posts: seq<Post>)
    requires store.Valid() && InTime(now)
    requires picked.Some? ==> P.UrgentAnswer(store.feedItems, store.alertedItems, MAX_ALERTS, picked.value)
    modifies store
    ensures store.Valid() && store.rows == old(store.rows)
    ensures alerted == Delivered(cfg, picked.GetOr([]), refusals)
    ensures posts == AllPosts(cfg, picked.GetOr([]), refusals)
    ensures store.marks == if marking && P.NoNuls(alerted) then MarkAll(old(store.marks), alerted, now) else old(store.marks)
  {
    hide Delivers, Posts, P.UrgentAnswer, P.Image, P.RowOf, P.NoNul;
    if picked.None? { return [], []; }
    alerted, posts := DeliverAll(cfg, picked.value, refusals);
    if alerted != [] && marking { var _ := store.MarkAlerted(alerted, now); }
  }

  // ---------- runs ----------

  /**
   * What happens to the tables, by any number of replicas in any order: items are written; rows
   * expire, with a cutoff taken from a clock read at or before the statement; replica r selects
   * urgent items and delivers them; and later writes their markers, with a time read at or before
   * the statement. A replica that fails before it records selects anew.
   */
  datatype Event =
    | Write(items: seq<FeedItem>, at: int)
    | Expire(clock: int, at: int)
    | Select(r: nat, picked: seq<string>, refusals: set<(string, Channel)>, at: int)
    | Record(r: nat, marking: bool, clock: int, at: int)

  /** An entry of the log: an item delivered, or with a stamp its marker inserted. */
  datatype Entry = Entry(id: string, at: int, stamp: Option<int>)

  /** `delivered` holds what each replica has delivered and not yet recorded. */
  datatype World = World(tables: Tables, delivered: map<nat, seq<string>>, log: seq<Entry>)

  function Entries(ids: seq<string>, at: int, stamp: Option<int>): (r: seq<Entry>)
    ensures |r| == |ids| && forall i :: 0 <= i < |r| ==> r[i] == Entry(ids[i], at, stamp)
  {
    if ids == [] then [] else Entries(ids[..|ids| - 1], at, stamp) + [Entry(ids[|ids| - 1], at, stamp)]
  }

  /** The ids without a marker, each once: those an INSERT that ignores conflicts really inserts. */
  function Unmarked(marks: Marks, ids: seq<string>): (r: seq<string>)
    ensures forall id :: id in r <==> id in ids && id !in marks
    ensures forall i, j :: 0 <= i < j < |r| ==> r[i] != r[j]
  {
    if ids == [] then [] else
      var front, last := Unmarked(marks, ids[..|ids| - 1]), ids[|ids| - 1];
      if last in marks || last in front then front else front + [last]
  }

  /** `retention` is RETENTION_DAYS as a length of time; without one nothing expires. */
  function After(cfg: Config, retention: int, w: World, e: Event): World {
    match e
    case Write(items, at) => w.(tables := Step(w.tables, Upsert(items, at)))
    case Expire(clock, _) => if retention <= 0 then w else w.(tables := Step(w.tables, Prune(clock - retention)))
    case Select(r, picked, refusals, at) =>
      var ids := Delivered(cfg, picked, refusals);
      w.(delivered := w.delivered[r := ids], log := w.log + Entries(ids, at, None))
    case Record(r, marking, clock, at) =>
      if r !in w.delivered then w
      else if !marking then w.(delivered := w.delivered - {r})
      else World(Step(w.tables, Mark(w.delivered[r], clock)), w.delivered - {r},
                 w.log + Entries(Unmarked(w.tables.marks, w.delivered[r]), at, Some(clock)))
  }

  function Course(cfg: Config, retention: int, start: Tables, events: seq<Event>): World {
    if events == [] then World(start, map[], [])
    else After(cfg, retention, Course(cfg, retention, start, events[..|events| - 1]), events[|events| - 1])
  }

  ghost predicate Possible(w: World, e: Event) {
    match e
    case Expire(clock, at) => clock <= at
    case Select(_, picked, _, _) => Picks(w.tables, picked)
    case Record(_, _, clock, at) => clock <= at
    case _ => true
  }

  function Clock(events: seq<Event>): int {
    if events == [] then 0 else events[|events| - 1].at
  }

  /** Under a clock that does not run backwards. */
  ghost predicate Legal(cfg: Config, retention: int, start: Tables, events: seq<Event>) {
    events == [] ||
    (var front, last := events[..|events| - 1], events[|events| - 1];
     Legal(cfg, retention, start, front) && Possible(Course(cfg, retention, start, front), last)
     && (front != [] ==> Clock(front) <= last.at))
  }

  // ---------- what every run keeps ----------

  /** A recorded alert still has a marker as old as itself or newer, or it is past the retention. */
  ghost predicate Covered(marks: Marks, retention: int, clock: int, s: Entry) {
    s.stamp.Some? ==>
      (s.id in marks && marks[s.id] >= s.stamp.value) || (retention > 0 && s.stamp.value + retention < clock)
  }

  ghost predicate AllCovered(marks: Marks, log: seq<Entry>, retention: int, clock: int) {
    forall i :: 0 <= i < |log| ==> Covered(marks, retention, clock, log[i])
  }

  ghost predicate Apart(log: seq<Entry>, retention: int) {
    forall i, j :: 0 <= i < j < |log| && log[i].id == log[j].id && log[i].stamp.Some? ==>
      retention > 0 && log[j].at > log[i].stamp.value + retention
  }

  lemma ExpireCovers(t: Tables, log: seq<Entry>, retention: int, clock: int, e: Event)
    requires e.Expire? && retention > 0 && e.clock <= e.at && clock <= e.at && AllCovered(t.marks, log, retention, clock)
    ensures AllCovered(Step(t, Prune(e.clock - retention)).marks, log, retention, e.at)
  {
    hide PruneRows;
    var marks := Step(t, Prune(e.clock - retention)).marks;
    forall i | 0 <= i < |log| ensures Covered(marks, retention, e.at, log[i]) {
      assert Covered(t.marks, retention, clock, log[i]);
    }
  }

  lemma MarkCovers(marks: Marks, log: seq<Entry>, retention: int, clock: int, ids: seq<string>, at: int, stamp: int)
    requires AllCovered(marks, log, retention, clock) && clock <= at
    ensures AllCovered(MarkAll(marks, ids, stamp), log + Entries(Unmarked(marks, ids), at, Some(stamp)), retention, at)
  {
    hide MarkAll, Entries, Unmarked;
    MarkAllMeaning(marks, ids, stamp);
    var unmarked := Unmarked(marks, ids);
    var more := Entries(unmarked, at, Some(stamp));
    forall i | 0 <= i < |log + more| ensures Covered(MarkAll(marks, ids, stamp), retention, at, (log + more)[i]) {
      if i < |log| {
        assert Covered(marks, retention, clock, log[i]);
      } else {
        assert unmarked[i - |log|] in unmarked;
      }
    }
  }

  lemma CoveredIsApart(marks: Marks, retention: int, clock: int, earlier: Entry, later: Entry)
    requires Covered(marks, retention, clock, earlier) && earlier.stamp.Some? && earlier.id == later.id
    requires later.id !in marks && clock <= later.at
    ensures retention > 0 && later.at > earlier.stamp.value + retention
  {
  }

  lemma NewEntryApart(marks: Marks, log: seq<Entry>, retention: int, clock: int, ids: seq<string>, more: seq<Entry>, i: nat, l: nat)
    requires AllCovered(marks, log, retention, clock) && |more| == |ids| && l < |ids| && i < |log| + l
    requires forall k :: 0 <= k < |ids| ==> more[k].id == ids[k] && ids[k] !in marks && clock <= more[k].at
    requires forall k :: 0 <= k < l ==> ids[k] != ids[l]
    requires (log + more)[i].id == ids[l] && (log + more)[i].stamp.Some?
    ensures retention > 0 && more[l].at > (log + more)[i].stamp.value + retention
  {
    hide Covered;
    assert forall k :: |log| <= k < |log| + l ==> (log + more)[k].id == ids[k - |log|] != ids[l];
    assert i < |log| && (log + more)[i] == log[i];
    CoveredIsApart(marks, retention, clock, log[i], more[l]);
  }

  /** New entries of ids without a marker come after the retention of whatever they had. */
  lemma NewEntriesApart(marks: Marks, log: seq<Entry>, retention: int, clock: int, ids: seq<string>, at: int, stamp: Option<int>)
    requires AllCovered(marks, log, retention, clock) && Apart(log, retention) && clock <= at
    requires forall i :: 0 <= i < |ids| ==> ids[i] !in marks
    requires forall i, j :: 0 <= i < j < |ids| ==> ids[i] != ids[j]
    ensures Apart(log + Entries(ids, at, stamp), retention)
  {
    hide Entries, AllCovered;
    var n, more := |log|, Entries(ids, at, stamp);
    var all := log + more;
    forall i, j | 0 <= i < j < |all| && all[i].id == all[j].id && all[i].stamp.Some?
      ensures retention > 0 && all[j].at > all[i].stamp.value + retention
    {
      if j >= n {
        assert all[j] == more[j - n];
        NewEntryApart(marks, log, retention, clock, ids, more, i, j - n);
      } else {
        assert all[i] == log[i] && all[j] == log[j];
      }
    }
  }

  lemma PickedIsNew(t: Tables, cfg: Config, picked: seq<string>, refusals: set<(string, Channel)>)
    requires Picks(t, picked)
    ensures forall i :: 0 <= i < |Delivered(cfg, picked, refusals)| ==> Delivered(cfg, picked, refusals)[i] !in t.marks
    ensures forall i, j :: 0 <= i < j < |Delivered(cfg, picked, refusals)| ==>
              Delivered(cfg, picked, refusals)[i] != Delivered(cfg, picked, refusals)[j]
  {
    hide NewerIn, Visible;
    DeliveredMembers(cfg, picked, refusals);
    forall id | id in picked ensures id !in t.marks { assert id in Waiting(t); }
    DeliveredOnce(cfg, picked, refusals);
  }

  lemma {:induction false} DeliveredOnce(cfg: Config, picked: seq<string>, refusals: set<(string, Channel)>)
    requires forall i, j :: 0 <= i < j < |picked| ==> picked[i] != picked[j]
    ensures forall i, j :: 0 <= i < j < |Delivered(cfg, picked, refusals)| ==>
              Delivered(cfg, picked, refusals)[i] != Delivered(cfg, picked, refusals)[j]
  {
    hide Delivers;
    if picked != [] {
      var front, last := picked[..|picked| - 1], picked[|picked| - 1];
      DeliveredOnce(cfg, front, refusals);
      DeliveredMembers(cfg, front, refusals);
      assert last !in front;
    }
  }

  lemma StepKeeps(cfg: Config, retention: int, w: World, clock: int, e: Event)
    requires AllCovered(w.tables.marks, w.log, retention, clock) && Apart(w.log, retention) && clock <= e.at && Possible(w, e)
    ensures AllCovered(After(cfg, retention, w, e).tables.marks, After(cfg, retention, w, e).log, retention, e.at)
    ensures Apart(After(cfg, retention, w, e).log, retention)
  {
    hide Entries, Apart, MarkAll, Delivered, Picks, Covered, UpsertAll, PruneRows, PruneMarks, AllInUtc, AllCovered, Unmarked;
    var marks := w.tables.marks;
    LaterCovers(marks, w.log, retention, clock, e.at);
    match e
    case Write(_, _) =>
    case Expire(_, _) => if retention > 0 { ExpireCovers(w.tables, w.log, retention, clock, e); }
    case Select(_, picked, refusals, at) =>
      PickedIsNew(w.tables, cfg, picked, refusals);
      NewEntriesApart(marks, w.log, retention, clock, Delivered(cfg, picked, refusals), at, None);
      DeliveryCovers(marks, w.log, retention, at, Delivered(cfg, picked, refusals));
    case Record(r, marking, stamp, at) =>
      if r in w.delivered && marking {
        MarkCovers(marks, w.log, retention, clock, w.delivered[r], at, stamp);
        NewEntriesApart(marks, w.log, retention, clock, Unmarked(marks, w.delivered[r]), at, Some(stamp)) by {
          UnmarkedOnce(marks, w.delivered[r]);
        }
      }
  }

  lemma UnmarkedOnce(marks: Marks, ids: seq<string>)
    ensures forall i :: 0 <= i < |Unmarked(marks, ids)| ==> Unmarked(marks, ids)[i] !in marks
  {
    forall i | 0 <= i < |Unmarked(marks, ids)| ensures Unmarked(marks, ids)[i] !in marks {
      assert Unmarked(marks, ids)[i] in Unmarked(marks, ids);
    }
  }

  lemma LaterCovers(marks: Marks, log: seq<Entry>, retention: int, clock: int, later: int)
    requires AllCovered(marks, log, retention, clock) && clock <= later
    ensures AllCovered(marks, log, retention, later)
  {
    forall i | 0 <= i < |log| ensures Covered(marks, retention, later, log[i]) {
      assert Covered(marks, retention, clock, log[i]);
    }
  }

  lemma DeliveryCovers(marks: Marks, log: seq<Entry>, retention: int, at: int, ids: seq<string>)
    requires AllCovered(marks, log, retention, at)
    ensures AllCovered(marks, log + Entries(ids, at, None), retention, at)
  {
    hide Entries;
  }

  lemma {:induction false} CourseKeeps(cfg: Config, retention: int, start: Tables, events: seq<Event>)
    requires Legal(cfg, retention, start, events)
    ensures AllCovered(Course(cfg, retention, start, events).tables.marks, Course(cfg, retention, start, events).log, retention, Clock(events))
    ensures Apart(Course(cfg, retention, start, events).log, retention)
  {
    if events != [] {
      hide After, Possible, AllCovered, Apart;
      var front, e := events[..|events| - 1], events[|events| - 1];
      CourseKeeps(cfg, retention, start, front);
      if front == [] { NothingSent(start.marks, retention, e.at); }
      StepKeeps(cfg, retention, Course(cfg, retention, start, front), if front == [] then e.at else Clock(front), e);
    }
  }

  lemma NothingSent(marks: Marks, retention: int, clock: int)
    ensures AllCovered(marks, [], retention, clock)
  {
  }

  /**
   * After a marker has been inserted for an item, by whichever replica, the item is selected for
   * another alert, and another marker inserted, only when more than the retention has passed since
   * the marker's time; without a retention never.
   */
  lemma AlertsAreApart(cfg: Config, retention: int, start: Tables, events: seq<Event>, i: nat, j: nat)
    requires Legal(cfg, retention, start, events)
    requires i < j < |Course(cfg, retention, start, events).log|
    requires Course(cfg, retention, start, events).log[i].id == Course(cfg, retention, start, events).log[j].id
    requires Course(cfg, retention, start, events).log[i].stamp.Some?
    ensures retention > 0
    ensures Course(cfg, retention, start, events).log[j].at >
              Course(cfg, retention, start, events).log[i].stamp.value + retention
  {
    hide After, Possible, Course, Covered, Legal;
    CourseKeeps(cfg, retention, start, events);
  }

  // ---------- one step ----------

  /** A marker goes exactly when rows expire, its own row is gone or goes with it, and it is older than the cutoff. */
  lemma MarkerLossIsExact(cfg: Config, retention: int, w: World, e: Event, id: string)
    requires id in w.tables.marks
    ensures id !in After(cfg, retention, w, e).tables.marks <==>
            && e.Expire? && retention > 0 && w.tables.marks[id] < e.clock - retention
            && (id in w.tables.rows ==> !w.tables.rows[id].item.isSample && w.tables.rows[id].lastSeen < e.clock - retention)
  {
    hide MarkAll, AllInUtc, UpsertAll, Delivered, Entries, Unmarked;
    if e.Record? && e.r in w.delivered { MarkAllMeaning(w.tables.marks, w.delivered[e.r], e.clock); }
  }

  /** Recording takes from the waiting items exactly what the replica had delivered, and nothing else takes one. */
  lemma RecordTakes(cfg: Config, retention: int, w: World, e: Event)
    requires e.Record? || e.Select?
    ensures Waiting(After(cfg, retention, w, e).tables) ==
              if e.Record? && e.marking && e.r in w.delivered then Waiting(w.tables) - (set id | id in w.delivered[e.r])
              else Waiting(w.tables)
  {
    hide MarkAll, Delivered, Entries, Unmarked;
    if e.Record? && e.r in w.delivered { MarkAllMeaning(w.tables.marks, w.delivered[e.r], e.clock); }
  }

  lemma {:induction false} AcceptedPost(channels: seq<Channel>, id: string, refusals: set<(string, Channel)>)
    ensures (exists p :: p in Posts(channels, id, refusals) && p.accepted) <==> channels != [] && (id, channels[0]) !in refusals
  {
    var posts := Posts(channels, id, refusals);
    if channels != [] { assert posts[0] in posts && posts[0] == Post(id, channels[0], (id, channels[0]) !in refusals); }
  }

  /**
   * When an item some channel has taken waits again: exactly when the first configured channel
   * takes it and a later one refuses it or the marking fails. `v` is the world in which the replica
   * records what it selected before, with the item still there for it.
   */
  lemma RepeatIsExact(cfg: Config, retention: int, picked: seq<string>, refusals: set<(string, Channel)>, v: World, e: Event, id: string)
    requires id in picked && id in Waiting(v.tables)
    requires e.Record? && e.r in v.delivered && v.delivered[e.r] == Delivered(cfg, picked, refusals)
    ensures (exists p :: p in Posts(Channels(cfg), id, refusals) && p.accepted) && id in Waiting(After(cfg, retention, v, e).tables)
            <==>
            && Channels(cfg) != [] && (id, Channels(cfg)[0]) !in refusals
            && (!e.marking || exists c :: c in Channels(cfg) && (id, c) in refusals)
  {
    hide After, Waiting, Posts, Channels;
    AcceptedPost(Channels(cfg), id, refusals);
    RecordTakes(cfg, retention, v, e);
    DeliveredMembers(cfg, picked, refusals);
  }

  /** An item that is picked is posted to the first configured channel, each time. */
  lemma {:induction false} FirstChannelIsPosted(cfg: Config, picked: seq<string>, refusals: set<(string, Channel)>, id: string)
    requires id in picked && Channels(cfg) != []
    ensures Post(id, Channels(cfg)[0], (id, Channels(cfg)[0]) !in refusals) in AllPosts(cfg, picked, refusals)
  {
    hide Channels;
    var front, last := picked[..|picked| - 1], picked[|picked| - 1];
    if id == last {
      assert Posts(Channels(cfg), id, refusals)[0] == Post(id, Channels(cfg)[0], (id, Channels(cfg)[0]) !in refusals);
    } else {
      assert id in front;
      FirstChannelIsPosted(cfg, front, refusals, id);
    }
  }

  lemma {:induction false} AsManyIds(picked: seq<string>)
    requires forall i, j :: 0 <= i < j < |picked| ==> picked[i] != picked[j]
    ensures |set id | id in picked| == |picked|
  {
    if picked != [] {
      var front, last := picked[..|picked| - 1], picked[|picked| - 1];
      AsManyIds(front);
      assert picked == front + [last];
      assert (set id | id in picked) == (set id | id in front) + {last};
    }
  }

  /** When every channel accepts and nothing comes between, the queue shrinks by ten, or to nothing. */
  lemma QueueDrains(cfg: Config, retention: int, w: World, s: Event, e: Event)
    requires s.Select? && Picks(w.tables, s.picked) && s.refusals == {}
    requires e.Record? && e.r == s.r && e.marking
    ensures |Waiting(After(cfg, retention, After(cfg, retention, w, s), e).tables)| ==
              if |Waiting(w.tables)| > 10 then |Waiting(w.tables)| - 10 else 0
  {
    hide After, Picks, Waiting, Delivered, Delivers, Channels;
    var v := After(cfg, retention, w, s);
    SelectDelivers(cfg, retention, w, s);
    RecordTakes(cfg, retention, w, s);
    RecordTakes(cfg, retention, v, e);
    DeliveredMembers(cfg, s.picked, s.refusals);
    NobodyRefuses(cfg);
    PickedFacts(w.tables, s.picked);
    var taken := set id | id in s.picked;
    assert taken == set id | id in v.delivered[e.r];
    assert taken <= Waiting(w.tables);
  }

  lemma SelectDelivers(cfg: Config, retention: int, w: World, s: Event)
    requires s.Select?
    ensures var v := After(cfg, retention, w, s); s.r in v.delivered && v.delivered[s.r] == Delivered(cfg, s.picked, s.refusals)
  {
  }

  lemma NobodyRefuses(cfg: Config)
    ensures forall id :: Delivers(cfg, id, {})
  {
  }

  lemma PickedFacts(t: Tables, picked: seq<string>)
    requires Picks(t, picked)
    ensures |set id | id in picked| == if |Waiting(t)| > MAX_ALERTS then MAX_ALERTS else |Waiting(t)|
    ensures forall id :: id in picked ==> id in Waiting(t)
  {
    hide Waiting, NewerIn;
    AsManyIds(picked);
  }

  // ---------- the daily prune ----------

  const PRUNE_INTERVAL := DAY

  datatype PruneTry = PruneTry(now: int, works: bool)

  predicate PruneDue(days: int, last: Option<int>, now: int) {
    days > 0 && (last.None? || now - last.value >= PRUNE_INTERVAL)
  }

  function LastPrune(days: int, tries: seq<PruneTry>): Option<int> {
    if tries == [] then None else
      var last, t := LastPrune(days, tries[..|tries| - 1]), tries[|tries| - 1];
      if PruneDue(days, last, t.now) && t.works then Some(t.now) else last
  }

  /** The times of the prunes that got as far as the store and succeeded there. */
  function PruneTimes(days: int, tries: seq<PruneTry>): seq<int> {
    if tries == [] then [] else
      var front, t := tries[..|tries| - 1], tries[|tries| - 1];
      PruneTimes(days, front) + if PruneDue(days, LastPrune(days, front), t.now) && t.works then [t.now] else []
  }

  lemma {:induction false} LastPruneIsLatest(days: int, tries: seq<PruneTry>)
    ensures LastPrune(days, tries).Some? <==> PruneTimes(days, tries) != []
    ensures LastPrune(days, tries).Some? ==>
              var times := PruneTimes(days, tries); times[|times| - 1] == LastPrune(days, tries).value
    ensures forall x :: x in PruneTimes(days, tries) ==> x <= LastPrune(days, tries).value
  {
    if tries != [] { LastPruneIsLatest(days, tries[..|tries| - 1]); }
  }

  /** A refresh prunes exactly when there is a retention and no prune has succeeded within a day. */
  lemma PruneIsExact(days: int, tries: seq<PruneTry>, now: int)
    ensures PruneDue(days, LastPrune(days, tries), now) <==>
            days > 0 && forall x :: x in PruneTimes(days, tries) ==> now - x >= 24 * 60 * 60 * SECOND
  {
    LastPruneIsLatest(days, tries);
    var times := PruneTimes(days, tries);
    assert times != [] ==> times[|times| - 1] in times;
  }

  /** Whatever the clock does, two prunes are a day apart. */
  lemma {:induction false} PrunesAreSpaced(days: int, tries: seq<PruneTry>, i: nat, j: nat)
    requires i < j < |PruneTimes(days, tries)|
    ensures PruneTimes(days, tries)[j] - PruneTimes(days, tries)[i] >= 24 * 60 * 60 * SECOND
  {
    var front, t := tries[..|tries| - 1], tries[|tries| - 1];
    if j < |PruneTimes(days, front)| {
      PrunesAreSpaced(days, front, i, j);
    } else {
      PruneIsExact(days, front, t.now);
      assert PruneTimes(days, front)[i] in PruneTimes(days, front);
    }
  }

  class Retention {
    const days: int
    var lastPruneAt: Option<int>

    constructor (days: int)
      ensures this.days == days && lastPruneAt == None
    {
      this.days, lastPruneAt := days, None;
    }

    /** `_prune`: `now` and `utcNow` are the two clocks it reads; a cutoff before the first datetime is an error. */
    method Prune(store: S.Store, now: int, utcNow: int, works: bool) returns (r: Result<nat, string>)
      requires store.Valid() && InTime(utcNow)
      modifies this, store
      ensures var prunes := PruneDue(days, old(lastPruneAt), now) && works && InTime(utcNow - days * DAY);
              && lastPruneAt == (if prunes then Some(now) else old(lastPruneAt))
              && Tables(store.rows, store.marks) ==
                   (if prunes then Step(old(Tables(store.rows, store.marks)), Op.Prune(utcNow - days * DAY))
                    else old(Tables(store.rows, store.marks)))
              && (r.Failure? <==> PruneDue(days, old(lastPruneAt), now) && !prunes)
      ensures store.Valid()
    {
      hide PruneRows, PruneMarks, S.Image, S.MarksImage;
      if days <= 0 { return Success(0); }
      if lastPruneAt.Some? && now - lastPruneAt.value < PRUNE_INTERVAL { return Success(0); }
      var cutoff := utcNow - days * DAY;
      if !InTime(cutoff) { return Failure("OverflowError"); }
      if !works { return Failure("error"); }
      var deleted := store.PruneItems(cutoff);
      lastPruneAt := Some(now);
      return Success(deleted);
    }

    /** The same over PostgreSQL. */
    method PruneOnPostgres(store: P.Store, now: int, utcNow: int, works: bool) returns (r: Result<nat, string>)
      requires store.Valid() && InTime(utcNow)
      modifies this, store
      ensures var prunes := PruneDue(days, old(lastPruneAt), now) && works && InTime(utcNow - days * DAY);
              && lastPruneAt == (if prunes then Some(now) else old(lastPruneAt))
              && Tables(store.rows, store.marks) ==
                   (if prunes then Step(old(Tables(store.rows, store.marks)), Op.Prune(utcNow - days * DAY))
                    else old(Tables(store.rows, store.marks)))
              && (r.Failure? <==> PruneDue(days, old(lastPruneAt), now) && !prunes)
      ensures store.Valid()
    {
      hide PruneRows, PruneMarks, P.Image;
      if days <= 0 { return Success(0); }
      if lastPruneAt.Some? && now - lastPruneAt.value < PRUNE_INTERVAL { return Success(0); }
      var cutoff := utcNow - days * DAY;
      if !InTime(cutoff) { return Failure("OverflowError"); }
      if !works { return Failure("error"); }
      var deleted := store.PruneItems(cutoff);
      lastPruneAt := Some(now);
      return Success(deleted);
    }
  }
}
