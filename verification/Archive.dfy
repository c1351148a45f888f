/**
 * The archive both storage adapters stand for: feed rows keyed by id, alert markers keyed by item
 * id, the statements that change them, and what an ORDER BY ... LIMIT query may answer.
 */
module Archive {
  import opened Wrappers
  import opened IsoTime
  import opened Models

  datatype Stored = Stored(item: FeedItem, firstSeen: int, lastSeen: int)

  type Rows = map<string, Stored>
  type Marks = map<string, int>

  predicate ValidStored(s: Stored) {
    && InTime(s.firstSeen) && InTime(s.lastSeen)
    && (s.item.published.Some? ==> IsUtc(s.item.published.value))
  }

  predicate ValidRows(rows: Rows) {
    forall id :: id in rows ==> ValidStored(rows[id]) && rows[id].item.id == id
  }

  predicate ValidMarks(marks: Marks) {
    forall id :: id in marks ==> InTime(marks[id])
  }

  // ---------- statements ----------

  /** Insert, or update everything but `first_seen`. */
  function UpsertOne(rows: Rows, item: FeedItem, now: int): Rows {
    rows[item.id := Stored(item, if item.id in rows then rows[item.id].firstSeen else now, now)]
  }

  function UpsertAll(rows: Rows, items: seq<FeedItem>, now: int): Rows {
    if items == [] then rows else UpsertOne(UpsertAll(rows, items[..|items| - 1], now), items[|items| - 1], now)
  }

  /** The items with their dates in UTC; `None` when one date cannot be converted. */
  function AllInUtc(items: seq<FeedItem>): (r: Option<seq<FeedItem>>)
    ensures r.Some? ==> |r.value| == |items|
    ensures r.Some? <==> forall i :: 0 <= i < |items| ==> InUtc(items[i]).Some?
    ensures r.Some? ==> forall i :: 0 <= i < |items| ==> InUtc(items[i]) == Some(r.value[i])
  {
    if items == [] then Some([]) else
      var front, last := AllInUtc(items[..|items| - 1]), InUtc(items[|items| - 1]);
      if front.Some? && last.Some? then Some(front.value + [last.value])
      else
        assert forall i :: 0 <= i < |items| - 1 ==> items[..|items| - 1][i] == items[i];
        None
  }

  /** DELETE of the rows that are not samples and were last seen before the cutoff. */
  function PruneRows(rows: Rows, cutoff: int): Rows {
    map id | id in rows && (rows[id].item.isSample || rows[id].lastSeen >= cutoff) :: rows[id]
  }

  /** DELETE of the markers older than the cutoff whose row is gone. */
  function PruneMarks(marks: Marks, rows: Rows, cutoff: int): Marks {
    map id | id in marks && (marks[id] >= cutoff || id in rows) :: marks[id]
  }

  /** INSERT OR IGNORE of one marker per id. */
  function MarkAll(marks: Marks, ids: seq<string>, now: int): Marks {
    if ids == [] then marks else
      var before := MarkAll(marks, ids[..|ids| - 1], now);
      var id := ids[|ids| - 1];
      if id in before then before else before[id := now]
  }

  // ---------- runs of statements ----------

  datatype Tables = Tables(rows: Rows, marks: Marks)

  datatype Op = Upsert(items: seq<FeedItem>, now: int) | Prune(before: int) | Mark(ids: seq<string>, now: int)

  predicate OpInTime(op: Op) {
    match op
    case Upsert(_, now) => InTime(now)
    case Prune(before) => InTime(before)
    case Mark(_, now) => InTime(now)
  }

  function Step(t: Tables, op: Op): Tables {
    match op
    case Upsert(items, now) =>
      var utc := AllInUtc(items);
      if utc.None? then t else t.(rows := UpsertAll(t.rows, utc.value, now))
    case Prune(before) =>
      var rows := PruneRows(t.rows, before);
      Tables(rows, PruneMarks(t.marks, rows, before))
    case Mark(ids, now) => t.(marks := MarkAll(t.marks, ids, now))
  }

  function Run(t: Tables, ops: seq<Op>): Tables {
    if ops == [] then t else Step(Run(t, ops[..|ops| - 1]), ops[|ops| - 1])
  }

  lemma PruneKeepsSome(rows: Rows, cutoff: int)
    requires ValidRows(rows)
    ensures ValidRows(PruneRows(rows, cutoff))
    ensures |rows.Keys - PruneRows(rows, cutoff).Keys| == |rows| - |PruneRows(rows, cutoff)|
  {
    var kept := PruneRows(rows, cutoff);
    assert rows.Keys == kept.Keys + (rows.Keys - kept.Keys);
  }

  lemma PruneMarksValid(marks: Marks, rows: Rows, cutoff: int)
    requires ValidMarks(marks)
    ensures ValidMarks(PruneMarks(marks, rows, cutoff))
  {
  }

  lemma {:induction false} UpsertAllValid(rows: Rows, items: seq<FeedItem>, now: int)
    requires ValidRows(rows) && InTime(now)
    requires forall i :: 0 <= i < |items| ==> (items[i].published.Some? ==> IsUtc(items[i].published.value))
    ensures ValidRows(UpsertAll(rows, items, now))
  {
    if items != [] { UpsertAllValid(rows, items[..|items| - 1], now); }
  }

  /** The last item of an id. */
  function LastWith(items: seq<FeedItem>, id: string): Option<FeedItem> {
    if items == [] then None
    else if items[|items| - 1].id == id then Some(items[|items| - 1])
    else LastWith(items[..|items| - 1], id)
  }

  /**
   * A batch leaves the last item of every id, seen now, with the first-seen time the row had or
   * now; the other rows stay.
   */
  lemma {:induction false} UpsertAllMeaning(rows: Rows, items: seq<FeedItem>, now: int, id: string)
    ensures var r := UpsertAll(rows, items, now);
            match LastWith(items, id)
            case None => (id in r <==> id in rows) && (id in r ==> r[id] == rows[id])
            case Some(item) => id in r && r[id] == Stored(item, if id in rows then rows[id].firstSeen else now, now)
  {
    if items != [] { UpsertAllMeaning(rows, items[..|items| - 1], now, id); }
  }

  lemma {:induction false} MarkAllMeaning(marks: Marks, ids: seq<string>, now: int)
    ensures var r := MarkAll(marks, ids, now); r.Keys == marks.Keys + (set id | id in ids)
    ensures forall id :: id in MarkAll(marks, ids, now) ==>
              MarkAll(marks, ids, now)[id] == if id in marks then marks[id] else now
  {
    if ids != [] {
      MarkAllMeaning(marks, ids[..|ids| - 1], now);
      assert ids == ids[..|ids| - 1] + [ids[|ids| - 1]];
    }
  }

  // ---------- the history of a row ----------

  /** The writes and the prunes of a run, under a clock that does not run backwards. */
  ghost predicate Clocked(ops: seq<Op>, clock: int) {
    && (forall i :: 0 <= i < |ops| && ops[i].Upsert? ==> ops[i].now <= clock)
    && (forall i, j :: 0 <= i < j < |ops| && ops[i].Upsert? && ops[j].Upsert? ==> ops[i].now <= ops[j].now)
  }

  /**
   * While a row stays, its first-seen time does not change and its last-seen time does not go
   * back; a row that disappears has been pruned.
   */
  lemma StepKeepsFirstSeen(t: Tables, op: Op, id: string)
    requires id in t.rows
    ensures var rows := Step(t, op).rows;
            if id in rows then
              rows[id].firstSeen == t.rows[id].firstSeen
              && (op.Upsert? && t.rows[id].lastSeen <= op.now ==> t.rows[id].lastSeen <= rows[id].lastSeen)
              && (!op.Upsert? ==> rows[id] == t.rows[id])
            else op.Prune? && !t.rows[id].item.isSample && t.rows[id].lastSeen < op.before
    ensures op.Prune? && !t.rows[id].item.isSample && t.rows[id].lastSeen < op.before ==> id !in Step(t, op).rows
  {
    if op.Upsert? && AllInUtc(op.items).Some? { UpsertAllMeaning(t.rows, AllInUtc(op.items).value, op.now, id); }
  }

  /** Over whole runs from empty tables: every row was first seen no later than last, and last no later than now. */
  lemma {:induction false} RowsAreOrdered(ops: seq<Op>, clock: int)
    requires Clocked(ops, clock)
    ensures forall id :: id in Run(Tables(map[], map[]), ops).rows ==>
              var s := Run(Tables(map[], map[]), ops).rows[id]; s.firstSeen <= s.lastSeen <= clock
  {
    if ops != [] {
      hide UpsertAll, PruneRows, PruneMarks, MarkAll, AllInUtc, LastWith;
      var front, last := ops[..|ops| - 1], ops[|ops| - 1];
      var before := Run(Tables(map[], map[]), front);
      RowsAreOrdered(front, if last.Upsert? then last.now else clock);
      forall id | id in Step(before, last).rows
        ensures var s := Step(before, last).rows[id]; s.firstSeen <= s.lastSeen <= clock
      {
        StepOrders(before, last, id);
      }
    }
  }

  lemma StepOrders(t: Tables, op: Op, id: string)
    requires id in Step(t, op).rows
    requires id in t.rows ==> t.rows[id].firstSeen <= t.rows[id].lastSeen && (op.Upsert? ==> t.rows[id].lastSeen <= op.now)
    ensures var s := Step(t, op).rows[id];
            s.firstSeen <= s.lastSeen && ((id in t.rows && s == t.rows[id]) || (op.Upsert? && s.lastSeen == op.now))
  {
    if op.Upsert? && AllInUtc(op.items).Some? { UpsertAllMeaning(t.rows, AllInUtc(op.items).value, op.now, id); }
  }

  // ---------- answers to a query ----------

  /**
   * What `SELECT ... ORDER BY ... LIMIT limit` may return for the selected ids: as many as the
   * limit allows, none twice, in order, and nothing left out that is strictly ahead of one
   * returned. Ties may come in any order.
   */
  ghost predicate Answer(selected: set<string>, ahead: (string, string) -> bool, limit: nat, out: seq<string>) {
    && |out| == (if limit < |selected| then limit else |selected|)
    && (forall i :: 0 <= i < |out| ==> out[i] in selected)
    && (forall i, j :: 0 <= i < j < |out| ==> out[i] != out[j] && !ahead(out[j], out[i]))
    && (forall i, id :: 0 <= i < |out| && id in selected && id !in out ==> !ahead(id, out[i]))
  }

  ghost predicate StrictOrder(s: set<string>, ahead: (string, string) -> bool) {
    && (forall a :: a in s ==> !ahead(a, a))
    && (forall a, b, c :: a in s && b in s && c in s && ahead(a, b) && ahead(b, c) ==> ahead(a, c))
  }

  lemma {:induction false} FirstExists(s: set<string>, ahead: (string, string) -> bool) returns (m: string)
    requires s != {} && StrictOrder(s, ahead)
    ensures m in s && forall x :: x in s ==> !ahead(x, m)
  {
    var x :| x in s;
    m := x;
    if s != {x} {
      var rest := s - {x};
      var first := FirstExists(rest, ahead);
      m := if ahead(x, first) then x else first;
      forall y | y in s ensures !ahead(y, m) {
        if y != x { assert y in rest; }
      }
    }
  }

  lemma {:induction false} FullAnswerExists(s: set<string>, ahead: (string, string) -> bool) returns (out: seq<string>)
    requires StrictOrder(s, ahead)
    ensures Answer(s, ahead, |s|, out)
    ensures forall id :: id in s ==> id in out
  {
    if s == {} {
      out := [];
    } else {
      var m := FirstExists(s, ahead);
      var rest := FullAnswerExists(s - {m}, ahead);
      out := [m] + rest;
      forall id | id in s ensures id in out {
        if id != m { assert id in rest; }
      }
    }
  }

  /** Every query has an answer. */
  lemma AnswerExists(s: set<string>, ahead: (string, string) -> bool, limit: nat) returns (out: seq<string>)
    requires StrictOrder(s, ahead)
    ensures Answer(s, ahead, limit, out)
  {
    var full := FullAnswerExists(s, ahead);
    out := if limit < |s| then full[..limit] else full;
    assert forall k :: 0 <= k < |out| ==> out[k] == full[k];
    forall i, id | 0 <= i < |out| && id in s && id !in out ensures !ahead(id, out[i]) {
      var k :| 0 <= k < |full| && full[k] == id;
    }
  }

  /** Two queries that select the same rows and compare them alike have the same answers. */
  lemma SameAnswers(s: set<string>, t: set<string>, ahead1: (string, string) -> bool, ahead2: (string, string) -> bool,
                    limit: nat, out: seq<string>)
    requires s == t
    requires forall a, b :: a in s && b in s ==> (ahead1(a, b) <==> ahead2(a, b))
    ensures Answer(s, ahead1, limit, out) <==> Answer(t, ahead2, limit, out)
  {
  }
}
