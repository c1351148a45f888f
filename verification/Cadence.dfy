/** The minimum interval between requests to one source, and what it does to the retry. */
module Cadence {
  import opened Wrappers
  import opened IsoTime
  import opened Models
  import opened SourceFetch

  type Render = string -> Option<seq<FeedItem>>

  // ---------- one attempt ----------

  lemma RecordedTime(src: Source, row: Option<SourceState>, a: Attempt, render: Render)
    requires InTime(a.savedAt)
    ensures var t := Once(src, row, a, render);
            && (t.recorded ==> t.request && LastFetched(t.row) == Some(a.savedAt))
            && (!t.recorded ==> t.row == row)
            && (t.request <==> IsDue(src, if a.dueRead then row else None, a.now))
            && (t.outcome == Skipped <==> !t.request)
            && (t.recorded ==> a.saves)
            && (t.outcome.Raised? && a.saves ==> t.recorded)
  {
    hide Stamp, ParseIso, FromBody, FetchConditional, FetchPlain;
    ParseOfStamp(a.savedAt);
    ConditionalNeverSkips(src, if a.fetchRead then row else None, a, Stamp(a.savedAt), render);
    PlainNeverSkips(if a.dueRead then row else None, a, Stamp(a.savedAt));
  }

  lemma ConditionalNeverSkips(src: Source, state: Option<SourceState>, a: Attempt, savedAt: string, render: Render)
    ensures var f := FetchConditional(src, state, a, savedAt, render);
            !f.outcome.Skipped? && (f.write.Some? ==> f.write.value.fetchedAt == savedAt)
  {
  }

  lemma PlainNeverSkips(state: Option<SourceState>, a: Attempt, savedAt: string)
    ensures var f := FetchPlain(state, a, savedAt);
            !f.outcome.Skipped? && (f.write.Some? ==> f.write.value.fetchedAt == savedAt)
  {
  }

  // ---------- the interval, over whole runs ----------

  /** A clock that does not run backwards, seen by attempts one after the other. */
  ghost predicate Clocked(tries: seq<Attempt>) {
    && (forall i :: 0 <= i < |tries| ==> InTime(tries[i].savedAt) && tries[i].now <= tries[i].savedAt)
    && (forall i, j :: 0 <= i < j < |tries| ==> tries[i].savedAt <= tries[j].now)
  }

  /** The state row before attempt k of a run. */
  function RowBefore(src: Source, row: Option<SourceState>, tries: seq<Attempt>, k: nat, render: Render): Option<SourceState>
    requires k <= |tries| && forall i :: 0 <= i < |tries| ==> InTime(tries[i].savedAt)
  {
    if k == 0 then row else Once(src, RowBefore(src, row, tries, k - 1, render), tries[k - 1], render).row
  }

  function Nth(src: Source, row: Option<SourceState>, tries: seq<Attempt>, k: nat, render: Render): Tried
    requires k < |tries| && forall i :: 0 <= i < |tries| ==> InTime(tries[i].savedAt)
  {
    Once(src, RowBefore(src, row, tries, k, render), tries[k], render)
  }

  /** After a recorded attempt the stored time is never earlier than that record. */
  lemma {:induction false} RecordStays(src: Source, row: Option<SourceState>, tries: seq<Attempt>, i: nat, j: nat, render: Render)
    requires Clocked(tries) && i < j <= |tries| && Nth(src, row, tries, i, render).recorded
    ensures LastFetched(RowBefore(src, row, tries, j, render)).Some?
    ensures LastFetched(RowBefore(src, row, tries, j, render)).value >= tries[i].savedAt
    decreases j
  {
    hide Once, LastFetched, InTime;
    RecordedTime(src, RowBefore(src, row, tries, j - 1, render), tries[j - 1], render);
    if i < j - 1 {
      RecordStays(src, row, tries, i, j - 1, render);
      assert tries[i].savedAt <= tries[j - 1].savedAt;
    }
  }

  /**
   * Over every run of one refresher, once an attempt has been recorded, a later attempt sends a
   * request only when the minimum interval has passed, or its own due check could not read the
   * state; and then it always does.
   */
  lemma RequestsAreSpaced(src: Source, row: Option<SourceState>, tries: seq<Attempt>, i: nat, j: nat, render: Render)
    requires Clocked(tries) && i < j < |tries|
    requires Nth(src, row, tries, i, render).recorded && src.minInterval > 0
    ensures !tries[j].dueRead ==> Nth(src, row, tries, j, render).request
    ensures Nth(src, row, tries, j, render).request && tries[j].dueRead ==>
              tries[j].now - tries[i].savedAt >= src.minInterval * SECOND
              && tries[j].now - tries[i].now >= src.minInterval * SECOND
  {
    hide Once, LastFetched, InTime;
    RecordStays(src, row, tries, i, j, render);
    RecordedTime(src, RowBefore(src, row, tries, j, render), tries[j], render);
    WithoutStateIsDue(src, tries[j].now);
  }

  lemma WithoutStateIsDue(src: Source, now: int)
    ensures IsDue(src, None, now)
  {
  }

  /** The body the attempt was given renders to nothing: a GHSA answer that is not a list. */
  predicate Unreadable(src: Source, row: Option<SourceState>, a: Attempt, render: Render) {
    var state := if a.fetchRead then row else None;
    && src.conditional && a.first.Serves?
    && if !NotModified(a.first.rep, Truthy(EtagOf(state)), DateOf(state)) then render(a.first.rep.body).None?
       else StoredItems(state).None? && a.second.Serves? && render(a.second.rep.body).None?
  }

  /** An attempt is recorded exactly when it sent a request, its write landed and its body could be read. */
  lemma RecordIsExact(src: Source, row: Option<SourceState>, a: Attempt, render: Render)
    requires InTime(a.savedAt)
    ensures var t := Once(src, row, a, render);
            t.recorded <==> t.request && a.saves && !Unreadable(src, row, a, render)
  {
    hide Stamp, ParseIso, ToDicts, FromDicts, Cut, Stored, NotModified, StoredItems, IsDue;
  }

  // ---------- the retry ----------

  /**
   * When the retry sends a second request. A transport failure is meant to be enough; it is not,
   * because the failed attempt has just been recorded as a fetch.
   */
  predicate RetrySends(src: Source, row: Option<SourceState>, first: Attempt, second: Attempt) {
    || src.minInterval <= 0
    || !second.dueRead
    || (if first.saves then second.now - first.savedAt >= src.minInterval * SECOND
        else LastFetched(row).None? || second.now - LastFetched(row).value >= src.minInterval * SECOND)
  }

  /** The second request is sent exactly then; otherwise the retry reports SKIPPED and the error is gone. */
  lemma RetryIsExact(src: Source, row: Option<SourceState>, first: Attempt, second: Attempt, render: Render)
    requires InTime(first.savedAt) && InTime(second.savedAt)
    requires Once(src, row, first, render).outcome == Raised(true)
    ensures var again := Once(src, Once(src, row, first, render).row, second, render);
            && (again.request <==> RetrySends(src, row, first, second))
            && WithRetry(src, row, [first, second], render) == again
            && (!RetrySends(src, row, first, second) ==> WithRetry(src, row, [first, second], render).outcome == Skipped)
  {
    hide Once, ParseIso;
    RecordedTime(src, row, first, render);
    RecordedTime(src, Once(src, row, first, render).row, second, render);
    var again := Once(src, Once(src, row, first, render).row, second, render);
    assert [first, second][1..] == [second];
    assert WithRetry(src, Once(src, row, first, render).row, [second], render) == again;
  }

  /** Nothing but a transport failure is tried again. */
  lemma OnlyTransportIsRetried(src: Source, row: Option<SourceState>, first: Attempt, second: Attempt, render: Render)
    requires InTime(first.savedAt) && InTime(second.savedAt)
    requires Once(src, row, first, render).outcome != Raised(true)
    ensures WithRetry(src, row, [first, second], render) == Once(src, row, first, render)
  {
    hide Once;
  }

  /**
   * With a working store a source that has an interval is never retried: the pause before the
   * retry is under a second, and every interval is at least one.
   */
  lemma IntervalDropsTheError(src: Source, row: Option<SourceState>, first: Attempt, second: Attempt, render: Render)
    requires InTime(first.savedAt) && InTime(second.savedAt) && first.saves && second.dueRead
    requires src.minInterval > 0 && second.now - first.savedAt < SECOND
    requires Once(src, row, first, render).outcome == Raised(true)
    ensures WithRetry(src, row, [first, second], render).outcome == Skipped
  {
    hide Once;
    RetryIsExact(src, row, first, second, render);
  }
}
