/**
 * The refresh of the feed: one background task at a time, started when the cache is stale, and
 * the steps of one refresh. The event loop's freedom is in the order of the events: a task may
 * finish long before its done-callback runs.
 */
module Pipeline {
  import opened Wrappers
  import opened IsoTime

  // ---------- tasks and events ----------

  datatype Outcome = Returned | Raised | Cancelled

  /**
   * A refresh task. `asked` tells that `get_feed` started it; `cachedAt` is when it replaced the
   * cache, `outcome` how it ended, `notified` whether its done-callback has run.
   */
  datatype Task = Task(startedAt: int, asked: bool, cachedAt: Option<int>, outcome: Option<Outcome>, notified: bool)

  /** `CACHE.fetched_at`, `_REFRESH_TASK`, and every task there has been; a task is known by its place. */
  datatype State = State(fetchedAt: Option<int>, handle: Option<nat>, tasks: seq<Task>)

  datatype Event =
    | Schedule(at: int)
    | GetFeed(at: int)
    | SetCache(k: nat, at: int)
    | Finish(k: nat, outcome: Outcome, at: int)
    | DoneCallback(k: nat, at: int)

  const INITIAL: State := State(None, None, [])

  predicate Unfinished(tasks: seq<Task>, k: int) { 0 <= k < |tasks| && tasks[k].outcome.None? }

  predicate InFlight(s: State) { s.handle.Some? && Unfinished(s.tasks, s.handle.value) }

  function Start(s: State, at: int, asked: bool): State {
    if InFlight(s) then s
    else s.(handle := Some(|s.tasks|), tasks := s.tasks + [Task(at, asked, None, None, false)])
  }

  predicate Stale(fetchedAt: Option<int>, ttl: int, at: int) {
    fetchedAt.None? || at - fetchedAt.value > ttl * SECOND
  }

  function Step(s: State, ttl: int, e: Event): State {
    match e
    case Schedule(at) => Start(s, at, false)
    case GetFeed(at) => if Stale(s.fetchedAt, ttl, at) then Start(s, at, true) else s
    case SetCache(k, at) =>
      if k < |s.tasks| then s.(fetchedAt := Some(at), tasks := s.tasks[k := s.tasks[k].(cachedAt := Some(at))]) else s
    case Finish(k, outcome, _) =>
      if k < |s.tasks| then s.(tasks := s.tasks[k := s.tasks[k].(outcome := Some(outcome))]) else s
    case DoneCallback(k, _) =>
      if k < |s.tasks| then
        s.(handle := if s.handle == Some(k) then None else s.handle, tasks := s.tasks[k := s.tasks[k].(notified := true)])
      else s
  }

  /** What an event loop can do: only a task that has not ended acts, and a callback runs once, afterwards. */
  predicate Possible(s: State, e: Event) {
    match e
    case Schedule(_) => true
    case GetFeed(_) => true
    case SetCache(k, _) => Unfinished(s.tasks, k) && s.tasks[k].cachedAt.None?
    case Finish(k, outcome, _) => Unfinished(s.tasks, k) && (outcome == Returned ==> s.tasks[k].cachedAt.Some?)
    case DoneCallback(k, _) => k < |s.tasks| && s.tasks[k].outcome.Some? && !s.tasks[k].notified
  }

  function Run(ttl: int, events: seq<Event>): State {
    if events == [] then INITIAL else Step(Run(ttl, events[..|events| - 1]), ttl, events[|events| - 1])
  }

  /** A possible run under a clock that does not run backwards. */
  predicate Legal(ttl: int, events: seq<Event>) {
    events == [] ||
    (var front, last := events[..|events| - 1], events[|events| - 1];
     Legal(ttl, front) && Possible(Run(ttl, front), last) && (front != [] ==> Latest(front) <= last.at))
  }

  function Latest(events: seq<Event>): int {
    if events == [] then 0 else events[|events| - 1].at
  }

  // ---------- what every reachable state keeps ----------

  ghost predicate Spaced(tasks: seq<Task>, ttl: int) {
    forall i, j :: 0 <= i < j < |tasks| && tasks[i].cachedAt.Some? && tasks[j].asked ==>
      tasks[j].startedAt - tasks[i].cachedAt.value > ttl * SECOND
  }

  /** The cache holds the latest time a task has put there. */
  ghost predicate CacheIsLatest(s: State) {
    && (s.fetchedAt.Some? ==> exists k :: 0 <= k < |s.tasks| && s.tasks[k].cachedAt == s.fetchedAt)
    && (forall k :: 0 <= k < |s.tasks| && s.tasks[k].cachedAt.Some? ==>
          s.fetchedAt.Some? && s.tasks[k].cachedAt.value <= s.fetchedAt.value)
  }

  ghost predicate OneHandle(s: State) {
    && (s.handle.Some? ==> s.handle.value < |s.tasks| && !s.tasks[s.handle.value].notified)
    && (forall k :: Unfinished(s.tasks, k) ==> s.handle == Some(k) && k == |s.tasks| - 1)
    && (forall k :: 0 <= k < |s.tasks| && s.tasks[k].notified ==> s.tasks[k].outcome.Some?)
  }

  ghost predicate Past(s: State, clock: int) {
    && (s.fetchedAt.Some? ==> s.fetchedAt.value <= clock)
    && (forall k :: 0 <= k < |s.tasks| ==> s.tasks[k].startedAt <= clock)
  }

  ghost predicate Inv(s: State, ttl: int, clock: int) {
    OneHandle(s) && CacheIsLatest(s) && Spaced(s.tasks, ttl) && Past(s, clock)
  }

  lemma HandleKept(s: State, ttl: int, e: Event)
    requires OneHandle(s) && Possible(s, e)
    ensures OneHandle(Step(s, ttl, e))
  {
    var t := Step(s, ttl, e);
    forall k | Unfinished(t.tasks, k) ensures t.handle == Some(k) && k == |t.tasks| - 1 {
      assert k < |s.tasks| ==> Unfinished(s.tasks, k);
    }
  }

  lemma CacheKept(s: State, ttl: int, e: Event, clock: int)
    requires CacheIsLatest(s) && Past(s, clock) && clock <= e.at && Possible(s, e)
    ensures CacheIsLatest(Step(s, ttl, e)) && Past(Step(s, ttl, e), e.at)
  {
    var t := Step(s, ttl, e);
    if e.SetCache? {
      assert t.tasks[e.k].cachedAt == t.fetchedAt;
    } else if s.fetchedAt.Some? {
      var k :| 0 <= k < |s.tasks| && s.tasks[k].cachedAt == s.fetchedAt;
      assert t.tasks[k].cachedAt == s.fetchedAt;
    }
  }

  lemma SpacedKept(s: State, ttl: int, e: Event)
    requires OneHandle(s) && CacheIsLatest(s) && Spaced(s.tasks, ttl) && Possible(s, e)
    ensures Spaced(Step(s, ttl, e).tasks, ttl)
  {
  }

  lemma {:induction false} Reachable(ttl: int, events: seq<Event>)
    requires Legal(ttl, events)
    ensures Inv(Run(ttl, events), ttl, Latest(events))
  {
    if events != [] {
      hide Step, Possible, Inv;
      var front, e := events[..|events| - 1], events[|events| - 1];
      Reachable(ttl, front);
      StepKeeps(Run(ttl, front), ttl, e, if front == [] then e.at else Latest(front));
    }
  }

  lemma StepKeeps(s: State, ttl: int, e: Event, clock: int)
    requires Inv(s, ttl, clock) || s == INITIAL
    requires clock <= e.at && Possible(s, e)
    ensures Inv(Step(s, ttl, e), ttl, e.at)
  {
    hide Step, Possible, OneHandle, CacheIsLatest, Spaced, Past;
    if s == INITIAL { InitialInv(ttl, clock); }
    HandleKept(s, ttl, e);
    CacheKept(s, ttl, e, clock);
    SpacedKept(s, ttl, e);
  }

  lemma InitialInv(ttl: int, clock: int)
    ensures Inv(INITIAL, ttl, clock)
  {
  }

  // ---------- single flight ----------

  /** An unfinished task is the one `_REFRESH_TASK` holds, so two tasks never run side by side. */
  lemma SingleFlight(ttl: int, events: seq<Event>, i: nat, j: nat)
    requires Legal(ttl, events)
    requires Unfinished(Run(ttl, events).tasks, i) && Unfinished(Run(ttl, events).tasks, j)
    ensures i == j && Run(ttl, events).handle == Some(i) && InFlight(Run(ttl, events))
  {
    Reachable(ttl, events);
  }

  /**
   * A schedule starts a task exactly when none runs: whatever handle a finished task has left
   * behind, and whichever callbacks are still to come.
   */
  lemma ScheduleIsExact(ttl: int, events: seq<Event>, at: int)
    requires Legal(ttl, events)
    ensures var s := Run(ttl, events);
            |Step(s, ttl, Schedule(at)).tasks| == |s.tasks| +
              if forall k :: 0 <= k < |s.tasks| ==> !Unfinished(s.tasks, k) then 1 else 0
  {
    Reachable(ttl, events);
  }

  /** No task runs, and every refresh that got as far as the cache did so more than the TTL ago. */
  ghost predicate MayAsk(tasks: seq<Task>, ttl: int, at: int) {
    forall k :: 0 <= k < |tasks| ==>
      !Unfinished(tasks, k) && (tasks[k].cachedAt.Some? ==> at - tasks[k].cachedAt.value > ttl * SECOND)
  }

  /** The handle and the cache together decide what the history of all tasks would decide. */
  lemma GetFeedIsExact(ttl: int, events: seq<Event>, at: int)
    requires Legal(ttl, events)
    ensures var s := Run(ttl, events);
            |Step(s, ttl, GetFeed(at)).tasks| == |s.tasks| + if MayAsk(s.tasks, ttl, at) then 1 else 0
  {
    Reachable(ttl, events);
    var s := Run(ttl, events);
    if s.fetchedAt.Some? {
      var k :| 0 <= k < |s.tasks| && s.tasks[k].cachedAt == s.fetchedAt;
    }
  }

  /** Once a refresh has reached the cache, `get_feed` starts no other until the TTL has passed. */
  lemma RefreshesAreSpaced(ttl: int, events: seq<Event>, i: nat, j: nat)
    requires Legal(ttl, events)
    requires i < j < |Run(ttl, events).tasks|
    requires Run(ttl, events).tasks[i].cachedAt.Some? && Run(ttl, events).tasks[j].asked
    ensures Run(ttl, events).tasks[j].startedAt - Run(ttl, events).tasks[i].cachedAt.value > ttl * SECOND
  {
    Reachable(ttl, events);
  }

  lemma {:induction false} RunGrows(ttl: int, events: seq<Event>, n: nat)
    requires n <= |events|
    ensures |Run(ttl, events[..n]).tasks| <= |Run(ttl, events).tasks|
  {
    if n < |events| {
      var front := events[..|events| - 1];
      assert front[..n] == events[..n];
      RunGrows(ttl, front, n);
    } else {
      assert events[..n] == events;
    }
  }

  lemma {:induction false} LegalPrefix(ttl: int, events: seq<Event>, n: nat)
    requires Legal(ttl, events) && n <= |events|
    ensures Legal(ttl, events[..n])
  {
    if n < |events| {
      assert events[..|events| - 1][..n] == events[..n];
      LegalPrefix(ttl, events[..|events| - 1], n);
    } else {
      assert events[..n] == events;
    }
  }

  /**
   * From a task's start to its end nothing displaces it: no other task starts, and no callback
   * of an earlier one clears the handle.
   */
  lemma RunningTaskKeepsHandle(ttl: int, events: seq<Event>, n: nat, k: nat)
    requires Legal(ttl, events) && n <= |events|
    requires k < |Run(ttl, events[..n]).tasks| && Unfinished(Run(ttl, events).tasks, k)
    ensures Run(ttl, events[..n]).handle == Some(k) && Run(ttl, events).handle == Some(k)
    ensures |Run(ttl, events[..n]).tasks| == |Run(ttl, events).tasks|
  {
    hide Step, Possible;
    Reachable(ttl, events);
    LegalPrefix(ttl, events, n);
    Reachable(ttl, events[..n]);
    RunGrows(ttl, events, n);
    EndedStaysEnded(ttl, events, n, k);
  }

  lemma {:induction false} EndedStaysEnded(ttl: int, events: seq<Event>, n: nat, k: nat)
    requires n <= |events| && k < |Run(ttl, events[..n]).tasks|
    ensures k < |Run(ttl, events).tasks|
    ensures Unfinished(Run(ttl, events).tasks, k) ==> Unfinished(Run(ttl, events[..n]).tasks, k)
  {
    if n < |events| {
      var front := events[..|events| - 1];
      assert front[..n] == events[..n];
      EndedStaysEnded(ttl, front, n, k);
    } else {
      assert events[..n] == events;
    }
  }

  // ---------- what the events do ----------

  /** A new task is the last, has begun now and has done nothing yet. */
  lemma StartedTask(s: State, ttl: int, e: Event)
    requires |Step(s, ttl, e).tasks| > |s.tasks|
    ensures var t := Step(s, ttl, e);
            && (e.Schedule? || e.GetFeed?) && |t.tasks| == |s.tasks| + 1 && t.tasks[..|s.tasks|] == s.tasks
            && t.handle == Some(|s.tasks|) && InFlight(t) && t.fetchedAt == s.fetchedAt
            && t.tasks[|s.tasks|].startedAt == e.at && t.tasks[|s.tasks|].asked == e.GetFeed?
            && t.tasks[|s.tasks|].cachedAt.None? && !t.tasks[|s.tasks|].notified
  {
  }

  /** What a task and the event loop do to task k, and to nothing else. */
  lemma TaskEvents(s: State, ttl: int, e: Event)
    requires Possible(s, e) && (e.SetCache? || e.Finish? || e.DoneCallback?)
    ensures var t := Step(s, ttl, e);
            && |t.tasks| == |s.tasks| && (forall i :: 0 <= i < |s.tasks| && i != e.k ==> t.tasks[i] == s.tasks[i])
            && t.tasks[e.k].startedAt == s.tasks[e.k].startedAt
            && (e.SetCache? ==> t.fetchedAt == Some(e.at) && t.tasks[e.k].cachedAt == Some(e.at)
                                && t.handle == s.handle && Unfinished(t.tasks, e.k))
            && (e.Finish? ==> t.tasks[e.k].outcome == Some(e.outcome) && !Unfinished(t.tasks, e.k)
                              && t.handle == s.handle && t.fetchedAt == s.fetchedAt)
            && (e.DoneCallback? ==> t.tasks[e.k].notified && t.handle != Some(e.k) && t.fetchedAt == s.fetchedAt
                                    && (s.handle != Some(e.k) ==> t.handle == s.handle))
  {
  }

  lemma {:induction false} NoLaterThanLatest(ttl: int, events: seq<Event>, i: nat)
    requires Legal(ttl, events) && i < |events|
    ensures events[i].at <= Latest(events)
  {
    if i < |events| - 1 { NoLaterThanLatest(ttl, events[..|events| - 1], i); }
  }

  lemma {:induction false} CacheStays(ttl: int, events: seq<Event>, i: nat)
    requires Legal(ttl, events) && i < |events| && events[i].SetCache?
    ensures Run(ttl, events).fetchedAt.Some? && Run(ttl, events).fetchedAt.value >= events[i].at
  {
    var front, last := events[..|events| - 1], events[|events| - 1];
    assert Run(ttl, events) == Step(Run(ttl, front), ttl, last);
    NoLaterThanLatest(ttl, events, i);
    if i < |front| {
      assert front[i] == events[i];
      CacheStays(ttl, front, i);
    }
  }

  /** In terms of the events: after a refresh has reached the cache, no `get_feed` within the TTL starts another. */
  lemma QuietWithinTtl(ttl: int, events: seq<Event>, i: nat, t: int)
    requires Legal(ttl, events) && i < |events| && events[i].SetCache? && t - events[i].at <= ttl * SECOND
    ensures Step(Run(ttl, events), ttl, GetFeed(t)) == Run(ttl, events)
  {
    CacheStays(ttl, events, i);
  }

  // ---------- the steps of one refresh ----------

  /** How one step ends; a cancellation is not an `Exception`, so it ends the refresh as well. */
  datatype StepEnd = Ok | Error | Stopped

  const STEP_NAMES: seq<string> := ["persist", "prune", "index", "publish", "alert"]

  /** What `/health` shows after the first n steps. */
  ghost predicate Reports(steps: map<string, string>, ends: seq<StepEnd>, n: nat) {
    && n <= |STEP_NAMES| == |ends|
    && (forall k :: 0 <= k < n ==> ends[k] != Stopped)
    && steps.Keys == (set k | 0 <= k < n :: STEP_NAMES[k])
    && (forall k :: 0 <= k < n ==> STEP_NAMES[k] in steps && steps[STEP_NAMES[k]] == if ends[k] == Ok then "ok" else "error")
  }

  class FeedPipeline {
    const ttl: int
    var fetchedAt: Option<int>
    var generatedAt: Option<int>
    var errors: seq<string>
    var steps: map<string, string>
    var refreshTask: Option<nat>
    /** The event loop's tasks. */
    var tasks: seq<Task>

    function Now(): State
      reads this
    {
      State(fetchedAt, refreshTask, tasks)
    }

    constructor (ttl: int)
      ensures Now() == INITIAL && this.ttl == ttl
    {
      this.ttl, fetchedAt, generatedAt, errors, steps, refreshTask, tasks := ttl, None, None, [], map[], None, [];
    }

    function RefreshInFlight(): bool
      reads this
    {
      refreshTask.Some? && Unfinished(tasks, refreshTask.value)
    }

    method CreateTask(at: int, asked: bool)
      modifies this`refreshTask, this`tasks
      ensures tasks == old(tasks) + [Task(at, asked, None, None, false)] && refreshTask == Some(|old(tasks)|)
    {
      tasks := tasks + [Task(at, asked, None, None, false)];
      refreshTask := Some(|tasks| - 1);
    }

    /** `asked` only labels the task with who started it. */
    method ScheduleRefresh(at: int, asked: bool) returns (scheduled: bool)
      modifies this`refreshTask, this`tasks
      ensures Now() == Start(old(Now()), at, asked)
      ensures scheduled <==> |tasks| == |old(tasks)| + 1
    {
      if RefreshInFlight() { return false; }
      CreateTask(at, asked);
      return true;
    }

    method OnRefreshDone(k: nat)
      requires k < |tasks|
      modifies this`refreshTask, this`tasks
      ensures forall at :: Now() == Step(old(Now()), ttl, DoneCallback(k, at))
    {
      tasks := tasks[k := tasks[k].(notified := true)];
      if refreshTask == Some(k) { refreshTask := None; }
    }

    /** Answers from the cache as it is; the refresh it may start runs later. */
    method GetFeed(at: int) returns (cached: Option<int>)
      modifies this`refreshTask, this`tasks
      ensures Now() == Step(old(Now()), ttl, Event.GetFeed(at)) && cached == old(fetchedAt)
    {
      if fetchedAt.None? || at - fetchedAt.value > ttl * SECOND {
        var _ := ScheduleRefresh(at, true);
      }
      cached := fetchedAt;
    }

    /** Task k replaces the cache; the report of the last refresh goes with it. */
    method ReplaceCache(k: nat, at: int, found: seq<string>)
      requires k < |tasks|
      modifies this`fetchedAt, this`generatedAt, this`errors, this`steps, this`tasks
      ensures Now() == Step(old(Now()), ttl, Event.SetCache(k, at)) && generatedAt == fetchedAt
      ensures errors == found && steps == map[]
      ensures fetchedAt == Some(at) && generatedAt == Some(at)
      ensures |tasks| == |old(tasks)| && tasks[k].cachedAt == Some(at)
    {
      fetchedAt, generatedAt, errors, steps := Some(at), Some(at), found, map[];
      tasks := tasks[k := tasks[k].(cachedAt := Some(at))];
    }

    method Attempt(n: nat, ends: seq<StepEnd>) returns (next: nat)
      requires n < |STEP_NAMES| && Reports(steps, ends, n)
      modifies this`steps
      ensures next == (if ends[n] == Stopped then n else n + 1) && Reports(steps, ends, next)
    {
      match ends[n]
      case Ok => steps := steps[STEP_NAMES[n] := "ok"]; next := n + 1;
      case Error => steps := steps[STEP_NAMES[n] := "error"]; next := n + 1;
      case Stopped => next := n;
    }

    /** Every step is tried whatever became of the ones before it; only a cancellation ends the sequence. */
    method RunSteps(ends: seq<StepEnd>) returns (done: nat)
      requires |ends| == |STEP_NAMES| && steps == map[]
      modifies this`steps
      ensures Reports(steps, ends, done) && (done < |STEP_NAMES| ==> ends[done] == Stopped)
    {
      hide Reports;
      NothingReported(ends);
      done := Attempt(0, ends);
      if done != 1 { return; }
      done := Attempt(1, ends);
      if done != 2 { return; }
      done := Attempt(2, ends);
      if done != 3 { return; }
      done := Attempt(3, ends);
      if done != 4 { return; }
      done := Attempt(4, ends);
    }

    /** `refresh_feed` from the fetched items on: the new cache, then every step. */
    method RefreshFeed(k: nat, at: int, found: seq<string>, ends: seq<StepEnd>) returns (done: nat)
      requires k < |tasks| && |ends| == |STEP_NAMES|
      modifies this`fetchedAt, this`generatedAt, this`errors, this`steps, this`tasks
      ensures Now() == Step(old(Now()), ttl, Event.SetCache(k, at)) && generatedAt == fetchedAt && errors == found
      ensures fetchedAt == Some(at) && generatedAt == Some(at)
      ensures |tasks| == |old(tasks)| && tasks[k].cachedAt == Some(at)
      ensures Reports(steps, ends, done) && (done < |STEP_NAMES| ==> ends[done] == Stopped)
    {
      ReplaceCache(k, at, found);
      done := RunSteps(ends);
    }
  }

  lemma NothingReported(ends: seq<StepEnd>)
    requires |ends| == |STEP_NAMES|
    ensures Reports(map[], ends, 0)
  {
  }
}
