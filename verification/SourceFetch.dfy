/**
 * Fetching one source: the stored fetch state, the conditional request, the minimum interval and
 * the retry. What the network, the store and the clock do in an attempt is an input.
 */
module SourceFetch {
  import opened Wrappers
  import opened IsoTime
  import opened Models

  /** A row of `source_state`. A Last-Modified date is kept as its count of seconds. */
  datatype SourceState = SourceState(
    etag: Option<string>, lastModified: Option<int>,
    lastFetchedAt: Option<string>, lastOkAt: Option<string>, lastError: Option<string>,
    lastPayload: Option<seq<ItemDict>>)

  /** The arguments of one `set_source_state`, with the times it stores. */
  datatype Write = Write(etag: Option<string>, lastModified: Option<int>, fetchedAt: string,
                         okAt: Option<string>, error: Option<string>, payload: Option<seq<ItemDict>>)

  /** INSERT ... ON CONFLICT DO UPDATE, with the COALESCE on validators and payload. */
  function Stored(row: Option<SourceState>, w: Write): SourceState {
    match row
    case None => SourceState(w.etag, w.lastModified, Some(w.fetchedAt), w.okAt, w.error, w.payload)
    case Some(s) =>
      SourceState(w.etag.OrElse(s.etag), w.lastModified.OrElse(s.lastModified), Some(w.fetchedAt),
                  w.okAt.OrElse(s.lastOkAt), w.error, w.payload.OrElse(s.lastPayload))
  }

  /** A representation the upstream serves, and its validators. */
  datatype Rep = Rep(body: string, etag: Option<string>, lastModified: Option<int>)

  /** One request as the network answers it; `rep` is what the upstream holds at that moment. */
  datatype Net = Down | ErrorStatus | Serves(rep: Rep)

  datatype Source = Source(id: string, conditional: bool, maxItems: nat, minInterval: int)

  /**
   * Everything one `_fetch_source_once` meets: the clock at its due check and at its state write,
   * whether its two reads and its write of the state succeed, the answers to its first request and
   * to the refetch, which headers a 304 repeats, and for a source without validators its items.
   */
  datatype Attempt = Attempt(now: int, savedAt: int, dueRead: bool, fetchRead: bool, saves: bool,
                             first: Net, second: Net, repeatsEtag: bool, repeatsDate: bool,
                             plain: seq<FeedItem>)

  datatype Outcome = Skipped | Items(items: seq<FeedItem>) | Raised(transport: bool)

  // ---------- reading the state ----------

  function Truthy(text: Option<string>): Option<string> {
    if text.Some? && text.value != "" then text else None
  }

  function EtagOf(state: Option<SourceState>): Option<string> {
    if state.None? then None else state.value.etag
  }

  function DateOf(state: Option<SourceState>): Option<int> {
    if state.None? then None else state.value.lastModified
  }

  function FromDicts(payload: seq<ItemDict>): (r: seq<FeedItem>)
    ensures |r| == |payload| && forall i :: 0 <= i < |r| ==> r[i] == FromDict(payload[i])
  {
    if payload == [] then [] else [FromDict(payload[0])] + FromDicts(payload[1..])
  }

  /** `_stored_items`: an absent or empty payload is unusable. */
  function StoredItems(state: Option<SourceState>): Option<seq<FeedItem>> {
    if state.None? || state.value.lastPayload.None? || state.value.lastPayload.value == [] then None
    else Some(FromDicts(state.value.lastPayload.value))
  }

  /** The stored fetch time as a moment; missing or unreadable text is no time. */
  function LastFetched(state: Option<SourceState>): Option<int> {
    if state.None? || state.value.lastFetchedAt.None? then None else
      var dt := ParseIso(state.value.lastFetchedAt.value);
      if dt.None? then None else Some(Instant(dt.value))
  }

  /** `_is_due` */
  predicate IsDue(src: Source, state: Option<SourceState>, now: int) {
    || src.minInterval <= 0
    || LastFetched(state).None?
    || now - LastFetched(state).value >= src.minInterval * SECOND
  }

  // ---------- the conditional request ----------

  /** RFC 9110 section 13.2.2: If-None-Match decides when it is present, else If-Modified-Since. */
  predicate NotModified(rep: Rep, ifNoneMatch: Option<string>, ifModifiedSince: Option<int>) {
    if ifNoneMatch.Some? then rep.etag == ifNoneMatch
    else ifModifiedSince.Some? && rep.lastModified.Some? && rep.lastModified.value <= ifModifiedSince.value
  }

  function Cut(items: seq<FeedItem>, n: nat): seq<FeedItem> { if |items| > n then items[..n] else items }

  function ToDicts(items: seq<FeedItem>): (r: Option<seq<ItemDict>>)
    ensures r.Some? ==> |r.value| == |items| && forall i :: 0 <= i < |items| ==> ToDict(items[i]) == Some(r.value[i])
    ensures r.None? ==> exists i :: 0 <= i < |items| && ToDict(items[i]).None?
  {
    if items == [] then Some([]) else
      var first, rest := ToDict(items[0]), ToDicts(items[1..]);
      if first.None? then None
      else if rest.None? then
        assert exists i :: 0 <= i < |items| && ToDict(items[i]).None? by {
          var i :| 0 <= i < |items| - 1 && ToDict(items[1..][i]).None?;
          assert items[i + 1] == items[1..][i];
        }
        None
      else Some([first.value] + rest.value)
  }

  datatype Fetched = Fetched(outcome: Outcome, write: Option<Write>)

  /** A 200 answer: what the fetcher makes of the body, and the state it saves. */
  function FromBody(src: Source, rep: Rep, savedAt: string, render: string -> Option<seq<FeedItem>>): Fetched {
    var made := render(rep.body);
    if made.None? then Fetched(Items([]), None) else
      var items := Cut(made.value, src.maxItems);
      var payload := ToDicts(items);
      if payload.None? then Fetched(Raised(false), None) else
        Fetched(Items(items), Some(Write(rep.etag, rep.lastModified, savedAt, Some(savedAt), None, payload)))
  }

  /** `_fetch_rss` and `_fetch_ghsa`; an answer that is not a list renders to nothing and saves nothing. */
  function FetchConditional(src: Source, state: Option<SourceState>, a: Attempt, savedAt: string,
                            render: string -> Option<seq<FeedItem>>): Fetched {
    match a.first
    case Down => Fetched(Raised(true), None)
    case ErrorStatus => Fetched(Raised(false), None)
    case Serves(rep) =>
      if !NotModified(rep, Truthy(EtagOf(state)), DateOf(state)) then FromBody(src, rep, savedAt, render) else
      var cached := StoredItems(state);
      if cached.Some? then
        var etag := (if a.repeatsEtag then Truthy(rep.etag) else None).OrElse(EtagOf(state));
        var date := (if a.repeatsDate then rep.lastModified else None).OrElse(DateOf(state));
        Fetched(Items(Cut(cached.value, src.maxItems)), Some(Write(etag, date, savedAt, Some(savedAt), None, None)))
      else
        match a.second
        case Down => Fetched(Raised(true), None)
        case ErrorStatus => Fetched(Raised(false), None)
        case Serves(rep2) => FromBody(src, rep2, savedAt, render)
  }

  /** The fetchers without validators; the state write is `_fetch_source_once`'s own. */
  function FetchPlain(state: Option<SourceState>, a: Attempt, savedAt: string): Fetched {
    match a.first
    case Down => Fetched(Raised(true), None)
    case ErrorStatus => Fetched(Raised(false), None)
    case Serves(_) => Fetched(Items(a.plain), Some(Write(EtagOf(state), DateOf(state), savedAt, Some(savedAt), None, None)))
  }

  // ---------- one attempt, and the retry ----------

  /** `request` tells whether the attempt sent one, `recorded` whether its state write landed. */
  datatype Tried = Tried(row: Option<SourceState>, outcome: Outcome, request: bool, recorded: bool)

  function Once(src: Source, row: Option<SourceState>, a: Attempt, render: string -> Option<seq<FeedItem>>): Tried
    requires InTime(a.savedAt)
  {
    var state := if a.dueRead then row else None;
    if !IsDue(src, state, a.now) then Tried(row, Skipped, false, false) else
      var savedAt := Stamp(a.savedAt);
      var f := if src.conditional then FetchConditional(src, if a.fetchRead then row else None, a, savedAt, render)
               else FetchPlain(state, a, savedAt);
      var write := if f.outcome.Raised? then Some(Write(EtagOf(state), DateOf(state), savedAt, None, Some("error"), None))
                   else f.write;
      if write.Some? && a.saves then Tried(Some(Stored(row, write.value)), f.outcome, true, true)
      else Tried(row, f.outcome, true, false)
  }

  /** How a due attempt ends; a source without validators returns what it fetched. */
  lemma AttemptOutcomes(src: Source, row: Option<SourceState>, a: Attempt, render: string -> Option<seq<FeedItem>>)
    requires InTime(a.savedAt)
    ensures var t := Once(src, row, a, render);
            && (t.outcome == Skipped <==> !t.request)
            && (src.minInterval <= 0 ==> t.request)
            && (t.request && a.first.Down? ==> t.outcome == Raised(true))
            && (t.request && a.first.ErrorStatus? ==> t.outcome == Raised(false))
            && (t.request && a.first.Serves? && !src.conditional ==> t.outcome == Items(a.plain))
  {
    hide ParseIso, Stamp, ToDicts, FromDicts, Stored, NotModified, LastFetched;
  }

  /**
   * What a recorded attempt leaves: always its own time; after a failure an error and the last
   * success as it was; after a success no error and its own time as the last success.
   */
  lemma RecordMeaning(src: Source, row: Option<SourceState>, a: Attempt, render: string -> Option<seq<FeedItem>>)
    requires InTime(a.savedAt) && Once(src, row, a, render).recorded
    ensures var t := Once(src, row, a, render);
            && t.row.Some? && t.row.value.lastFetchedAt == Some(Stamp(a.savedAt))
            && (if t.outcome.Raised? then
                  t.row.value.lastError.Some? && t.row.value.lastOkAt == (if row.None? then None else row.value.lastOkAt)
                else
                  t.row.value.lastError.None? && t.row.value.lastOkAt == Some(Stamp(a.savedAt)))
  {
    hide ParseIso, Stamp, ToDicts, FromDicts, NotModified, IsDue;
  }

  const FETCH_ATTEMPTS := 2

  /** `_fetch_source`: try again after a transport failure while attempts are left. */
  function WithRetry(src: Source, row: Option<SourceState>, tries: seq<Attempt>,
                     render: string -> Option<seq<FeedItem>>): Tried
    requires tries != [] && forall i :: 0 <= i < |tries| ==> InTime(tries[i].savedAt)
    decreases |tries|
  {
    var t := Once(src, row, tries[0], render);
    if t.outcome == Raised(true) && |tries| > 1 then WithRetry(src, t.row, tries[1..], render) else t
  }

  /** The state table, and the fetch of one source through it. */
  class StateTable {
    var rows: map<string, SourceState>

    function Row(id: string): Option<SourceState>
      reads this
    {
      if id in rows then Some(rows[id]) else None
    }

    constructor ()
      ensures rows == map[]
    {
      rows := map[];
    }

    method SetSourceState(id: string, w: Write)
      modifies this
      ensures rows == old(rows)[id := Stored(old(Row(id)), w)]
      ensures var now, before := rows[id], old(Row(id));
              && now.lastFetchedAt == Some(w.fetchedAt) && now.lastError == w.error
              && (w.etag.Some? ==> now.etag == w.etag) && (w.lastModified.Some? ==> now.lastModified == w.lastModified)
              && (w.okAt.Some? ==> now.lastOkAt == w.okAt) && (w.payload.Some? ==> now.lastPayload == w.payload)
              && (before.Some? && w.etag.None? ==> now.etag == before.value.etag)
              && (before.Some? && w.lastModified.None? ==> now.lastModified == before.value.lastModified)
              && (before.Some? && w.okAt.None? ==> now.lastOkAt == before.value.lastOkAt)
              && (before.Some? && w.payload.None? ==> now.lastPayload == before.value.lastPayload)
    {
      rows := rows[id := Stored(Row(id), w)];
    }

    method FetchSourceOnce(src: Source, a: Attempt, render: string -> Option<seq<FeedItem>>)
        returns (outcome: Outcome, ghost tried: Tried)
      requires InTime(a.savedAt)
      modifies this
      ensures tried == Once(src, old(Row(src.id)), a, render)
      ensures outcome == tried.outcome && Row(src.id) == tried.row
      ensures src.minInterval <= 0 ==> outcome != Skipped
      ensures outcome != Skipped && a.first.Down? ==> outcome == Raised(true)
      ensures outcome != Skipped && a.first.ErrorStatus? ==> outcome == Raised(false)
      ensures outcome != Skipped && a.first.Serves? && !src.conditional ==> outcome == Items(a.plain)
      ensures forall id :: id != src.id ==> (id in rows <==> id in old(rows)) && (id in rows ==> rows[id] == old(rows)[id])
    {
      hide ParseIso, Stamp, FetchConditional, FetchPlain;
      AttemptOutcomes(src, Row(src.id), a, render);
      tried := Once(src, Row(src.id), a, render);
      var state := if a.dueRead then Row(src.id) else None;
      if !IsDue(src, state, a.now) { return Skipped, tried; }
      var savedAt := Stamp(a.savedAt);
      var f := if src.conditional then FetchConditional(src, if a.fetchRead then Row(src.id) else None, a, savedAt, render)
               else FetchPlain(state, a, savedAt);
      outcome := f.outcome;
      if outcome.Raised? {
        if a.saves {
          SetSourceState(src.id, Write(EtagOf(state), DateOf(state), savedAt, None, Some("error"), None));
        }
      } else if f.write.Some? && a.saves {
        SetSourceState(src.id, f.write.value);
      }
    }

    method FetchSource(src: Source, tries: seq<Attempt>, render: string -> Option<seq<FeedItem>>) returns (outcome: Outcome)
      requires |tries| == 2 && forall i :: 0 <= i < |tries| ==> InTime(tries[i].savedAt)
      modifies this
      ensures var t := WithRetry(src, old(Row(src.id)), tries, render); outcome == t.outcome && Row(src.id) == t.row
    {
      hide Once;
      outcome := Raised(true);
      var attempt := 0;
      while attempt < FETCH_ATTEMPTS
        invariant 0 <= attempt <= |tries|
        invariant attempt < |tries| ==>
                    WithRetry(src, Row(src.id), tries[attempt..], render) == WithRetry(src, old(Row(src.id)), tries, render)
        invariant attempt == |tries| ==>
                    var t := WithRetry(src, old(Row(src.id)), tries, render); outcome == t.outcome && Row(src.id) == t.row
      {
        ghost var left := tries[attempt..];
        assert left[0] == tries[attempt] && left[1..] == tries[attempt + 1..];
        ghost var tried;
        outcome, tried := FetchSourceOnce(src, tries[attempt], render);
        if outcome != Raised(true) { return outcome; }
        attempt := attempt + 1;
      }
    }
  }
}
