/**
 * The stored validators and the stored payload of a source always describe one body, so an answer
 * from the store is what a full fetch would have given. Over all runs of one refresher against an
 * upstream that publishes new representations whenever it likes.
 */
module Coherence {
  import opened Wrappers
  import opened IsoTime
  import opened Models
  import opened SourceFetch

  type Render = string -> Option<seq<FeedItem>>

  /** What the fetchers produce: dates in UTC, and a severity and a patch status that are not empty. */
  predicate Normal(item: FeedItem) {
    && item.severity != "" && item.patchStatus != ""
    && (item.published.Some? ==> IsUtc(item.published.value))
  }

  ghost predicate RendersNormal(render: Render) {
    forall body :: render(body).Some? ==> AllNormal(render(body).value)
  }

  ghost predicate AllNormal(items: seq<FeedItem>) {
    forall i :: 0 <= i < |items| ==> Normal(items[i])
  }

  /** What a full fetch of this body returns. */
  function FullFetch(src: Source, rep: Rep, render: Render): seq<FeedItem> {
    if render(rep.body).None? then [] else Cut(render(rep.body).value, src.maxItems)
  }

  /** The first `maxItems` of the rendered items, in order. */
  lemma FullFetchIsFirst(src: Source, rep: Rep, render: Render)
    requires render(rep.body).Some?
    ensures var all, items := render(rep.body).value, FullFetch(src, rep, render);
            && |items| == (if |all| < src.maxItems then |all| else src.maxItems)
            && forall i :: 0 <= i < |items| ==> items[i] == all[i]
  {
  }

  // ---------- the upstream ----------

  /**
   * Served after a, b leaves a validator of a to decide the next request: an entity tag because b
   * sends none, or a date because b sends none and no tag decides.
   */
  predicate Drops(a: Rep, b: Rep) {
    || (b.etag.None? && Truthy(a.etag).Some?)
    || (Truthy(b.etag.OrElse(a.etag)).None? && a.lastModified.Some? && b.lastModified.None?)
  }

  /** An upstream that always tags never drops; nor does one that never tags and always dates. */
  ghost predicate NeverDrops(hist: seq<Rep>) {
    forall i, j :: 0 <= i < j < |hist| ==> !Drops(hist[i], hist[j])
  }

  /** One entity tag is one body; without an entity tag, a later body has a later date. */
  ghost predicate Identifying(hist: seq<Rep>) {
    forall i, j :: 0 <= i < |hist| && 0 <= j < |hist| ==> Identified(hist, i, j)
  }

  predicate DatedNoLater(a: Rep, b: Rep) {
    a.lastModified.Some? && b.lastModified.Some? && a.lastModified.value <= b.lastModified.value
  }

  predicate Identified(hist: seq<Rep>, i: int, j: int)
    requires 0 <= i < |hist| && 0 <= j < |hist|
  {
    && (Truthy(hist[i].etag).Some? && hist[i].etag == hist[j].etag ==> hist[i].body == hist[j].body)
    && (Truthy(hist[i].etag).None? && i <= j && DatedNoLater(hist[j], hist[i]) ==> hist[i].body == hist[j].body)
  }

  // ---------- runs ----------

  datatype World = World(hist: seq<Rep>, row: Option<SourceState>)

  datatype Event = Publish(rep: Rep) | Try(a: Attempt)

  predicate Requests(src: Source, row: Option<SourceState>, a: Attempt) {
    IsDue(src, if a.dueRead then row else None, a.now)
  }

  /** The attempt got a 304 it cannot use and asks again, without validators. */
  predicate Refetches(row: Option<SourceState>, a: Attempt) {
    var state := if a.fetchRead then row else None;
    a.first.Serves? && NotModified(a.first.rep, Truthy(EtagOf(state)), DateOf(state)) && StoredItems(state).None?
  }

  /** The history after an event; the upstream may publish between the two requests of an attempt. */
  function HistAfter(src: Source, w: World, e: Event): seq<Rep> {
    match e
    case Publish(rep) => w.hist + [rep]
    case Try(a) =>
      if Requests(src, w.row, a) && Refetches(w.row, a) && a.second.Serves? then w.hist + [a.second.rep] else w.hist
  }

  /** The upstream answers with what it holds. */
  ghost predicate Legal(src: Source, w: World, e: Event) {
    && NeverDrops(HistAfter(src, w, e)) && Identifying(HistAfter(src, w, e))
    && (e.Try? ==> InTime(e.a.savedAt) && w.hist != [])
    && (e.Try? && e.a.first.Serves? ==> e.a.first.rep == w.hist[|w.hist| - 1])
  }

  function Next(src: Source, w: World, e: Event, render: Render): World
    requires e.Try? ==> InTime(e.a.savedAt)
  {
    World(HistAfter(src, w, e), if e.Try? then Once(src, w.row, e.a, render).row else w.row)
  }

  ghost predicate LegalRun(src: Source, w: World, events: seq<Event>, render: Render)
    decreases |events|
  {
    events != [] ==> Legal(src, w, events[0]) && LegalRun(src, Next(src, w, events[0], render), events[1..], render)
  }

  /** The world at the end of a run. */
  function End(src: Source, w: World, events: seq<Event>, render: Render): World
    requires forall i :: 0 <= i < |events| && events[i].Try? ==> InTime(events[i].a.savedAt)
    decreases |events|
  {
    if events == [] then w else End(src, Next(src, w, events[0], render), events[1..], render)
  }

  lemma {:induction false} LegalTimes(src: Source, w: World, events: seq<Event>, render: Render)
    requires LegalRun(src, w, events, render)
    ensures forall i :: 0 <= i < |events| && events[i].Try? ==> InTime(events[i].a.savedAt)
    decreases |events|
  {
    hide Once, NeverDrops, Identifying, HistAfter;
    if events != [] {
      LegalTimes(src, Next(src, w, events[0], render), events[1..], render);
      assert events == [events[0]] + events[1..];
    }
  }

  /** Whatever an attempt returns is a full fetch of what the upstream holds when it ends. */
  ghost predicate AnswersAreFull(src: Source, w: World, events: seq<Event>, render: Render)
    requires LegalRun(src, w, events, render)
    decreases |events|
  {
    events != [] ==>
      && AnswerIsFull(src, w, events[0], render)
      && AnswersAreFull(src, Next(src, w, events[0], render), events[1..], render)
  }

  ghost predicate AnswerIsFull(src: Source, w: World, e: Event, render: Render)
    requires Legal(src, w, e)
  {
    e.Try? && Once(src, w.row, e.a, render).outcome.Items? ==>
      var hist := HistAfter(src, w, e);
      Once(src, w.row, e.a, render).outcome.items == FullFetch(src, hist[|hist| - 1], render)
  }

  // ---------- the invariant ----------

  /** The validator that decides the next request is one of this representation. */
  predicate Decides(s: SourceState, rep: Rep) {
    if Truthy(s.etag).Some? then s.etag == rep.etag
    else s.lastModified.Some? ==>
           Truthy(rep.etag).None? && rep.lastModified.Some? && s.lastModified.value <= rep.lastModified.value
  }

  /** The stored payload is this representation's, and so is the deciding validator. */
  ghost predicate Describes(src: Source, s: SourceState, rep: Rep, render: Render) {
    Decides(s, rep) && s.lastPayload.Some? && ToDicts(FullFetch(src, rep, render)) == s.lastPayload
  }

  /** Each stored validator was sent by the upstream. */
  ghost predicate Traced(s: SourceState, hist: seq<Rep>) {
    && (s.etag.Some? ==> exists k :: 0 <= k < |hist| && hist[k].etag == s.etag)
    && (s.lastModified.Some? ==> exists k :: 0 <= k < |hist| && hist[k].lastModified == s.lastModified)
  }

  ghost predicate Matched(src: Source, s: SourceState, hist: seq<Rep>, render: Render) {
    || (s.lastPayload.None? && s.etag.None? && s.lastModified.None?)
    || exists i :: 0 <= i < |hist| && Describes(src, s, hist[i], render)
  }

  ghost predicate Coherent(src: Source, w: World, render: Render) {
    w.row.Some? ==> Traced(w.row.value, w.hist) && Matched(src, w.row.value, w.hist, render)
  }

  lemma {:induction false} PayloadReadsBack(items: seq<FeedItem>)
    requires AllNormal(items)
    ensures ToDicts(items).Some? && FromDicts(ToDicts(items).value) == items
  {
    if items != [] {
      PayloadReadsBack(items[1..]);
      NormalReadsBack(items[0]);
      var dicts := ToDicts(items).value;
      assert dicts[1..] == ToDicts(items[1..]).value;
    }
  }

  lemma NormalReadsBack(item: FeedItem)
    requires Normal(item)
    ensures ToDict(item).Some? && FromDict(ToDict(item).value) == item
  {
    hide FromDict, Iso, ParseIso, UtcFromMicros, TagList;
    if item.published.Some? { EnsureAwareOfUtc(item.published.value); }
    PayloadRoundTrip(item);
  }

  lemma FullFetchReadsBack(src: Source, rep: Rep, render: Render)
    requires RendersNormal(render)
    ensures ToDicts(FullFetch(src, rep, render)).Some?
    ensures FromDicts(ToDicts(FullFetch(src, rep, render)).value) == FullFetch(src, rep, render)
  {
    hide ToDicts, FromDicts;
    PayloadReadsBack(FullFetch(src, rep, render));
  }

  /** The COALESCE keeps a validator of the old row that then decides instead of the new representation's. */
  predicate KeepsOld(row: Option<SourceState>, rep: Rep) {
    || (rep.etag.None? && Truthy(EtagOf(row)).Some?)
    || (Truthy(rep.etag.OrElse(EtagOf(row))).None? && DateOf(row).Some? && rep.lastModified.None?)
  }

  /** A 200 answer leaves a state that describes its body, exactly when no older validator is kept to decide. */
  lemma FreshWriteDescribes(src: Source, row: Option<SourceState>, rep: Rep, savedAt: string, render: Render)
    requires RendersNormal(render) && render(rep.body).Some?
    ensures var f := FromBody(src, rep, savedAt, render);
            && f.outcome == Items(FullFetch(src, rep, render)) && f.write.Some?
            && (Describes(src, Stored(row, f.write.value), rep, render) <==> !KeepsOld(row, rep))
  {
    hide ToDicts, FromDicts;
    FullFetchReadsBack(src, rep, render);
  }

  lemma NothingOldIsKept(s: SourceState, hist: seq<Rep>)
    requires hist != [] && Traced(s, hist) && NeverDrops(hist)
    ensures !KeepsOld(Some(s), hist[|hist| - 1])
  {
    var rep := hist[|hist| - 1];
    if s.etag.Some? {
      var k :| 0 <= k < |hist| && hist[k].etag == s.etag;
      assert k < |hist| - 1 ==> !Drops(hist[k], rep);
    }
    if s.lastModified.Some? {
      var k :| 0 <= k < |hist| && hist[k].lastModified == s.lastModified;
      assert k < |hist| - 1 ==> !Drops(hist[k], rep);
    }
  }

  lemma FreshWriteIsTraced(row: Option<SourceState>, x: Write, hist: seq<Rep>)
    requires hist != [] && (row.Some? ==> Traced(row.value, hist))
    requires x.etag == hist[|hist| - 1].etag && x.lastModified == hist[|hist| - 1].lastModified
    ensures Traced(Stored(row, x), hist)
  {
  }

  lemma FromBodyKeeps(src: Source, w: World, savedAt: string, hist: seq<Rep>, render: Render)
    requires RendersNormal(render) && Coherent(src, w, render) && NeverDrops(hist) && w.hist <= hist && hist != []
    ensures var rep := hist[|hist| - 1];
            var f := FromBody(src, rep, savedAt, render);
            && f.outcome == Items(FullFetch(src, rep, render))
            && (f.write.Some? ==> Coherent(src, World(hist, Some(Stored(w.row, f.write.value))), render))
  {
    hide ToDicts, FromDicts, Traced, Stored, NeverDrops, Describes, FullFetch;
    var rep := hist[|hist| - 1];
    if render(rep.body).Some? {
      FreshWriteDescribes(src, w.row, rep, savedAt, render);
      MoreHistory(src, w, hist, render);
      if w.row.Some? { NothingOldIsKept(w.row.value, hist); }
      FreshWriteIsTraced(w.row, FromBody(src, rep, savedAt, render).write.value, hist);
    } else {
      assert FullFetch(src, rep, render) == [] by { NothingRendered(src, rep, render); }
    }
  }

  lemma NothingRendered(src: Source, rep: Rep, render: Render)
    requires render(rep.body).None?
    ensures FullFetch(src, rep, render) == []
  {
  }

  /** A 304 means that the upstream still holds the body the stored payload came from. */
  lemma NotModifiedMeansSameBody(src: Source, w: World, i: int, render: Render)
    requires w.row.Some? && 0 <= i < |w.hist| && Describes(src, w.row.value, w.hist[i], render)
    requires Identifying(w.hist)
    requires NotModified(w.hist[|w.hist| - 1], Truthy(EtagOf(w.row)), DateOf(w.row))
    ensures w.hist[i].body == w.hist[|w.hist| - 1].body
    ensures Truthy(EtagOf(w.row)).Some? ==> w.hist[|w.hist| - 1].etag == EtagOf(w.row)
    ensures Truthy(EtagOf(w.row)).None? ==> DatedNoLater(w.hist[|w.hist| - 1], w.hist[i])
  {
    hide ToDicts;
    assert Identified(w.hist, i, |w.hist| - 1);
  }

  /** The validators a 304 leaves: those of the stored representation still, or a tag the 304 repeats. */
  lemma RepeatedValidators(s: SourceState, a: Attempt, savedAt: string, hist: seq<Rep>, i: nat)
    requires i < |hist| && Traced(s, hist) && Decides(s, hist[i]) && a.first == Serves(hist[|hist| - 1])
    requires NotModified(a.first.rep, Truthy(s.etag), s.lastModified)
    requires Truthy(s.etag).Some? ==> a.first.rep.etag == s.etag
    requires Truthy(s.etag).None? ==> DatedNoLater(a.first.rep, hist[i])
    ensures var rep := a.first.rep;
            var etag := (if a.repeatsEtag then Truthy(rep.etag) else None).OrElse(s.etag);
            var date := (if a.repeatsDate then rep.lastModified else None).OrElse(s.lastModified);
            var next := Stored(Some(s), Write(etag, date, savedAt, Some(savedAt), None, None));
            Traced(next, hist) && (Decides(next, hist[i]) || Decides(next, rep))
  {
  }

  lemma StoredAnswerIsFull(src: Source, w: World, a: Attempt, savedAt: string, render: Render)
    requires RendersNormal(render) && Coherent(src, w, render) && Identifying(w.hist)
    requires w.hist != [] && a.first == Serves(w.hist[|w.hist| - 1])
    requires NotModified(a.first.rep, Truthy(EtagOf(w.row)), DateOf(w.row)) && StoredItems(w.row).Some?
    ensures var f := FetchConditional(src, w.row, a, savedAt, render);
            && f.outcome == Items(FullFetch(src, a.first.rep, render))
            && f.write.Some? && Coherent(src, World(w.hist, Some(Stored(w.row, f.write.value))), render)
  {
    hide ToDicts, FromDicts, Traced, Decides, NotModified, Identifying, FetchConditional, FullFetch;
    var s := w.row.value;
    var i :| 0 <= i < |w.hist| && Describes(src, s, w.hist[i], render);
    NotModifiedMeansSameBody(src, w, i, render);
    SameBodySameItems(src, w.hist[i], a.first.rep, render);
    FullFetchReadsBack(src, w.hist[i], render);
    FullFetchIsCut(src, w.hist[i], render);
    RepeatedValidators(s, a, savedAt, w.hist, i);
    StoredFetch(src, s, a, savedAt, render);
    var next := Stored(w.row, FetchConditional(src, w.row, a, savedAt, render).write.value);
    assert Describes(src, next, w.hist[i], render) || Describes(src, next, w.hist[|w.hist| - 1], render);
  }

  /** What a 304 with a usable payload comes to. */
  lemma StoredFetch(src: Source, s: SourceState, a: Attempt, savedAt: string, render: Render)
    requires a.first.Serves? && NotModified(a.first.rep, Truthy(s.etag), s.lastModified) && StoredItems(Some(s)).Some?
    ensures var etag := (if a.repeatsEtag then Truthy(a.first.rep.etag) else None).OrElse(s.etag);
            var date := (if a.repeatsDate then a.first.rep.lastModified else None).OrElse(s.lastModified);
            FetchConditional(src, Some(s), a, savedAt, render) ==
              Fetched(Items(Cut(FromDicts(s.lastPayload.value), src.maxItems)),
                      Some(Write(etag, date, savedAt, Some(savedAt), None, None)))
  {
    hide FromDicts, NotModified, FromBody;
  }

  lemma SameBodySameItems(src: Source, a: Rep, b: Rep, render: Render)
    requires a.body == b.body
    ensures FullFetch(src, a, render) == FullFetch(src, b, render)
  {
  }

  lemma FullFetchIsCut(src: Source, rep: Rep, render: Render)
    ensures Cut(FullFetch(src, rep, render), src.maxItems) == FullFetch(src, rep, render)
  {
  }

  // ---------- one attempt, and all runs ----------

  lemma MoreHistory(src: Source, w: World, hist: seq<Rep>, render: Render)
    requires Coherent(src, w, render) && w.hist <= hist
    ensures Coherent(src, World(hist, w.row), render)
  {
    hide ToDicts, FullFetch, Describes;
    assert forall k :: 0 <= k < |w.hist| ==> hist[k] == w.hist[k];
  }

  /** A write that brings nothing new: what a failed attempt saves, and what a plain fetch saves. */
  lemma EmptyWriteKeeps(src: Source, w: World, state: Option<SourceState>, x: Write, render: Render)
    requires Coherent(src, w, render)
    requires state == w.row || state.None?
    requires x.etag == EtagOf(state) && x.lastModified == DateOf(state) && x.payload.None?
    ensures Coherent(src, World(w.hist, Some(Stored(w.row, x))), render)
  {
    hide ToDicts, FullFetch;
    if w.row.Some? && w.row.value.lastPayload.Some? {
      var i :| 0 <= i < |w.hist| && Describes(src, w.row.value, w.hist[i], render);
      assert Describes(src, Stored(w.row, x), w.hist[i], render);
    }
  }

  /** The answer of an attempt is that of a full fetch, whatever validators the upstream will send next. */
  lemma ConditionalAnswers(src: Source, w: World, a: Attempt, savedAt: string, render: Render)
    requires RendersNormal(render) && Coherent(src, w, render) && Identifying(w.hist) && w.hist != []
    requires Requests(src, w.row, a)
    requires a.first.Serves? ==> a.first.rep == w.hist[|w.hist| - 1]
    ensures var f := FetchConditional(src, if a.fetchRead then w.row else None, a, savedAt, render);
            var hist := HistAfter(src, w, Try(a));
            && (f.outcome.Items? ==> f.outcome.items == FullFetch(src, hist[|hist| - 1], render))
            && (f.outcome.Raised? ==> f.write.None?) && !f.outcome.Skipped?
            && (a.first.Serves? && a.second.Serves? ==> f.outcome.Items?)
  {
    hide ToDicts, FromDicts, FullFetch, IsDue, Stored, Coherent, Identifying, FromBody;
    var state := if a.fetchRead then w.row else None;
    if a.first.Serves? {
      FromBodyIsFull(src, a.first.rep, savedAt, render);
      if a.second.Serves? { FromBodyIsFull(src, a.second.rep, savedAt, render); }
      if NotModified(a.first.rep, Truthy(EtagOf(state)), DateOf(state)) && StoredItems(state).Some? {
        StoredAnswerIsFull(src, w, a, savedAt, render);
      }
    }
  }

  lemma FromBodyIsFull(src: Source, rep: Rep, savedAt: string, render: Render)
    requires RendersNormal(render)
    ensures FromBody(src, rep, savedAt, render).outcome == Items(FullFetch(src, rep, render))
  {
    hide ToDicts, FromDicts;
    FullFetchReadsBack(src, rep, render);
  }

  lemma PrefixNeverDrops(hist: seq<Rep>, n: nat)
    requires NeverDrops(hist) && n <= |hist|
    ensures NeverDrops(hist[..n])
  {
    hide Drops;
    assert forall i :: 0 <= i < n ==> hist[..n][i] == hist[i];
  }

  /** `hist` is what the upstream has served by the end: the same, or one more when it was asked again. */
  lemma ConditionalKeeps(src: Source, w: World, a: Attempt, savedAt: string, hist: seq<Rep>, render: Render)
    requires RendersNormal(render) && Coherent(src, w, render) && Identifying(w.hist) && w.hist != []
    requires w.hist <= hist && NeverDrops(hist)
    requires a.first.Serves? ==> a.first.rep == w.hist[|w.hist| - 1]
    requires Refetches(w.row, a) && a.second.Serves? ==> a.second.rep == hist[|hist| - 1]
    ensures var f := FetchConditional(src, if a.fetchRead then w.row else None, a, savedAt, render);
            f.write.Some? ==> Coherent(src, World(hist, Some(Stored(w.row, f.write.value))), render)
  {
    hide ToDicts, FromDicts, FullFetch, FromBody, IsDue, Stored, Coherent, NeverDrops, Identifying;
    var state := if a.fetchRead then w.row else None;
    var f := FetchConditional(src, state, a, savedAt, render);
    PrefixNeverDrops(hist, |w.hist|);
    assert hist[..|w.hist|] == w.hist;
    if a.first.Serves? {
      if !NotModified(a.first.rep, Truthy(EtagOf(state)), DateOf(state)) {
        FromBodyKeeps(src, w, savedAt, w.hist, render);
        if f.write.Some? { MoreHistory(src, World(w.hist, Some(Stored(w.row, f.write.value))), hist, render); }
      } else if StoredItems(state).Some? {
        StoredAnswerIsFull(src, w, a, savedAt, render);
        MoreHistory(src, World(w.hist, Some(Stored(w.row, f.write.value))), hist, render);
      } else if a.second.Serves? {
        FromBodyKeeps(src, w, savedAt, hist, render);
      }
    }
  }

  lemma StepIsCoherent(src: Source, w: World, e: Event, render: Render)
    requires src.conditional && RendersNormal(render)
    requires Coherent(src, w, render) && Identifying(w.hist) && Legal(src, w, e)
    ensures Coherent(src, Next(src, w, e, render), render) && AnswerIsFull(src, w, e, render)
  {
    hide ToDicts, FromDicts, FullFetch, IsDue, Stored, FetchConditional, Coherent, NeverDrops, Identifying, Stamp;
    MoreHistory(src, w, HistAfter(src, w, e), render);
    if e.Try? && Requests(src, w.row, e.a) {
      var a := e.a;
      var state := if a.dueRead then w.row else None;
      ConditionalAnswers(src, w, a, Stamp(a.savedAt), render);
      ConditionalKeeps(src, w, a, Stamp(a.savedAt), HistAfter(src, w, e), render);
      var failed := Write(EtagOf(state), DateOf(state), Stamp(a.savedAt), None, Some("error"), None);
      EmptyWriteKeeps(src, World(HistAfter(src, w, e), w.row), state, failed, render);
    }
  }

  /**
   * Over every run: a fetch that answers from the store answers what a full fetch would, whatever
   * failed before it, and the state goes on describing one representation.
   */
  lemma {:induction false} RunsAreCoherent(src: Source, w: World, events: seq<Event>, render: Render)
    requires src.conditional && RendersNormal(render)
    requires Coherent(src, w, render) && Identifying(w.hist)
    requires LegalRun(src, w, events, render)
    ensures AnswersAreFull(src, w, events, render)
    ensures forall i :: 0 <= i < |events| && events[i].Try? ==> InTime(events[i].a.savedAt)
    ensures Coherent(src, End(src, w, events, render), render)
    decreases |events|
  {
    hide Coherent, NeverDrops, Identifying, AnswerIsFull, Once;
    LegalTimes(src, w, events, render);
    if events != [] {
      StepIsCoherent(src, w, events[0], render);
      RunsAreCoherent(src, Next(src, w, events[0], render), events[1..], render);
    }
  }

  /** Which upstreams meet the condition: those that always tag, and those that never tag and date all or nothing. */
  lemma UsualUpstreams(hist: seq<Rep>)
    ensures (forall i :: 0 <= i < |hist| ==> Truthy(hist[i].etag).Some?) ==> NeverDrops(hist)
    ensures (forall i :: 0 <= i < |hist| ==> Truthy(hist[i].etag).None?)
            && (forall i, j :: 0 <= i < |hist| && 0 <= j < |hist| ==> hist[i].lastModified.Some? == hist[j].lastModified.Some?)
            ==> NeverDrops(hist)
  {
  }

  // ---------- when a stored state goes stale ----------

  /** The row after these representations have each been fetched with a 200 and saved. */
  function RowAfter(src: Source, reps: seq<Rep>, savedAt: string, render: Render): Option<SourceState>
    requires RendersAll(reps, render) && RendersNormal(render)
  {
    if reps == [] then None else
      var f := FromBody(src, reps[|reps| - 1], savedAt, render);
      assert f.write.Some? by { FreshWriteDescribes(src, None, reps[|reps| - 1], savedAt, render); }
      Some(Stored(RowAfter(src, reps[..|reps| - 1], savedAt, render), f.write.value))
  }

  ghost predicate RendersAll(reps: seq<Rep>, render: Render) {
    forall i :: 0 <= i < |reps| ==> render(reps[i].body).Some?
  }

  /** The last entity tag that was sent at all, and the last date. */
  function LastEtag(reps: seq<Rep>): Option<string> {
    if reps == [] then None else reps[|reps| - 1].etag.OrElse(LastEtag(reps[..|reps| - 1]))
  }

  function LastDate(reps: seq<Rep>): Option<int> {
    if reps == [] then None else reps[|reps| - 1].lastModified.OrElse(LastDate(reps[..|reps| - 1]))
  }

  lemma {:induction false} RowAfterValidators(src: Source, reps: seq<Rep>, savedAt: string, render: Render)
    requires RendersAll(reps, render) && RendersNormal(render)
    ensures EtagOf(RowAfter(src, reps, savedAt, render)) == LastEtag(reps)
    ensures DateOf(RowAfter(src, reps, savedAt, render)) == LastDate(reps)
  {
    hide ToDicts;
    if reps != [] {
      var front, last := reps[..|reps| - 1], reps[|reps| - 1];
      RowAfterValidators(src, front, savedAt, render);
      FreshWriteDescribes(src, RowAfter(src, front, savedAt, render), last, savedAt, render);
    }
  }

  /**
   * In terms of what was fetched: the row describes the last representation if and only if that one
   * sends an entity tag or no tag was left to decide, and a tag decides or it sends a date or none
   * was left.
   */
  lemma StaleIsExact(src: Source, reps: seq<Rep>, savedAt: string, render: Render)
    requires reps != [] && RendersAll(reps, render) && RendersNormal(render)
    ensures var front, last := reps[..|reps| - 1], reps[|reps| - 1];
            Describes(src, RowAfter(src, reps, savedAt, render).value, last, render) <==>
              && (last.etag.Some? || Truthy(LastEtag(front)).None?)
              && (Truthy(LastEtag(reps)).Some? || last.lastModified.Some? || LastDate(front).None?)
  {
    hide ToDicts, Describes, Stored;
    var front, last := reps[..|reps| - 1], reps[|reps| - 1];
    RowAfterValidators(src, front, savedAt, render);
    FreshWriteDescribes(src, RowAfter(src, front, savedAt, render), last, savedAt, render);
  }

  // ---------- why a deciding validator must not be dropped ----------

  /** An attempt against this representation, with everything else working. */
  function Good(rep: Rep): Attempt {
    Attempt(0, 0, true, true, true, Serves(rep), Serves(rep), true, true, [])
  }

  /** What the third of three fetches returns when the upstream serves these one after the other. */
  function ThirdOutcome(src: Source, a: Rep, b: Rep, c: Rep, render: Render): Outcome {
    Once(src, Once(src, Once(src, None, Good(a), render).row, Good(b), render).row, Good(c), render).outcome
  }

  ghost predicate ThirdIsFull(src: Source, a: Rep, b: Rep, c: Rep, render: Render) {
    ThirdOutcome(src, a, b, c, render) == Items(FullFetch(src, c, render))
  }

  /** A good attempt of a source that is always due. */
  lemma GoodAttempt(src: Source, row: Option<SourceState>, rep: Rep, render: Render)
    requires src.conditional && src.minInterval <= 0
    ensures Requests(src, row, Good(rep))
    ensures var f := FetchConditional(src, row, Good(rep), Stamp(0), render);
            var t := Once(src, row, Good(rep), render);
            && t.outcome == f.outcome
            && (f.outcome.Items? && f.write.Some? ==> t.row == Some(Stored(row, f.write.value)))
            && (f.outcome.Items? && f.write.None? ==> t.row == row)
  {
    hide FetchConditional, Stamp, Stored;
  }

  /** A 200 answer with items. */
  lemma GoodBody(src: Source, row: Option<SourceState>, rep: Rep, render: Render)
    requires src.conditional && src.minInterval <= 0 && RendersNormal(render) && render(rep.body).Some?
    requires !NotModified(rep, Truthy(EtagOf(row)), DateOf(row))
    ensures var t := Once(src, row, Good(rep), render);
            && t.outcome == Items(FullFetch(src, rep, render)) && t.row.Some?
            && t.row.value.etag == rep.etag.OrElse(EtagOf(row)) && t.row.value.lastModified == rep.lastModified.OrElse(DateOf(row))
            && t.row.value.lastPayload == ToDicts(FullFetch(src, rep, render))
            && t.row.value.lastPayload.Some? && FromDicts(t.row.value.lastPayload.value) == FullFetch(src, rep, render)
  {
    hide ToDicts, FromDicts, Stamp, Once;
    GoodAttempt(src, row, rep, render);
    FullFetchReadsBack(src, rep, render);
  }

  /** A 304 answered from a payload that is not empty. */
  lemma GoodStored(src: Source, row: Option<SourceState>, rep: Rep, items: seq<FeedItem>, render: Render)
    requires src.conditional && src.minInterval <= 0 && row.Some? && row.value.lastPayload.Some?
    requires FromDicts(row.value.lastPayload.value) == items != [] && |items| <= src.maxItems
    requires NotModified(rep, Truthy(EtagOf(row)), DateOf(row))
    ensures Once(src, row, Good(rep), render).outcome == Items(items)
  {
    hide FromDicts, Stamp, Once, NotModified, FromBody;
    GoodAttempt(src, row, rep, render);
  }

  /** The representation the upstream serves third: a's body under the validator of a that was kept. */
  function Third(a: Rep, b: Rep): Rep {
    if b.etag.None? && Truthy(a.etag).Some? then Rep(a.body, a.etag, None) else Rep(a.body, None, a.lastModified)
  }

  lemma ThirdIdentifies(a: Rep, b: Rep)
    requires Drops(a, b)
    ensures Identifying([a, b, Third(a, b)])
  {
    var hist := [a, b, Third(a, b)];
    forall i, j | 0 <= i < |hist| && 0 <= j < |hist| ensures Identified(hist, i, j) {
      assert hist[0] == a && hist[1] == b && hist[2] == Third(a, b);
    }
  }

  /** Whenever b drops a's validator, the third fetch returns the items of b for the body of a. */
  lemma DropGivesStaleItems(src: Source, a: Rep, b: Rep, render: Render)
    requires src.conditional && src.minInterval <= 0 && RendersNormal(render)
    requires render(a.body).Some? && render(b.body).Some? && FullFetch(src, b, render) != []
    requires Drops(a, b)
    ensures Identifying([a, b, Third(a, b)])
    ensures ThirdOutcome(src, a, b, Third(a, b), render) == Items(FullFetch(src, b, render))
  {
    hide ToDicts, FromDicts, Once, Identifying;
    ThirdIdentifies(a, b);
    GoodBody(src, None, a, render);
    var first := Once(src, None, Good(a), render).row;
    GoodBody(src, first, b, render);
    var second := Once(src, first, Good(b), render).row;
    GoodStored(src, second, Third(a, b), FullFetch(src, b, render), render);
  }

  lemma GoodKeeps(src: Source, w: World, rep: Rep, render: Render)
    requires src.conditional && src.minInterval <= 0 && RendersNormal(render)
    requires Coherent(src, w, render) && Identifying(w.hist) && NeverDrops(w.hist)
    requires w.hist != [] && w.hist[|w.hist| - 1] == rep
    ensures Coherent(src, World(w.hist, Once(src, w.row, Good(rep), render).row), render)
    ensures Once(src, w.row, Good(rep), render).outcome == Items(FullFetch(src, rep, render))
  {
    hide ToDicts, FromDicts, Once, Identifying, NeverDrops, Coherent, FullFetch, FetchConditional, Stored, Stamp, NotModified;
    GoodAttempt(src, w.row, rep, render);
    ConditionalAnswers(src, w, Good(rep), Stamp(0), render);
    ConditionalKeeps(src, w, Good(rep), Stamp(0), w.hist, render);
  }

  lemma PartsIdentify(a: Rep, b: Rep, c: Rep)
    requires Identifying([a, b, c])
    ensures Identifying([a]) && Identifying([a, b])
  {
    hide Truthy;
    var hist := [a, b, c];
    assert Identified(hist, 0, 0) && Identified(hist, 0, 1) && Identified(hist, 1, 0) && Identified(hist, 1, 1);
    assert [a][0] == hist[0] && [a, b][0] == hist[0] && [a, b][1] == hist[1];
  }

  /** When b drops nothing, whatever is served third is answered as a full fetch. */
  lemma NoDropMeansFull(src: Source, a: Rep, b: Rep, c: Rep, render: Render)
    requires src.conditional && src.minInterval <= 0 && RendersNormal(render)
    requires !Drops(a, b) && Identifying([a, b, c])
    ensures ThirdIsFull(src, a, b, c, render)
  {
    hide ToDicts, FromDicts, Once, Identifying, Drops, FullFetch, FetchConditional, Stored, Stamp;
    hide Traced, Matched, Requests;
    PartsIdentify(a, b, c);
    GoodKeeps(src, World([a], None), a, render);
    var first := Once(src, None, Good(a), render).row;
    MoreHistory(src, World([a], first), [a, b], render);
    GoodKeeps(src, World([a, b], first), b, render);
    var second := Once(src, first, Good(b), render).row;
    MoreHistory(src, World([a, b], second), [a, b, c], render);
    GoodAttempt(src, second, c, render);
    ConditionalAnswers(src, World([a, b, c], second), Good(c), Stamp(0), render);
  }

  /**
   * The condition is exact. For two representations with different items, whatever the upstream
   * serves next is answered as a full fetch if and only if the second does not drop the first's
   * validator.
   */
  lemma DropIsDecisive(src: Source, a: Rep, b: Rep, render: Render)
    requires src.conditional && src.minInterval <= 0 && RendersNormal(render)
    requires render(a.body).Some? && render(b.body).Some?
    requires FullFetch(src, b, render) != [] && FullFetch(src, a, render) != FullFetch(src, b, render)
    ensures (forall c :: Identifying([a, b, c]) ==> ThirdIsFull(src, a, b, c, render)) <==> !Drops(a, b)
  {
    hide Identifying, ThirdIsFull, Drops, FullFetch;
    if Drops(a, b) {
      DropGivesStaleItems(src, a, b, render);
      StaleIsNotFull(src, a, b, render);
    } else {
      forall c | Identifying([a, b, c]) ensures ThirdIsFull(src, a, b, c, render) { NoDropMeansFull(src, a, b, c, render); }
    }
  }

  lemma StaleIsNotFull(src: Source, a: Rep, b: Rep, render: Render)
    requires FullFetch(src, a, render) != FullFetch(src, b, render)
    requires ThirdOutcome(src, a, b, Third(a, b), render) == Items(FullFetch(src, b, render))
    ensures !ThirdIsFull(src, a, b, Third(a, b), render)
  {
    hide ThirdOutcome;
    assert FullFetch(src, Third(a, b), render) == FullFetch(src, a, render);
  }

  function Sample(id: string): FeedItem {
    FeedItem(id, id, "", "", "", "", None, {}, [], UNKNOWN, false, false, None, false, [], [], None, UNKNOWN)
  }

  /**
   * For example: the upstream tags "a", then serves "b" without a tag, then "a" again. One tag is
   * one body all along, yet the third fetch is told 304 for the old tag and returns the items of "b".
   */
  lemma DroppedTagGivesStaleItems(src: Source, render: Render)
    requires src.conditional && src.minInterval <= 0 && src.maxItems >= 1
    requires forall body :: render(body) == Some([Sample(body)])
    ensures var a, b := Rep("a", Some("1"), None), Rep("b", None, None);
            && Identifying([a, b, a]) && RendersNormal(render)
            && ThirdOutcome(src, a, b, a, render) == Items(FullFetch(src, b, render)) != Items(FullFetch(src, a, render))
  {
    hide ThirdOutcome;
    var a, b := Rep("a", Some("1"), None), Rep("b", None, None);
    assert FullFetch(src, a, render) == [Sample("a")] && FullFetch(src, b, render) == [Sample("b")];
    assert Third(a, b) == a;
    DropGivesStaleItems(src, a, b, render);
  }
}
