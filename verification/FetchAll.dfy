/** Gathering all sources: items, errors, skipped sources, and when the sample feed is shown. */
module FetchAll {
  import opened Wrappers
  import opened Ordering
  import opened IsoTime
  import opened Models
  import opened LiveItems
  import opened Dedupe
  import opened DedupeRun
  import opened SourceFetch
  import opened Cadence

  // ---------- what the answers of the sources come to ----------

  function Live(outcomes: seq<Outcome>): seq<FeedItem> {
    if outcomes == [] then [] else
      Live(outcomes[..|outcomes| - 1]) + match outcomes[|outcomes| - 1] case Items(items) => items case _ => []
  }

  /** The sources whose fetch raised, in order. */
  function Errors(sources: seq<Source>, outcomes: seq<Outcome>): seq<string>
    requires |sources| == |outcomes|
  {
    if outcomes == [] then [] else
      var n := |outcomes| - 1;
      Errors(sources[..n], outcomes[..n]) + if outcomes[n].Raised? then [sources[n].id] else []
  }

  function SkippedCount(outcomes: seq<Outcome>): nat {
    if outcomes == [] then 0
    else SkippedCount(outcomes[..|outcomes| - 1]) + if outcomes[|outcomes| - 1].Skipped? then 1 else 0
  }

  const FEW := 4

  /** The items to merge: samples stand in, or fill up, only when every source was asked. */
  function Chosen(outcomes: seq<Outcome>, samples: seq<FeedItem>): seq<FeedItem> {
    if SkippedCount(outcomes) > 0 || |Live(outcomes)| >= FEW then Live(outcomes)
    else Live(outcomes) + samples
  }

  // ---------- the loop ----------

  method NewItems(vals: seq<FeedItem>) returns (items: seq<Item>)
    ensures fresh(items) && Values(items) == vals
  {
    hide Values, Item.Value;
    items := [];
    var i := 0;
    while i < |vals|
      invariant 0 <= i <= |vals| && |items| == i && fresh(items)
      invariant forall k :: 0 <= k < i ==> items[k].Value() == vals[k]
    {
      var item := new Item(vals[i]);
      items := items + [item];
      i := i + 1;
    }
  }

  lemma OneMoreSource(sources: seq<Source>, outcomes: seq<Outcome>, i: nat)
    requires i < |sources| == |outcomes|
    ensures Live(outcomes[..i + 1]) == Live(outcomes[..i]) + match outcomes[i] case Items(items) => items case _ => []
    ensures Errors(sources[..i + 1], outcomes[..i + 1]) ==
              Errors(sources[..i], outcomes[..i]) + if outcomes[i].Raised? then [sources[i].id] else []
    ensures SkippedCount(outcomes[..i + 1]) == SkippedCount(outcomes[..i]) + if outcomes[i].Skipped? then 1 else 0
  {
    assert outcomes[..i + 1][..i] == outcomes[..i] && sources[..i + 1][..i] == sources[..i];
  }

  /** `fetch_all`, from the answers of the sources on; it raises when the merged list cannot be sorted. */
  method FetchAll(sources: seq<Source>, outcomes: seq<Outcome>, samples: seq<FeedItem>)
      returns (r: Result<seq<Item>, string>, errors: seq<string>)
    requires |sources| == |outcomes|
    ensures errors == Errors(sources, outcomes)
    ensures r.Success? ==> Values(r.value) == Deduped(Chosen(outcomes, samples))
    ensures r.Success? <==> forall i :: 0 <= i < |Groups(Chosen(outcomes, samples))| ==> InUtc(Groups(Chosen(outcomes, samples))[i]).Some?
  {
    hide Live, Errors, SkippedCount, Deduped, Groups, Values, Item.Value, InUtc;
    errors := [];
    var found: seq<FeedItem>, skipped, i := [], 0, 0;
    NoSources();
    assert outcomes[..0] == [] && sources[..0] == [];
    while i < |outcomes|
      invariant 0 <= i <= |outcomes|
      invariant found == Live(outcomes[..i]) && skipped == SkippedCount(outcomes[..i])
      invariant errors == Errors(sources[..i], outcomes[..i])
    {
      OneMoreSource(sources, outcomes, i);
      match outcomes[i] {
        case Skipped => skipped := skipped + 1;
        case Raised(_) => errors := errors + [sources[i].id];
        case Items(more) => found := found + more;
      }
      i := i + 1;
    }
    assert outcomes[..|outcomes|] == outcomes && sources[..|outcomes|] == sources;
    if |found| == 0 && skipped == 0 {
      found := samples;
    } else if |found| > 0 && |found| < FEW && skipped == 0 {
      found := found + samples;
    }
    assert found == Chosen(outcomes, samples);
    var items := NewItems(found);
    r := DedupeItems(items);
  }

  lemma NoSources()
    ensures Live([]) == [] && SkippedCount([]) == 0 && Errors([], []) == []
  {
  }

  // ---------- what it means ----------

  lemma {:induction false} SkippedIsCounted(outcomes: seq<Outcome>)
    ensures SkippedCount(outcomes) > 0 <==> Outcome.Skipped in outcomes
  {
    if outcomes != [] {
      SkippedIsCounted(outcomes[..|outcomes| - 1]);
      assert outcomes == outcomes[..|outcomes| - 1] + [outcomes[|outcomes| - 1]];
    }
  }

  ghost predicate RaisedAt(sources: seq<Source>, outcomes: seq<Outcome>, id: string, i: int) {
    0 <= i < |sources| == |outcomes| && sources[i].id == id && outcomes[i].Raised?
  }

  lemma {:induction false} ErrorsMembers(sources: seq<Source>, outcomes: seq<Outcome>, id: string)
    requires |sources| == |outcomes|
    ensures id in Errors(sources, outcomes) <==> exists i :: RaisedAt(sources, outcomes, id, i)
  {
    if outcomes != [] {
      var n := |outcomes| - 1;
      ErrorsMembers(sources[..n], outcomes[..n], id);
      if i :| RaisedAt(sources[..n], outcomes[..n], id, i) { assert RaisedAt(sources, outcomes, id, i); }
      if i :| RaisedAt(sources, outcomes, id, i) {
        if i < n { assert RaisedAt(sources[..n], outcomes[..n], id, i); }
      }
      if outcomes[n].Raised? && sources[n].id == id { assert RaisedAt(sources, outcomes, id, n); }
    }
  }

  lemma {:induction false} IdsConcat(a: seq<FeedItem>, b: seq<FeedItem>, id: string)
    ensures id in Ids(a + b) <==> id in Ids(a) || id in Ids(b)
  {
    hide Ids;
    IdsMembers(a, id);
    IdsMembers(b, id);
    IdsMembers(a + b, id);
    if i :| HasId(a, id, i) { assert HasId(a + b, id, i); }
    if i :| HasId(b, id, i) { assert HasId(a + b, id, |a| + i); }
    if i :| HasId(a + b, id, i) { assert if i < |a| then HasId(a, id, i) else HasId(b, id, i - |a|); }
  }

  /** The live items are those of every source that answered with items. */
  lemma {:induction false} LiveMembers(outcomes: seq<Outcome>, x: FeedItem)
    ensures x in Live(outcomes) <==> exists i :: 0 <= i < |outcomes| && outcomes[i].Items? && x in outcomes[i].items
  {
    if outcomes != [] {
      var n := |outcomes| - 1;
      var front := outcomes[..n];
      LiveMembers(front, x);
      if i :| 0 <= i < |front| && front[i].Items? && x in front[i].items { assert outcomes[i].Items?; }
      if i :| 0 <= i < |outcomes| && outcomes[i].Items? && x in outcomes[i].items {
        if i < n { assert front[i].Items?; }
      }
    }
  }

  /** The ids of the feed: the live ones, and those of the samples exactly when no source was skipped and little is live. */
  lemma FeedIds(outcomes: seq<Outcome>, samples: seq<FeedItem>, id: string)
    ensures (exists i :: HasId(Deduped(Chosen(outcomes, samples)), id, i)) <==>
            id in Ids(Live(outcomes)) || (id in Ids(samples) && Outcome.Skipped !in outcomes && |Live(outcomes)| < 4)
  {
    hide Deduped, Ids, Live, SkippedCount, HasId, SortKey;
    DedupedList(Chosen(outcomes, samples));
    IdsConcat(Live(outcomes), samples, id);
    SkippedIsCounted(outcomes);
  }

  /** A sample is never shown beside a skipped source, nor when enough is live: it cannot cover a living archive. */
  lemma SamplesMeanEverySourceWasAsked(outcomes: seq<Outcome>, samples: seq<FeedItem>, x: FeedItem)
    requires forall y :: y in Live(outcomes) ==> !y.isSample
    requires x in Deduped(Chosen(outcomes, samples)) && x.isSample
    ensures Outcome.Skipped !in outcomes && |Live(outcomes)| < 4
  {
    hide Deduped, Groups, Ids, Live, SkippedCount, SortKey, MergeOf, WithId, Distinct;
    var chosen := Chosen(outcomes, samples);
    DedupedList(chosen);
    GroupOrigin(chosen, x);
    SkippedIsCounted(outcomes);
  }

  /** What identifies a merged item comes from one of the items merged. */
  lemma GroupOrigin(items: seq<FeedItem>, x: FeedItem)
    requires x in Groups(items)
    ensures exists y :: y in items && y.id == x.id && y.isSample == x.isSample
  {
    hide Ids, MergeOf, WithId, Distinct, SeverityRank;
    var ids := Distinct(Ids(items));
    var k :| 0 <= k < |Groups(items)| && Groups(items)[k] == x;
    assert ids[k] in ids;
    MergeIsUnion(items, ids[k]);
    WithIdMembers(items, ids[k]);
    assert WithId(items, ids[k])[0] in WithId(items, ids[k]);
    MergeOfHasId(items, ids[k]);
  }

  // ---------- what becomes of a failure ----------

  /** One source at a refresh: its state row, and what its two attempts meet. */
  datatype Poll = Poll(src: Source, row: Option<SourceState>, first: Attempt, second: Attempt, render: Render)

  predicate PollInTime(p: Poll) { InTime(p.first.savedAt) && InTime(p.second.savedAt) }

  function After(p: Poll): Outcome
    requires PollInTime(p)
  {
    WithRetry(p.src, p.row, [p.first, p.second], p.render).outcome
  }

  function Sources(polls: seq<Poll>): (r: seq<Source>)
    ensures |r| == |polls| && forall i :: 0 <= i < |r| ==> r[i] == polls[i].src
  {
    if polls == [] then [] else [polls[0].src] + Sources(polls[1..])
  }

  function Outcomes(polls: seq<Poll>): (r: seq<Outcome>)
    requires forall i :: 0 <= i < |polls| ==> PollInTime(polls[i])
    ensures |r| == |polls| && forall i :: 0 <= i < |r| ==> r[i] == After(polls[i])
  {
    if polls == [] then [] else [After(polls[0])] + Outcomes(polls[1..])
  }

  function FirstTry(p: Poll): Tried
    requires PollInTime(p)
  {
    Once(p.src, p.row, p.first, p.render)
  }

  /**
   * A source is reported as failed exactly when an attempt failed for good: other than in
   * transport, or in transport with a retry that was sent and failed too.
   */
  predicate FailsForGood(p: Poll)
    requires PollInTime(p)
  {
    var t := FirstTry(p);
    || t.outcome == Raised(false)
    || (t.outcome == Raised(true) && RetrySends(p.src, p.row, p.first, p.second)
        && Once(p.src, t.row, p.second, p.render).outcome.Raised?)
  }

  lemma ReportIsExact(p: Poll)
    requires PollInTime(p)
    ensures After(p).Raised? <==> FailsForGood(p)
  {
    hide Once, RetrySends;
    if FirstTry(p).outcome == Raised(true) {
      RetryIsExact(p.src, p.row, p.first, p.second, p.render);
      RecordedTime(p.src, FirstTry(p).row, p.second, p.render);
    }
  }

  /** The errors of a refresh name exactly the sources that failed for good. */
  lemma ErrorsAreExact(polls: seq<Poll>, id: string)
    requires forall i :: 0 <= i < |polls| ==> PollInTime(polls[i])
    ensures id in Errors(Sources(polls), Outcomes(polls)) <==>
            exists i :: 0 <= i < |polls| && polls[i].src.id == id && FailsForGood(polls[i])
  {
    hide After, FailsForGood, Errors, Sources, Outcomes, PollInTime;
    var sources, outcomes := Sources(polls), Outcomes(polls);
    ErrorsMembers(sources, outcomes, id);
    if i :| RaisedAt(sources, outcomes, id, i) { ReportIsExact(polls[i]); }
    if i :| 0 <= i < |polls| && polls[i].src.id == id && FailsForGood(polls[i]) {
      ReportIsExact(polls[i]);
      assert RaisedAt(sources, outcomes, id, i);
    }
  }

  /** A transport failure of a source with an interval, over a working store, with the retry's pause under a second. */
  predicate Unreachable(p: Poll)
    requires PollInTime(p)
  {
    && p.src.minInterval > 0 && p.first.saves && p.second.dueRead
    && p.second.now - p.first.savedAt < SECOND
    && FirstTry(p).outcome == Raised(true)
  }

  /**
   * An outage of every source, when each has an interval, shows as nothing at all: no item, no
   * error and no sample.
   */
  lemma OutageIsSilent(polls: seq<Poll>, samples: seq<FeedItem>)
    requires polls != [] && forall i :: 0 <= i < |polls| ==> PollInTime(polls[i]) && Unreachable(polls[i])
    ensures Errors(Sources(polls), Outcomes(polls)) == [] && Chosen(Outcomes(polls), samples) == []
  {
    hide After, Errors, Live, SkippedCount, Sources, Outcomes, Once, PollInTime, InTime, WithRetry;
    forall i | 0 <= i < |polls| ensures Outcomes(polls)[i] == Outcome.Skipped { UnreachableIsSkipped(polls[i]); }
    AllSkipped(Sources(polls), Outcomes(polls));
  }

  lemma UnreachableIsSkipped(p: Poll)
    requires PollInTime(p) && Unreachable(p)
    ensures After(p) == Outcome.Skipped
  {
    hide Once, WithRetry;
    IntervalDropsTheError(p.src, p.row, p.first, p.second, p.render);
  }

  lemma {:induction false} AllSkipped(sources: seq<Source>, outcomes: seq<Outcome>)
    requires |sources| == |outcomes| && forall i :: 0 <= i < |outcomes| ==> outcomes[i] == Outcome.Skipped
    ensures Errors(sources, outcomes) == [] && Live(outcomes) == [] && SkippedCount(outcomes) == |outcomes|
  {
    if outcomes != [] {
      AllSkipped(sources[..|outcomes| - 1], outcomes[..|outcomes| - 1]);
    }
  }
}
