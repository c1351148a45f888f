/** OSV enrichment: which CVEs are asked for under the cap, and what the answers do to the items. */
module Osv {
  import opened Wrappers
  import opened Ordering
  import opened IsoTime
  import opened Models
  import opened LiveItems
  import opened Dedupe

  /** Urgent first, then by severity, then newest. */
  function Priority(item: FeedItem): seq<int> {
    [if item.urgent then 1 else 0, SeverityRank(item.severity), SortDate(item)]
  }

  /** The first `limit` distinct CVEs in priority order; a limit that is not positive is none. */
  function Requested(items: seq<FeedItem>, limit: int): seq<string> {
    var cves := Distinct(AllCves(SortDesc(items, Priority)));
    if 0 < limit < |cves| then cves[..limit] else cves
  }

  lemma {:induction false} AllCvesConcat(a: seq<FeedItem>, b: seq<FeedItem>)
    ensures AllCves(a + b) == AllCves(a) + AllCves(b)
  {
    if b == [] {
      assert a + b == a;
    } else {
      var front, last := b[..|b| - 1], b[|b| - 1];
      AllCvesConcat(a, front);
      assert (a + b)[..|a + b| - 1] == a + front && (a + b)[|a + b| - 1] == last;
      assert AllCves(a + b) == AllCves(a + front) + last.cves;
    }
  }

  /** The inner loop of `enrich_with_osv`: the CVEs of one item that are not in the list yet. */
  method AppendNew(cves: seq<string>, own: seq<string>, ghost before: seq<string>) returns (r: seq<string>)
    requires cves == Distinct(before)
    ensures r == Distinct(before + own)
  {
    hide Distinct;
    r := cves;
    assert before + own[..0] == before;
    var j := 0;
    while j < |own|
      invariant 0 <= j <= |own|
      invariant r == Distinct(before + own[..j])
    {
      DistinctStep(before + own[..j], own[j]);
      assert before + own[..j + 1] == before + own[..j] + [own[j]];
      if own[j] !in r { r := r + [own[j]]; }
      j := j + 1;
    }
    assert own[..|own|] == own;
  }

  lemma OneMoreItem(items: seq<FeedItem>, i: nat)
    requires i < |items|
    ensures AllCves(items[..i + 1]) == AllCves(items[..i]) + items[i].cves
  {
    assert items[..i + 1][..i] == items[..i];
  }

  /** Sorting asks for every item's date in UTC. */
  predicate Sortable(items: seq<FeedItem>) { forall i :: 0 <= i < |items| ==> InUtc(items[i]).Some? }

  /**
   * The nested loops of `enrich_with_osv`, then the cap of `fetch_osv`; a date that cannot be
   * converted to UTC fails the sort.
   */
  method RequestedCves(items: seq<FeedItem>, limit: int) returns (r: Result<seq<string>, string>)
    ensures r == if Sortable(items) then Success(Requested(items, limit)) else Failure("OverflowError")
  {
    hide Priority, Distinct, SortDesc, AllCves, InUtc;
    if !Sortable(items) { return Failure("OverflowError"); }
    var ordered := SortDesc(items, Priority);
    var cves := [];
    var i := 0;
    EmptyDistinct();
    assert ordered[..0] == [];
    while i < |ordered|
      invariant 0 <= i <= |ordered|
      invariant cves == Distinct(AllCves(ordered[..i]))
    {
      OneMoreItem(ordered, i);
      cves := AppendNew(cves, ordered[i].cves, AllCves(ordered[..i]));
      i := i + 1;
    }
    assert ordered[..|ordered|] == ordered;
    DistinctOfDistinct(cves);
    cves := Distinct(cves);
    if limit > 0 && |cves| > limit { cves := cves[..limit]; }
    return Success(cves);
  }

  lemma EmptyDistinct()
    ensures AllCves([]) == [] && Distinct<string>([]) == []
  {
  }

  lemma {:induction false} CveAt(items: seq<FeedItem>, p: int, c: string)
    requires 0 <= p < |items| && c in items[p].cves
    ensures c in AllCves(items)
  {
    AllCvesMembers(items);
    assert CveIn(items, c);
  }

  lemma CarriersComeLater(items: seq<FeedItem>, c: string, x: FeedItem, p: int)
    requires Descending(items, Priority) && 0 <= p < |items| && items[p] == x
    requires forall y :: y in items && c in y.cves ==> KeyLess(Priority(y), Priority(x))
    ensures c !in AllCves(items[..p + 1])
  {
    hide Priority;
    var head := items[..p + 1];
    AllCvesMembers(head);
    if c in AllCves(head) {
      var q :| 0 <= q < |head| && c in head[q].cves;
      assert head[q] == items[q] && items[q] in items;
      assert KeyLess(Priority(items[q]), Priority(x));
      KeyLessTotal(Priority(items[q]), Priority(x));
    }
  }

  /** x is urgent and y is not; or they are alike and x is more severe; or alike in that too and x is newer. */
  predicate Outranks(x: FeedItem, y: FeedItem) {
    if x.urgent != y.urgent then x.urgent
    else if SeverityRank(x.severity) != SeverityRank(y.severity) then SeverityRank(x.severity) > SeverityRank(y.severity)
    else match (x.published, y.published)
      case (Some(s), Some(t)) => Instant(s) > Instant(t)
      case (Some(s), None) => Instant(s) > 0
      case (None, Some(t)) => Instant(t) < 0
      case (None, None) => false
  }

  lemma OutranksIsPriority(x: FeedItem, y: FeedItem)
    ensures Outranks(x, y) <==> KeyLess(Priority(y), Priority(x))
  {
    hide SortDate, SeverityRank, Instant;
    SortDateOrder(y, x);
    var a, b := Priority(y), Priority(x);
    assert a[1..][1..][1..] == [] && b[1..][1..][1..] == [];
    assert KeyLess(a[1..][1..], b[1..][1..]) <==> SortDate(y) < SortDate(x);
    assert KeyLess(a[1..], b[1..]) <==> (a[1] < b[1] || (a[1] == b[1] && KeyLess(a[1..][1..], b[1..][1..])));
  }

  /** A prefix of the CVEs that has d and lacks c puts d before c, under any cap. */
  lemma CapKeepsFirst(first: seq<string>, all: seq<string>, cut: seq<string>, c: string, d: string)
    requires first <= all && cut <= all && d in first && c !in first && c in cut
    ensures d in cut
  {
    var i :| 0 <= i < |cut| && cut[i] == c;
    var k :| 0 <= k < |first| && first[k] == d;
    assert forall m :: 0 <= m < |first| ==> all[m] == first[m] && first[m] in first;
    assert all[i] == c;
    assert cut[k] == all[k];
  }

  /** In the order of priority, x's place comes before every carrier of c. */
  lemma SplitAtItem(items: seq<FeedItem>, c: string, x: FeedItem, d: string) returns (head: seq<FeedItem>, tail: seq<FeedItem>)
    requires x in items && d in x.cves
    requires forall y :: y in items && c in y.cves ==> KeyLess(Priority(y), Priority(x))
    ensures SortDesc(items, Priority) == head + tail && d in AllCves(head) && c !in AllCves(head)
  {
    hide Priority, SortDesc, KeyLess, AllCves;
    var ordered := SortDesc(items, Priority);
    SortDescPermutes(items, Priority);
    SortDescSorts(items, Priority);
    var p :| 0 <= p < |ordered| && ordered[p] == x;
    CarriersComeLater(ordered, c, x, p);
    head, tail := ordered[..p + 1], ordered[p + 1..];
    assert head[p] == x;
    CveAt(head, p, d);
  }

  /** The cap respects priority: a CVE is requested only together with those of every item that outranks all its carriers. */
  lemma CapRespectsPriority(items: seq<FeedItem>, limit: int, c: string, x: FeedItem, d: string)
    requires c in Requested(items, limit) && x in items && d in x.cves
    requires forall y :: y in items && c in y.cves ==> Outranks(x, y)
    ensures d in Requested(items, limit)
  {
    hide Priority, Distinct, SortDesc, KeyLess, Outranks, AllCves;
    forall y | y in items && c in y.cves ensures KeyLess(Priority(y), Priority(x)) { OutranksIsPriority(x, y); }
    var head, tail := SplitAtItem(items, c, x, d);
    AllCvesConcat(head, tail);
    DistinctPrefix(AllCves(head), AllCves(tail));
    CapKeepsFirst(Distinct(AllCves(head)), Distinct(AllCves(head + tail)), Requested(items, limit), c, d);
  }

  /** Without a positive limit, or under it, every CVE is requested; nothing else ever is. */
  lemma RequestedMembers(items: seq<FeedItem>, limit: int, c: string)
    ensures c in Requested(items, limit) ==> CveIn(items, c)
    ensures limit <= 0 && CveIn(items, c) ==> c in Requested(items, limit)
    ensures NoDuplicates(Requested(items, limit)) && (limit > 0 ==> |Requested(items, limit)| <= limit)
    ensures CveIn(items, c) && c !in Requested(items, limit) ==> |Requested(items, limit)| == limit
  {
    hide Priority, Distinct, SortDesc;
    var ordered := SortDesc(items, Priority);
    SortDescPermutes(items, Priority);
    AllCvesMembers(ordered);
    if CveIn(items, c) {
      var i :| 0 <= i < |items| && c in items[i].cves;
      assert items[i] in ordered;
      var j :| 0 <= j < |ordered| && ordered[j] == items[i];
      assert CveIn(ordered, c);
    }
    if CveIn(ordered, c) {
      var i :| 0 <= i < |ordered| && c in ordered[i].cves;
      assert ordered[i] in items;
    }
  }

  // ---------- applying the answers ----------

  /** What `parse_osv` keeps of a record. */
  datatype Record = Record(summary: string, affected: seq<string>, fixed: seq<string>,
                           severity: Option<string>, patchAvailable: bool)

  predicate KnownSeverity(s: Option<string>) {
    s == Some("critical") || s == Some("high") || s == Some("medium") || s == Some("low")
  }

  lemma KnownSeverityIsRanked(s: string)
    ensures KnownSeverity(Some(s)) <==> SeverityRank(s) > 0
  {
  }

  function Union(a: seq<string>, b: seq<string>): seq<string> {
    SortedText((set x | x in a) + (set x | x in b))
  }

  function Apply(item: FeedItem, r: Record): FeedItem {
    var rated := item.severity == UNKNOWN && KnownSeverity(r.severity);
    item.(summary := if item.summary == "" then r.summary else item.summary,
          osvAffected := Union(item.osvAffected, r.affected),
          osvFixed := Union(item.osvFixed, r.fixed),
          osvSeverity := if rated then r.severity else item.osvSeverity,
          severity := if rated then r.severity.value else item.severity,
          tags := if r.patchAvailable then item.tags + {"patch"} else item.tags)
  }

  /** The answers applied for these CVEs, one after the other. */
  function Enrich(item: FeedItem, cves: seq<string>, osv: map<string, Record>): FeedItem {
    if cves == [] then item else
      var before := Enrich(item, cves[..|cves| - 1], osv);
      var cve := cves[|cves| - 1];
      if cve in osv then Apply(before, osv[cve]) else before
  }

  /** The item already holds everything the record says. */
  ghost predicate Holds(item: FeedItem, r: Record) {
    && (item.summary != "" || r.summary == "")
    && Ascending(item.osvAffected) && (forall x :: x in r.affected ==> x in item.osvAffected)
    && Ascending(item.osvFixed) && (forall x :: x in r.fixed ==> x in item.osvFixed)
    && (item.severity == UNKNOWN ==> !KnownSeverity(r.severity))
    && (r.patchAvailable ==> "patch" in item.tags)
  }

  lemma UnionMembers(a: seq<string>, b: seq<string>)
    ensures forall x :: x in Union(a, b) <==> x in a || x in b
    ensures Ascending(Union(a, b))
    ensures Ascending(a) && (forall x :: x in b ==> x in a) ==> Union(a, b) == a
  {
    hide SortedText;
    if Ascending(a) && forall x :: x in b ==> x in a { AscendingUnique(Union(a, b), a); }
  }

  lemma ApplyHolds(item: FeedItem, r: Record)
    ensures Holds(Apply(item, r), r)
    ensures Holds(item, r) ==> Apply(item, r) == item
  {
    hide Union, Ascending;
    UnionMembers(item.osvAffected, r.affected);
    UnionMembers(item.osvFixed, r.fixed);
    if Holds(item, r) && r.patchAvailable { assert item.tags + {"patch"} == item.tags; }
  }

  lemma ApplyKeeps(item: FeedItem, r: Record, other: Record)
    requires Holds(item, r)
    ensures Holds(Apply(item, other), r)
  {
    hide Union, Ascending;
    UnionMembers(item.osvAffected, other.affected);
    UnionMembers(item.osvFixed, other.fixed);
  }

  lemma {:induction false} EnrichHolds(item: FeedItem, cves: seq<string>, osv: map<string, Record>, c: string)
    requires c in cves && c in osv
    ensures Holds(Enrich(item, cves, osv), osv[c])
  {
    hide Apply, Holds;
    var front, last := cves[..|cves| - 1], cves[|cves| - 1];
    if last in osv { ApplyHolds(Enrich(item, front, osv), osv[last]); }
    if c in front {
      EnrichHolds(item, front, osv, c);
      if last in osv { ApplyKeeps(Enrich(item, front, osv), osv[c], osv[last]); }
    }
  }

  lemma {:induction false} EnrichNothingNew(item: FeedItem, cves: seq<string>, osv: map<string, Record>)
    requires forall c :: c in cves && c in osv ==> Holds(item, osv[c])
    ensures Enrich(item, cves, osv) == item
  {
    hide Apply, Holds;
    if cves != [] {
      EnrichNothingNew(item, cves[..|cves| - 1], osv);
      var last := cves[|cves| - 1];
      if last in osv { ApplyHolds(item, osv[last]); }
    }
  }

  /** Applying the same answers again changes nothing. */
  lemma EnrichTwice(item: FeedItem, cves: seq<string>, osv: map<string, Record>)
    ensures Enrich(Enrich(item, cves, osv), cves, osv) == Enrich(item, cves, osv)
  {
    forall c | c in cves && c in osv ensures Holds(Enrich(item, cves, osv), osv[c]) {
      EnrichHolds(item, cves, osv, c);
    }
    EnrichNothingNew(Enrich(item, cves, osv), cves, osv);
  }

  /** A known severity never changes, an unknown one only to a known one, and an item keeps its CVEs. */
  lemma {:induction false} EnrichSeverity(item: FeedItem, cves: seq<string>, osv: map<string, Record>)
    ensures var r := Enrich(item, cves, osv);
            && (item.severity != UNKNOWN ==> r.severity == item.severity && r.osvSeverity == item.osvSeverity)
            && (r.severity == item.severity || (KnownSeverity(Some(r.severity)) && r.osvSeverity == Some(r.severity)))
            && (item.summary != "" ==> r.summary == item.summary) && item.tags <= r.tags
            && r.cves == item.cves && r.id == item.id
  {
    hide Union;
    if cves != [] { EnrichSeverity(item, cves[..|cves| - 1], osv); }
  }

  /** What is added to an item comes from a record of one of its CVEs. */
  lemma {:induction false} EnrichAddsOnly(item: FeedItem, cves: seq<string>, osv: map<string, Record>, x: string)
    ensures var r := Enrich(item, cves, osv);
            && (x in r.osvAffected ==> x in item.osvAffected || exists c :: c in cves && c in osv && x in osv[c].affected)
            && (x in r.osvFixed ==> x in item.osvFixed || exists c :: c in cves && c in osv && x in osv[c].fixed)
            && (x in r.tags ==> x in item.tags || (x == "patch" && exists c :: c in cves && c in osv && osv[c].patchAvailable))
            && (r.summary == item.summary || exists c :: c in cves && c in osv && r.summary == osv[c].summary)
            && r == item.(summary := r.summary, osvAffected := r.osvAffected, osvFixed := r.osvFixed,
                          osvSeverity := r.osvSeverity, severity := r.severity, tags := r.tags)
  {
    if cves != [] {
      hide Union, Ascending;
      var front, last := cves[..|cves| - 1], cves[|cves| - 1];
      var before := Enrich(item, front, osv);
      EnrichAddsOnly(item, front, osv, x);
      assert forall c :: c in front ==> c in cves;
      if last in osv {
        UnionMembers(before.osvAffected, osv[last].affected);
        UnionMembers(before.osvFixed, osv[last].fixed);
      }
    }
  }

  /** The first known severity among the answers. */
  function FirstRating(cves: seq<string>, osv: map<string, Record>): Option<string> {
    if cves == [] then None
    else if cves[0] in osv && KnownSeverity(osv[cves[0]].severity) then osv[cves[0]].severity
    else FirstRating(cves[1..], osv)
  }

  lemma {:induction false} FirstRatingSnoc(cves: seq<string>, c: string, osv: map<string, Record>)
    ensures FirstRating(cves + [c], osv) ==
              if FirstRating(cves, osv).Some? then FirstRating(cves, osv)
              else if c in osv && KnownSeverity(osv[c].severity) then osv[c].severity else None
    ensures FirstRating(cves, osv).Some? ==> KnownSeverity(FirstRating(cves, osv))
  {
    if cves == [] {
      assert ([c])[1..] == [];
    } else {
      FirstRatingSnoc(cves[1..], c, osv);
      assert (cves + [c])[1..] == cves[1..] + [c];
    }
  }

  /** An unknown severity becomes the first known one among the answers. */
  lemma {:induction false} EnrichRates(item: FeedItem, cves: seq<string>, osv: map<string, Record>)
    requires item.severity == UNKNOWN
    ensures Enrich(item, cves, osv).severity == FirstRating(cves, osv).GetOr(UNKNOWN)
  {
    hide Union;
    if cves != [] {
      var front, last := cves[..|cves| - 1], cves[|cves| - 1];
      EnrichRates(item, front, osv);
      FirstRatingSnoc(front, last, osv);
      assert cves == front + [last];
    }
  }

  // ---------- in place ----------

  method EnrichInPlace(item: Item, osv: map<string, Record>)
    modifies item
    ensures item.Value() == Enrich(old(item.Value()), old(item.cves), osv)
  {
    hide Apply, SortedText;
    ghost var v, cves := item.Value(), item.cves;
    var i := 0;
    while i < |item.cves|
      invariant item.cves == cves && 0 <= i <= |cves|
      invariant item.Value() == Enrich(v, cves[..i], osv)
    {
      assert cves[..i + 1][..i] == cves[..i];
      var cve := item.cves[i];
      if cve in osv { ApplyInPlace(item, osv[cve]); }
      i := i + 1;
    }
    assert cves[..|cves|] == cves;
  }

  method ApplyInPlace(item: Item, r: Record)
    modifies item
    ensures item.Value() == Apply(old(item.Value()), r) && item.cves == old(item.cves)
  {
    hide SortedText;
    if item.summary == "" && r.summary != "" { item.summary := r.summary; }
    item.osvAffected := Union(item.osvAffected, r.affected);
    item.osvFixed := Union(item.osvFixed, r.fixed);
    if item.severity == UNKNOWN && KnownSeverity(r.severity) {
      item.osvSeverity := r.severity;
      item.severity := r.severity.value;
    }
    if r.patchAvailable { item.tags := item.tags + {"patch"}; }
  }

  /** The value object k has when the first n places of the list are done. */
  function Expected(items: seq<Item>, vals: seq<FeedItem>, osv: map<string, Record>, n: nat, k: nat): FeedItem
    requires n <= |items| == |vals| && k < |items|
  {
    if items[k] in items[..n] then Enrich(vals[k], vals[k].cves, osv) else vals[k]
  }

  ghost predicate AsExpected(items: seq<Item>, vals: seq<FeedItem>, osv: map<string, Record>, n: nat)
    requires n <= |items| == |vals|
    reads items
  {
    forall k: nat :: k < |items| ==> items[k].Value() == Expected(items, vals, osv, n, k)
  }

  /** One object came with one value. */
  ghost predicate OneValue(items: seq<Item>, vals: seq<FeedItem>) {
    && |items| == |vals|
    && forall k, l :: 0 <= k < |items| && 0 <= l < |items| && items[k] == items[l] ==> vals[k] == vals[l]
  }

  /** One more place changes the object there only, and not if it was done before. */
  lemma NextExpected(items: seq<Item>, vals: seq<FeedItem>, osv: map<string, Record>, i: nat)
    requires OneValue(items, vals) && i < |items|
    ensures Expected(items, vals, osv, i, i).cves == vals[i].cves
    ensures forall k: nat :: k < |items| ==>
              Expected(items, vals, osv, i + 1, k) ==
                if items[k] == items[i] then Enrich(Expected(items, vals, osv, i, i), vals[i].cves, osv)
                else Expected(items, vals, osv, i, k)
  {
    hide Enrich;
    assert items[..i + 1] == items[..i] + [items[i]];
    EnrichTwice(vals[i], vals[i].cves, osv);
    EnrichCves(vals[i], osv);
  }

  method EnrichPlace(items: seq<Item>, ghost vals: seq<FeedItem>, osv: map<string, Record>, i: nat)
    requires OneValue(items, vals) && i < |items| && AsExpected(items, vals, osv, i)
    modifies items
    ensures AsExpected(items, vals, osv, i + 1)
  {
    hide Enrich, Item.Value, Expected, OneValue;
    NextExpected(items, vals, osv, i);
    CvesOfValue(items[i]);
    EnrichInPlace(items[i], osv);
    assert forall k :: 0 <= k < |items| && items[k] != items[i] ==> items[k].Value() == old(items[k].Value());
  }

  /**
   * Every item of the list enriched in place. An object that is in the list twice is enriched
   * twice, which is the same as once.
   */
  method EnrichItems(items: seq<Item>, osv: map<string, Record>)
    modifies items
    ensures forall k :: 0 <= k < |items| ==>
              items[k].Value() == Enrich(old(items[k].Value()), old(items[k].Value()).cves, osv)
  {
    hide Enrich, Item.Value, Expected, Values, OneValue, AsExpected;
    ghost var vals := Values(items);
    NothingDone(items, vals, osv);
    var i := 0;
    while i < |items|
      invariant 0 <= i <= |items| == |vals| && OneValue(items, vals) && AsExpected(items, vals, osv, i)
    {
      EnrichPlace(items, vals, osv, i);
      i := i + 1;
    }
    AllDone(items, vals, osv);
  }

  lemma NothingDone(items: seq<Item>, vals: seq<FeedItem>, osv: map<string, Record>)
    requires vals == Values(items)
    ensures |vals| == |items| && OneValue(items, vals) && AsExpected(items, vals, osv, 0)
    ensures forall k :: 0 <= k < |items| ==> vals[k] == items[k].Value()
  {
    hide Item.Value, Enrich;
  }

  lemma AllDone(items: seq<Item>, vals: seq<FeedItem>, osv: map<string, Record>)
    requires |vals| == |items| && AsExpected(items, vals, osv, |items|)
    ensures forall k :: 0 <= k < |items| ==> items[k].Value() == Enrich(vals[k], vals[k].cves, osv)
  {
    hide Item.Value, Enrich;
    assert items[..|items|] == items;
    forall k: nat | k < |items| ensures items[k].Value() == Enrich(vals[k], vals[k].cves, osv) {
      assert items[k].Value() == Expected(items, vals, osv, |items|, k);
    }
  }

  /** The items enriched with what the answers say about the requested CVEs, or all left as they were. */
  method EnrichWithOsv(items: seq<Item>, limit: int, answers: map<string, Record>) returns (ok: bool)
    modifies items
    ensures ok <==> Sortable(old(Values(items)))
    ensures var osv := map c | c in Requested(old(Values(items)), limit) && c in answers :: answers[c];
            forall k :: 0 <= k < |items| ==>
              items[k].Value() == if ok then Enrich(old(items[k].Value()), old(items[k].Value()).cves, osv) else old(items[k].Value())
  {
    hide Enrich, Item.Value, Requested, Sortable;
    var cves := RequestedCves(Values(items), limit);
    if cves.Failure? { return false; }
    EnrichItems(items, map c | c in cves.value && c in answers :: answers[c]);
    return true;
  }

  lemma CvesOfValue(item: Item)
    ensures item.Value().cves == item.cves
  {
  }

  lemma EnrichCves(v: FeedItem, osv: map<string, Record>)
    ensures Enrich(v, v.cves, osv).cves == v.cves
  {
    EnrichSeverity(v, v.cves, osv);
  }
}
