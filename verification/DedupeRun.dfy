/** `_dedupe` as it runs: a dictionary of the first objects, merged into in place, then sorted. */
module DedupeRun {
  import opened Wrappers
  import opened Ordering
  import opened Models
  import opened LiveItems
  import opened Dedupe

  lemma {:induction false} DistinctOfSubset(a: seq<string>, b: seq<string>)
    requires forall x :: x in b ==> x in a
    ensures Distinct(a + b) == Distinct(a)
  {
    hide Distinct;
    if b == [] {
      assert a + b == a;
    } else {
      var front, last := b[..|b| - 1], b[|b| - 1];
      DistinctOfSubset(a, front);
      assert a + b == (a + front) + [last];
      DistinctStep(a + front, last);
    }
  }

  /** Merging an item again that is already in changes nothing more than merging with itself. */
  lemma MergeAgain(items: seq<FeedItem>, id: string, v: FeedItem)
    requires id in Ids(items) && v in items && v.id == id
    ensures Merge(MergeOf(items, id), v) == Merge(MergeOf(items, id), MergeOf(items, id))
  {
    hide Distinct, SeverityRank, MergeInOrder, MergeOf, WithId, Ids;
    var m, group := MergeOf(items, id), WithId(items, id);
    MergeIsUnion(items, id);
    WithIdMembers(items, id);
    var k :| 0 <= k < |group| && group[k] == v;
    assert forall t :: t in v.tags ==> TagIn(group, t);
    forall c | c in v.cves ensures c in m.cves { assert CveIn(group, c); }
    DistinctOfSubset(m.cves, v.cves);
    DistinctOfSubset(m.cves, m.cves);
    assert m.tags + v.tags == m.tags;
  }

  /** The merge of one duplicate; `existing` and `item` may be one object. */
  method MergeInto(existing: Item, item: Item)
    modifies existing
    ensures existing.Value() == Merge(old(existing.Value()), old(item.Value()))
  {
    existing.tags := existing.tags + item.tags;
    existing.cves := Distinct(existing.cves + item.cves);
    if SeverityRank(item.severity) > SeverityRank(existing.severity) {
      existing.severity := item.severity;
    }
    existing.urgent := existing.urgent || item.urgent;
  }

  // ---------- the state of the loop ----------

  /** One object came with one value. */
  ghost predicate OneValue(items: seq<Item>, vals: seq<FeedItem>) {
    && |items| == |vals|
    && (forall k, l :: 0 <= k < |items| && 0 <= l < |items| && items[k] == items[l] ==> vals[k] == vals[l])
    && (forall k :: 0 <= k < |items| ==> vals[k].id == items[k].id)
  }

  /** The dictionary after n items: for each of their ids, one of their objects. */
  ghost predicate Collected(items: seq<Item>, vals: seq<FeedItem>, seen: map<string, Item>, n: nat) {
    && n <= |items| == |vals|
    && (forall id :: id in seen <==> id in Ids(vals[..n]))
    && (forall id :: id in seen ==> seen[id] in items[..n] && seen[id].id == id)
  }

  predicate InSeen(item: Item, seen: map<string, Item>) { item.id in seen && seen[item.id] == item }

  /** The value object k has after n items: the merge of its id if it is in the dictionary, else its own. */
  function Expected(items: seq<Item>, vals: seq<FeedItem>, seen: map<string, Item>, n: nat, k: nat): FeedItem
    requires n <= |vals| && k < |items| == |vals|
  {
    if InSeen(items[k], seen) && items[k].id in Ids(vals[..n]) then MergeOf(vals[..n], items[k].id) else vals[k]
  }

  lemma OneMoreId(vals: seq<FeedItem>, n: nat)
    requires n < |vals|
    ensures Ids(vals[..n + 1]) == Ids(vals[..n]) + [vals[n].id]
    ensures forall id :: id in Ids(vals[..n]) && id != vals[n].id ==> MergeOf(vals[..n + 1], id) == MergeOf(vals[..n], id)
    ensures MergeOf(vals[..n + 1], vals[n].id) ==
              if vals[n].id in Ids(vals[..n]) then Merge(MergeOf(vals[..n], vals[n].id), vals[n]) else vals[n]
  {
    assert vals[..n + 1][..n] == vals[..n];
  }

  lemma InsertCollects(items: seq<Item>, vals: seq<FeedItem>, seen: map<string, Item>, i: nat)
    requires OneValue(items, vals) && i < |items| && Collected(items, vals, seen, i) && items[i].id !in seen
    ensures Collected(items, vals, seen[items[i].id := items[i]], i + 1)
    ensures forall k: nat :: k < |items| ==>
              Expected(items, vals, seen[items[i].id := items[i]], i + 1, k) == Expected(items, vals, seen, i, k)
  {
    hide MergeOf, Ids, Merge;
    OneMoreId(vals, i);
    assert items[..i + 1] == items[..i] + [items[i]];
  }

  /** A duplicate changes one object: the one in the dictionary, which may be the duplicate itself. */
  lemma MergeCollects(items: seq<Item>, vals: seq<FeedItem>, seen: map<string, Item>, i: nat)
    requires OneValue(items, vals) && i < |items| && Collected(items, vals, seen, i) && items[i].id in seen
    ensures Collected(items, vals, seen, i + 1) && seen[items[i].id] in items
    ensures forall k: nat :: k < |items| ==>
              Expected(items, vals, seen, i + 1, k) ==
                if items[k] == seen[items[i].id] then Merge(Expected(items, vals, seen, i, k), Expected(items, vals, seen, i, i))
                else Expected(items, vals, seen, i, k)
  {
    hide MergeOf, Ids, Merge;
    OneMoreId(vals, i);
    assert items[..i + 1] == items[..i] + [items[i]];
    assert seen[items[i].id] in items[..i];
    if InSeen(items[i], seen) { SameObjectSeen(items, vals, seen, i); }
  }

  lemma SameObjectSeen(items: seq<Item>, vals: seq<FeedItem>, seen: map<string, Item>, i: nat)
    requires OneValue(items, vals) && i < |items| && Collected(items, vals, seen, i) && InSeen(items[i], seen)
    ensures var m := MergeOf(vals[..i], items[i].id); Merge(m, vals[i]) == Merge(m, m)
  {
    hide Merge, MergeOf, Ids;
    var k :| 0 <= k < i && items[..i][k] == items[i];
    assert vals[..i][k] == vals[k] == vals[i];
    MergeAgain(vals[..i], items[i].id, vals[i]);
  }

  ghost predicate AsExpected(items: seq<Item>, vals: seq<FeedItem>, seen: map<string, Item>, n: nat)
    requires Collected(items, vals, seen, n)
    reads items
  {
    forall k: nat :: k < |items| ==> items[k].Value() == Expected(items, vals, seen, n, k)
  }

  /** The loop body: a first item goes into the dictionary, a duplicate is merged into what is there. */
  method CollectOne(items: seq<Item>, ghost vals: seq<FeedItem>, seen: map<string, Item>, i: nat)
      returns (next: map<string, Item>)
    requires OneValue(items, vals) && i < |items| && Collected(items, vals, seen, i) && AsExpected(items, vals, seen, i)
    modifies items
    ensures Collected(items, vals, next, i + 1) && AsExpected(items, vals, next, i + 1)
  {
    hide MergeOf, Ids, Merge, Item.Value, Expected, Collected, OneValue;
    var item := items[i];
    if item.id in seen {
      next := seen;
      MergeCollects(items, vals, seen, i);
      MergeInto(seen[item.id], item);
      assert forall k :: 0 <= k < |items| && items[k] != seen[item.id] ==> items[k].Value() == old(items[k].Value());
    } else {
      next := seen[item.id := item];
      InsertCollects(items, vals, seen, i);
    }
  }

  method CollectInPlace(items: seq<Item>) returns (seen: map<string, Item>, order: seq<string>)
    modifies items
    ensures var vals := old(Values(items));
            && Collected(items, vals, seen, |items|) && AsExpected(items, vals, seen, |items|)
            && order == Distinct(Ids(vals))
  {
    hide Distinct, Ids, Item.Value, Expected, Collected, OneValue, Values, AsExpected;
    ghost var vals := Values(items);
    seen, order := map[], [];
    StartState(items, vals);
    var i := 0;
    while i < |items|
      invariant 0 <= i <= |items| == |vals|
      invariant OneValue(items, vals)
      invariant Collected(items, vals, seen, i) && AsExpected(items, vals, seen, i)
      invariant order == Distinct(Ids(vals[..i]))
    {
      NextOrder(items, vals, seen, i);
      if items[i].id !in seen { order := order + [items[i].id]; }
      seen := CollectOne(items, vals, seen, i);
      i := i + 1;
    }
    assert vals[..|items|] == vals;
  }

  lemma NextOrder(items: seq<Item>, vals: seq<FeedItem>, seen: map<string, Item>, i: nat)
    requires OneValue(items, vals) && i < |items| && Collected(items, vals, seen, i)
    ensures var order := Distinct(Ids(vals[..i]));
            Distinct(Ids(vals[..i + 1])) == if items[i].id in seen then order else order + [items[i].id]
  {
    hide Distinct, Ids, MergeOf;
    OneMoreId(vals, i);
    DistinctStep(Ids(vals[..i]), items[i].id);
  }

  lemma StartState(items: seq<Item>, vals: seq<FeedItem>)
    requires vals == Values(items)
    ensures OneValue(items, vals) && Collected(items, vals, map[], 0) && AsExpected(items, vals, map[], 0)
    ensures Distinct(Ids(vals[..0])) == []
  {
    assert vals[..0] == [];
    NoIds();
  }

  lemma NoIds()
    ensures Ids([]) == [] && Distinct<string>([]) == []
  {
  }

  // ---------- sorting the objects ----------

  /** An object with the value it holds while the list is sorted. */
  datatype Keyed = Keyed(item: Item, value: FeedItem)

  function KeyedKey(k: Keyed): seq<int> { SortKey(k.value) }

  function ValuesOf(s: seq<Keyed>): (r: seq<FeedItem>)
    ensures |r| == |s| && forall i :: 0 <= i < |r| ==> r[i] == s[i].value
  {
    if s == [] then [] else [s[0].value] + ValuesOf(s[1..])
  }

  lemma {:induction false} InsertKeyed(x: Keyed, s: seq<Keyed>)
    ensures ValuesOf(InsertDesc(x, s, KeyedKey)) == InsertDesc(x.value, ValuesOf(s), SortKey)
  {
    hide SortKey, KeyLess;
    if s != [] { InsertKeyed(x, s[1..]); }
  }

  lemma {:induction false} SortKeyed(s: seq<Keyed>)
    ensures ValuesOf(SortDesc(s, KeyedKey)) == SortDesc(ValuesOf(s), SortKey)
  {
    hide SortKey, KeyLess;
    if s != [] {
      SortKeyed(s[1..]);
      InsertKeyed(s[0], SortDesc(s[1..], KeyedKey));
    }
  }

  /**
   * The merged objects, newest first. Sorting fails when a date cannot be converted to UTC; the
   * merges have been made by then.
   */
  method DedupeItems(items: seq<Item>) returns (r: Result<seq<Item>, string>)
    modifies items
    ensures r.Success? <==> forall i :: 0 <= i < |Groups(old(Values(items)))| ==> InUtc(Groups(old(Values(items)))[i]).Some?
    ensures r.Success? ==> Values(r.value) == Deduped(old(Values(items)))
    ensures r.Success? ==> forall i, j :: 0 <= i < j < |r.value| ==> NewestFirst(r.value[i].Value(), r.value[j].Value())
    ensures r.Success? ==> forall i :: 0 <= i < |r.value| ==> r.value[i] in items
  {
    hide SortDesc, SortKey, MergeOf, Ids, Distinct, InUtc, Collected, AsExpected, Deduped, Item.Value, Groups, Values, NewestFirst;
    ghost var vals := Values(items);
    var seen, order := CollectInPlace(items);
    assert vals[..|items|] == vals;
    MergedGroups(items, vals, seen, order);
    var keyed: seq<Keyed> := [];
    var i := 0;
    while i < |order|
      invariant 0 <= i <= |order| && |keyed| == i
      invariant forall k :: 0 <= k < i ==> keyed[k] == Keyed(seen[order[k]], seen[order[k]].Value())
      invariant forall k :: 0 <= k < i ==> InUtc(Groups(vals)[k]).Some?
    {
      var item := seen[order[i]];
      if InUtc(item.Value()).None? { return Failure("OverflowError"); }
      keyed := keyed + [Keyed(item, item.Value())];
      i := i + 1;
    }
    var out := SortObjects(items, keyed);
    assert ValuesOf(keyed) == Groups(vals);
    assert Values(out) == Deduped(vals) by { DedupedIsSorted(vals); }
    forall i, j | 0 <= i < j < |out| ensures NewestFirst(out[i].Value(), out[j].Value()) {
      DedupedIsNewestFirst(vals, i, j);
      assert Values(out)[i] == out[i].Value() && Values(out)[j] == out[j].Value();
    }
    return Success(out);
  }

  lemma DedupedIsSorted(vals: seq<FeedItem>)
    ensures Deduped(vals) == SortDesc(Groups(vals), SortKey)
  {
  }

  lemma MergedGroups(items: seq<Item>, vals: seq<FeedItem>, seen: map<string, Item>, order: seq<string>)
    requires Collected(items, vals, seen, |items|) && AsExpected(items, vals, seen, |items|)
    requires order == Distinct(Ids(vals))
    ensures |Groups(vals)| == |order|
    ensures forall k :: 0 <= k < |order| ==>
              order[k] in seen && seen[order[k]] in items && seen[order[k]].Value() == Groups(vals)[k]
  {
    hide MergeOf, Ids, Distinct, Item.Value;
    assert vals[..|items|] == vals && items[..|items|] == items;
    forall k | 0 <= k < |order|
      ensures order[k] in seen && seen[order[k]] in items && seen[order[k]].Value() == Groups(vals)[k]
    {
      assert order[k] in order;
      var l :| 0 <= l < |items| && items[l] == seen[order[k]];
      assert items[l].Value() == Expected(items, vals, seen, |items|, l);
    }
  }

  method SortObjects(items: seq<Item>, keyed: seq<Keyed>) returns (out: seq<Item>)
    requires forall k :: 0 <= k < |keyed| ==> keyed[k].item in items && keyed[k].value == keyed[k].item.Value()
    ensures Values(out) == SortDesc(ValuesOf(keyed), SortKey)
    ensures forall k :: 0 <= k < |out| ==> out[k] in items
  {
    hide SortDesc, SortKey;
    SortKeyed(keyed);
    var sorted := SortDesc(keyed, KeyedKey);
    SortDescPermutes(keyed, KeyedKey);
    out := seq(|sorted|, k requires 0 <= k < |sorted| => sorted[k].item);
    forall k | 0 <= k < |sorted| ensures out[k] in items && out[k].Value() == sorted[k].value {
      assert sorted[k] in multiset(sorted) && sorted[k] in multiset(keyed);
    }
    assert Values(out) == ValuesOf(sorted);
  }
}
