/** `_dedupe`: items with one id become one item, merged in place, newest first. */
module Dedupe {
  import opened Wrappers
  import opened Ordering
  import opened IsoTime
  import opened Models
  import opened LiveItems

  // ---------- what the merge is ----------

  function Merge(a: FeedItem, b: FeedItem): FeedItem {
    a.(tags := a.tags + b.tags,
       cves := Distinct(a.cves + b.cves),
       severity := if SeverityRank(b.severity) > SeverityRank(a.severity) then b.severity else a.severity,
       urgent := a.urgent || b.urgent)
  }

  function Ids(items: seq<FeedItem>): (r: seq<string>)
    ensures |r| == |items| && forall i :: 0 <= i < |r| ==> r[i] == items[i].id
  {
    if items == [] then [] else Ids(items[..|items| - 1]) + [items[|items| - 1].id]
  }

  /** All items of one id merged, in the order they come. */
  function MergeOf(items: seq<FeedItem>, id: string): FeedItem
    requires id in Ids(items)
  {
    var front, last := items[..|items| - 1], items[|items| - 1];
    if last.id != id then
      assert Ids(items) == Ids(front) + [last.id];
      MergeOf(front, id)
    else if id in Ids(front) then Merge(MergeOf(front, id), last)
    else last
  }

  function MergedIn(items: seq<FeedItem>, ids: seq<string>): (r: seq<FeedItem>)
    requires forall i :: 0 <= i < |ids| ==> ids[i] in Ids(items)
    ensures |r| == |ids| && forall i :: 0 <= i < |r| ==> r[i] == MergeOf(items, ids[i])
  {
    seq(|ids|, i requires 0 <= i < |ids| => MergeOf(items, ids[i]))
  }

  /** The dictionary's values: one merged item per id, in the order of first occurrence. */
  function Groups(items: seq<FeedItem>): seq<FeedItem> { MergedIn(items, Distinct(Ids(items))) }

  function SortKey(item: FeedItem): seq<int> { [SortDate(item), if item.urgent then 1 else 0] }

  function Deduped(items: seq<FeedItem>): seq<FeedItem> { SortDesc(Groups(items), SortKey) }

  // ---------- what the merge gives ----------

  lemma IdsSplit(items: seq<FeedItem>)
    requires items != []
    ensures Ids(items) == Ids(items[..|items| - 1]) + [items[|items| - 1].id]
  {
  }

  ghost predicate HasId(items: seq<FeedItem>, id: string, i: int) {
    0 <= i < |items| && items[i].id == id
  }

  lemma IdsMembers(items: seq<FeedItem>, id: string)
    ensures id in Ids(items) <==> exists i :: HasId(items, id, i)
  {
    if id in Ids(items) {
      var i :| 0 <= i < |Ids(items)| && Ids(items)[i] == id;
      assert HasId(items, id, i);
    }
    if i :| HasId(items, id, i) { assert Ids(items)[i] == id; }
  }

  /** The items of one id. */
  function WithId(items: seq<FeedItem>, id: string): seq<FeedItem> {
    if items == [] then []
    else WithId(items[..|items| - 1], id) + if items[|items| - 1].id == id then [items[|items| - 1]] else []
  }

  function AllCves(items: seq<FeedItem>): seq<string> {
    if items == [] then [] else AllCves(items[..|items| - 1]) + items[|items| - 1].cves
  }

  /** The merge is a fold over the items of the id, in order. */
  function MergeInOrder(items: seq<FeedItem>): FeedItem
    requires items != []
  {
    if |items| == 1 then items[0] else Merge(MergeInOrder(items[..|items| - 1]), items[|items| - 1])
  }

  lemma {:induction false} MergeOfIsFold(items: seq<FeedItem>, id: string)
    requires id in Ids(items)
    ensures WithId(items, id) != [] && MergeOf(items, id) == MergeInOrder(WithId(items, id))
  {
    var front, last := items[..|items| - 1], items[|items| - 1];
    IdsSplit(items);
    if id in Ids(front) {
      MergeOfIsFold(front, id);
      if last.id == id {
        var group := WithId(items, id);
        assert group[..|group| - 1] == WithId(front, id);
      } else {
        assert WithId(items, id) == WithId(front, id);
      }
    } else {
      NoneWithId(front, id);
    }
  }

  lemma {:induction false} NoneWithId(items: seq<FeedItem>, id: string)
    requires id !in Ids(items)
    ensures WithId(items, id) == []
  {
    if items != [] {
      IdsSplit(items);
      NoneWithId(items[..|items| - 1], id);
    }
  }

  lemma {:induction false} WithIdMembers(items: seq<FeedItem>, id: string)
    ensures forall x :: x in WithId(items, id) <==> x in items && x.id == id
  {
    if items != [] {
      WithIdMembers(items[..|items| - 1], id);
      assert items == items[..|items| - 1] + [items[|items| - 1]];
    }
  }

  lemma {:induction false} DistinctAbsorbs(a: seq<string>, b: seq<string>)
    ensures Distinct(Distinct(a) + b) == Distinct(a + b)
  {
    hide Distinct;
    if b == [] {
      assert Distinct(a) + b == Distinct(a) && a + b == a;
      DistinctOfDistinct(Distinct(a));
    } else {
      var front, last := b[..|b| - 1], b[|b| - 1];
      DistinctAbsorbs(a, front);
      assert Distinct(a) + b == (Distinct(a) + front) + [last];
      assert a + b == (a + front) + [last];
      DistinctStep(Distinct(a) + front, last);
      DistinctStep(a + front, last);
    }
  }

  lemma {:induction false} FoldCves(items: seq<FeedItem>)
    requires items != []
    ensures MergeInOrder(items).cves == if |items| == 1 then items[0].cves else Distinct(AllCves(items))
  {
    if |items| > 1 {
      hide Distinct;
      var front, last := items[..|items| - 1], items[|items| - 1];
      FoldCves(front);
      if |front| == 1 {
        assert AllCves(front) == front[0].cves;
      } else {
        DistinctAbsorbs(AllCves(front), last.cves);
      }
    }
  }

  ghost predicate TagIn(items: seq<FeedItem>, t: string) { exists i :: 0 <= i < |items| && t in items[i].tags }

  ghost predicate CveIn(items: seq<FeedItem>, c: string) { exists i :: 0 <= i < |items| && c in items[i].cves }

  ghost predicate UrgentIn(items: seq<FeedItem>) { exists i :: 0 <= i < |items| && items[i].urgent }

  /** The rank is reached by one item and by none exceeded. */
  ghost predicate TopRank(items: seq<FeedItem>, rank: int) {
    && (forall i :: 0 <= i < |items| ==> SeverityRank(items[i].severity) <= rank)
    && exists i :: 0 <= i < |items| && SeverityRank(items[i].severity) == rank
  }

  lemma {:induction false} FoldMeaning(items: seq<FeedItem>)
    requires items != []
    ensures var r := MergeInOrder(items);
            && r == items[0].(tags := r.tags, cves := r.cves, severity := r.severity, urgent := r.urgent)
            && (r.urgent <==> UrgentIn(items)) && TopRank(items, SeverityRank(r.severity))
    ensures forall t :: t in MergeInOrder(items).tags <==> TagIn(items, t)
  {
    hide SeverityRank, Distinct;
    if |items| > 1 {
      var front, last := items[..|items| - 1], items[|items| - 1];
      FoldMeaning(front);
      var n := |items| - 1;
      forall t ensures t in MergeInOrder(items).tags <==> TagIn(items, t) {
        if TagIn(front, t) {
          var i :| 0 <= i < n && t in front[i].tags;
          assert t in items[i].tags;
        }
        if i :| 0 <= i < |items| && t in items[i].tags {
          if i < n { assert t in front[i].tags; }
        }
      }
      UrgentStep(front, last);
      RankStep(front, last, SeverityRank(MergeInOrder(front).severity));
      assert items == front + [last];
    }
  }

  lemma UrgentStep(front: seq<FeedItem>, last: FeedItem)
    ensures UrgentIn(front + [last]) <==> UrgentIn(front) || last.urgent
  {
    var items := front + [last];
    if i :| 0 <= i < |front| && front[i].urgent { assert items[i].urgent; }
    if last.urgent { assert items[|front|].urgent; }
  }

  lemma RankStep(front: seq<FeedItem>, last: FeedItem, rank: int)
    requires TopRank(front, rank)
    ensures TopRank(front + [last], if SeverityRank(last.severity) > rank then SeverityRank(last.severity) else rank)
  {
    hide SeverityRank;
    var items := front + [last];
    var i :| 0 <= i < |front| && SeverityRank(front[i].severity) == rank;
    assert SeverityRank(items[i].severity) == rank && items[|front|] == last;
  }

  lemma {:induction false} AllCvesMembers(items: seq<FeedItem>)
    ensures forall c :: c in AllCves(items) <==> CveIn(items, c)
  {
    if items != [] {
      var front, last := items[..|items| - 1], items[|items| - 1];
      AllCvesMembers(front);
      forall c ensures c in AllCves(items) <==> CveIn(items, c) {
        if CveIn(front, c) {
          var i :| 0 <= i < |front| && c in front[i].cves;
          assert c in items[i].cves;
        }
        if i :| 0 <= i < |items| && c in items[i].cves {
          if i < |front| { assert c in front[i].cves; }
        }
      }
    }
  }

  lemma FoldCvesMembers(items: seq<FeedItem>, c: string)
    requires items != []
    ensures c in MergeInOrder(items).cves <==> CveIn(items, c)
  {
    hide Distinct;
    FoldCves(items);
    AllCvesMembers(items);
    if |items| == 1 { assert c in items[0].cves <==> CveIn(items, c); }
  }

  /**
   * The merged item of an id: everything else from its first item, the union of the tags, the
   * ordered union of the CVEs, the highest severity rank, and urgent if any is.
   */
  lemma MergeIsUnion(items: seq<FeedItem>, id: string)
    requires id in Ids(items)
    ensures var group, r := WithId(items, id), MergeOf(items, id);
            && group != []
            && r == group[0].(tags := r.tags, cves := r.cves, severity := r.severity, urgent := r.urgent)
            && r.cves == (if |group| == 1 then group[0].cves else Distinct(AllCves(group)))
            && (r.urgent <==> UrgentIn(group)) && TopRank(group, SeverityRank(r.severity))
    ensures forall t :: t in MergeOf(items, id).tags <==> TagIn(WithId(items, id), t)
    ensures forall c :: c in MergeOf(items, id).cves <==> CveIn(WithId(items, id), c)
  {
    hide SeverityRank, Distinct, MergeInOrder, WithId;
    MergeOfIsFold(items, id);
    FoldMeaning(WithId(items, id));
    FoldCves(WithId(items, id));
    forall c ensures c in MergeOf(items, id).cves <==> CveIn(WithId(items, id), c) {
      FoldCvesMembers(WithId(items, id), c);
    }
  }

  lemma SameMembers(a: seq<FeedItem>, b: seq<FeedItem>)
    requires forall x :: x in a ==> x in b
    ensures forall t :: TagIn(a, t) ==> TagIn(b, t)
    ensures forall c :: CveIn(a, c) ==> CveIn(b, c)
    ensures UrgentIn(a) ==> UrgentIn(b)
    ensures forall m, n :: TopRank(a, m) && TopRank(b, n) ==> m <= n
  {
    hide SeverityRank;
    forall t | TagIn(a, t) ensures TagIn(b, t) {
      var i :| 0 <= i < |a| && t in a[i].tags;
      assert a[i] in b;
    }
    forall c | CveIn(a, c) ensures CveIn(b, c) {
      var i :| 0 <= i < |a| && c in a[i].cves;
      assert a[i] in b;
    }
    if i :| 0 <= i < |a| && a[i].urgent { assert a[i] in b; }
    forall m, n | TopRank(a, m) && TopRank(b, n) ensures m <= n {
      var i :| 0 <= i < |a| && SeverityRank(a[i].severity) == m;
      assert a[i] in b;
    }
  }

  /** The merged tags, CVEs as a set, severity rank and urgency depend on which items there are, not on their order. */
  lemma MergeIgnoresOrder(a: seq<FeedItem>, b: seq<FeedItem>, id: string)
    requires id in Ids(a) && id in Ids(b) && forall x :: x in a <==> x in b
    ensures var r, s := MergeOf(a, id), MergeOf(b, id);
            && r.tags == s.tags && r.urgent == s.urgent && SeverityRank(r.severity) == SeverityRank(s.severity)
            && (set c | c in r.cves) == (set c | c in s.cves)
  {
    hide SeverityRank, Distinct, MergeInOrder, WithId, MergeOf, TopRank, TagIn, CveIn, UrgentIn;
    MergeIsUnion(a, id);
    MergeIsUnion(b, id);
    WithIdMembers(a, id);
    WithIdMembers(b, id);
    SameMembers(WithId(a, id), WithId(b, id));
    SameMembers(WithId(b, id), WithId(a, id));
  }

  // ---------- the list ----------

  ghost predicate DistinctIds(items: seq<FeedItem>) {
    forall i, j :: 0 <= i < j < |items| ==> items[i].id != items[j].id
  }

  lemma {:induction false} MergeOfHasId(items: seq<FeedItem>, id: string)
    requires id in Ids(items)
    ensures MergeOf(items, id).id == id
  {
    var front := items[..|items| - 1];
    IdsSplit(items);
    if id in Ids(front) { MergeOfHasId(front, id); }
  }

  lemma GroupIds(items: seq<FeedItem>)
    ensures |Groups(items)| == |Distinct(Ids(items))|
    ensures forall i :: 0 <= i < |Groups(items)| ==> Groups(items)[i].id == Distinct(Ids(items))[i]
    ensures DistinctIds(Groups(items))
  {
    hide MergeOf, Ids, Distinct;
    var ids := Distinct(Ids(items));
    forall i | 0 <= i < |ids| ensures Groups(items)[i].id == ids[i] {
      assert ids[i] in ids;
      MergeOfHasId(items, ids[i]);
    }
  }

  lemma {:induction false} CountsAtMostOnce(s: seq<FeedItem>, v: FeedItem)
    requires DistinctIds(s)
    ensures multiset(s)[v] <= 1
  {
    if s != [] {
      var front, last := s[..|s| - 1], s[|s| - 1];
      CountsAtMostOnce(front, v);
      assert s == front + [last];
      if v == last { assert v !in front; }
    }
  }

  lemma CountsTwice(s: seq<FeedItem>, i: int, j: int)
    requires 0 <= i < j < |s| && s[i] == s[j]
    ensures multiset(s)[s[i]] >= 2
  {
    assert s == s[..j] + s[j..] && s[..j][i] == s[i] && s[j..][0] == s[i];
    assert multiset(s[..j])[s[i]] >= 1 && multiset(s[j..])[s[i]] >= 1;
  }

  lemma DistinctIdsOfPermutation(s: seq<FeedItem>, t: seq<FeedItem>)
    requires DistinctIds(s) && multiset(t) == multiset(s)
    ensures DistinctIds(t)
  {
    forall i, j | 0 <= i < j < |t| ensures t[i].id != t[j].id {
      if t[i] == t[j] {
        CountsTwice(t, i, j);
        CountsAtMostOnce(s, t[i]);
      } else {
        assert t[i] in multiset(t) && t[j] in multiset(t);
        assert t[i] in s && t[j] in s;
      }
    }
  }

  /** Distinct ids, exactly those of the input; newest first; ties in the order of first occurrence. */
  lemma DedupedList(items: seq<FeedItem>)
    ensures DistinctIds(Deduped(items))
    ensures forall x :: x in Deduped(items) <==> x in Groups(items)
    ensures forall id :: id in Ids(items) <==> exists i :: HasId(Deduped(items), id, i)
    ensures Descending(Deduped(items), SortKey)
    ensures forall k :: WithKey(Deduped(items), SortKey, k) == WithKey(Groups(items), SortKey, k)
  {
    hide SortDesc, SortKey, Groups, Ids, Distinct, WithKey, Descending;
    var groups, out := Groups(items), Deduped(items);
    GroupIds(items);
    SortDescPermutes(groups, SortKey);
    SortDescSorts(groups, SortKey);
    DistinctIdsOfPermutation(groups, out);
    forall k ensures WithKey(out, SortKey, k) == WithKey(groups, SortKey, k) {
      SortDescStable(groups, SortKey, k);
    }
    forall id ensures id in Ids(items) <==> exists i :: HasId(out, id, i) {
      if id in Ids(items) {
        assert id in Distinct(Ids(items));
        var k :| 0 <= k < |groups| && Distinct(Ids(items))[k] == id;
        assert groups[k] in out;
        var i :| 0 <= i < |out| && out[i] == groups[k];
        assert HasId(out, id, i);
      }
      if i :| HasId(out, id, i) {
        assert out[i] in groups;
        var k :| 0 <= k < |groups| && groups[k] == out[i];
        assert Distinct(Ids(items))[k] in Distinct(Ids(items));
      }
    }
  }

  /** In terms of the items: a later one is not newer, and not urgent beside a calm one of the same date. */
  lemma DedupedIsNewestFirst(items: seq<FeedItem>, i: nat, j: nat)
    requires i < j < |Deduped(items)|
    ensures var a, b := Deduped(items)[i], Deduped(items)[j];
            SortDate(a) > SortDate(b) || (SortDate(a) == SortDate(b) && (b.urgent ==> a.urgent))
    ensures NewestFirst(Deduped(items)[i], Deduped(items)[j])
  {
    hide Deduped, SortDate, Groups, Ids, Instant;
    DedupedList(items);
    var a, b := Deduped(items)[i], Deduped(items)[j];
    KeyMeaning(a, b);
    SortDateOrder(a, b);
    SortDateOrder(b, a);
  }

  /** The moments in the order of the list; an undated item only before what is not later than the earliest datetime. */
  predicate NewestFirst(earlier: FeedItem, later: FeedItem) {
    match (earlier.published, later.published)
    case (Some(x), Some(y)) => Instant(x) > Instant(y) || (Instant(x) == Instant(y) && (later.urgent ==> earlier.urgent))
    case (None, Some(y)) => Instant(y) < 0 || (Instant(y) == 0 && (later.urgent ==> earlier.urgent))
    case (Some(x), None) => Instant(x) > 0 || (Instant(x) == 0 && (later.urgent ==> earlier.urgent))
    case (None, None) => later.urgent ==> earlier.urgent
  }

  lemma KeyMeaning(a: FeedItem, b: FeedItem)
    ensures KeyLess(SortKey(a), SortKey(b)) <==>
            SortDate(a) < SortDate(b) || (SortDate(a) == SortDate(b) && !a.urgent && b.urgent)
  {
    hide SortDate;
    var k, l := SortKey(a), SortKey(b);
    assert k[1..][1..] == [] && l[1..][1..] == [];
    assert KeyLess(k[1..], l[1..]) <==> k[1] < l[1];
  }

  lemma {:induction false} MergeOfSingle(items: seq<FeedItem>, i: int)
    requires DistinctIds(items) && 0 <= i < |items|
    ensures items[i].id in Ids(items) && MergeOf(items, items[i].id) == items[i]
  {
    assert Ids(items)[i] == items[i].id;
    var front, last := items[..|items| - 1], items[|items| - 1];
    IdsSplit(items);
    if i < |front| {
      MergeOfSingle(front, i);
    } else {
      assert last.id !in Ids(front);
    }
  }

  lemma GroupsOfDistinct(items: seq<FeedItem>)
    requires DistinctIds(items)
    ensures Groups(items) == items
  {
    assert NoDuplicates(Ids(items));
    DistinctOfDistinct(Ids(items));
    forall i | 0 <= i < |items| ensures Groups(items)[i] == items[i] { MergeOfSingle(items, i); }
  }

  /** A second pass changes nothing. */
  lemma DedupeTwice(items: seq<FeedItem>)
    ensures Deduped(Deduped(items)) == Deduped(items)
  {
    hide SortDesc, SortKey, Groups;
    DedupedList(items);
    GroupsOfDistinct(Deduped(items));
    SortDescOfSorted(Deduped(items), SortKey);
  }
}
