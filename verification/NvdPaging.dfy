/**
 * `_fetch_nvd`: one page of the window or, when the window holds more, a jump to its last page;
 * then newest first. The server's listing is an input, in ascending order of publication.
 */
module NvdPaging {
  import opened Wrappers
  import opened Ordering
  import opened IsoTime

  datatype Cve = Cve(id: string, published: Option<Moment>)

  /** The date an item sorts by; without one it is the earliest datetime, in UTC. */
  function DateKey(c: Cve): int { if c.published.None? then 0 else Instant(c.published.value) }

  function SortKey(c: Cve): seq<int> { [DateKey(c)] }

  predicate Naive(c: Cve) { c.published.Some? && c.published.value.offset.None? }

  /** Python refuses to compare a naive datetime with an aware one. */
  predicate Comparable(items: seq<Cve>) {
    forall i, j :: 0 <= i < |items| && 0 <= j < |items| ==> Naive(items[i]) == Naive(items[j])
  }

  /** `_nvd_items`: entries without an id are skipped. */
  function NvdItems(page: seq<Cve>): seq<Cve> {
    if page == [] then [] else (if page[0].id == "" then [] else [page[0]]) + NvdItems(page[1..])
  }

  function Max(a: int, b: int): int { if a < b then b else a }

  function Min(a: int, b: int): int { if a < b then a else b }

  /** The page of `size` entries that starts at `start`. */
  function Page(listing: seq<Cve>, start: nat, size: nat): seq<Cve> {
    if start >= |listing| then [] else listing[start..Min(start + size, |listing|)]
  }

  method FetchNvd(listing: seq<Cve>, maxItems: nat) returns (r: Result<seq<Cve>, string>, requests: nat)
    ensures r == Fetched(listing, maxItems)
    ensures GoodListing(listing) ==>
              r.Success? && |r.value| == Min(|listing|, maxItems) && Dates(r.value) == Dates(Top(listing, maxItems))
    ensures GoodListing(listing) ==> forall i, j :: 0 <= i < j < |r.value| ==> NotNewer(r.value[j], r.value[i])
    ensures r.Failure? <==> Mixed(LastPage(listing, maxItems))
    ensures requests == if |listing| > Max(100, maxItems * 10) then 2 else 1
  {
    hide GoodListing, LastPage, Mixed, SortDesc, NvdItems;
    hide NotNewer, DateKey;
    if GoodListing(listing) {
      PagingIsTop(listing, maxItems);
      ghost var _ := NoneNewerOmitted(listing, maxItems);
    }
    MixedDatesFail(listing, maxItems);
    var pageSize := Max(100, maxItems * 10);
    var total := |listing|;
    var items := NvdItems(Page(listing, 0, pageSize));
    requests := 1;
    if total > pageSize {
      items := NvdItems(Page(listing, Max(0, total - maxItems), Max(1, maxItems)));
      requests := 2;
    }
    if !Comparable(items) { return Failure("TypeError"), requests; }
    var sorted := SortDesc(items, SortKey);
    return Success(if |sorted| > maxItems then sorted[..maxItems] else sorted), requests;
  }

  function Fetched(listing: seq<Cve>, maxItems: nat): Result<seq<Cve>, string> {
    var pageSize := Max(100, maxItems * 10);
    var page := if |listing| > pageSize then Page(listing, Max(0, |listing| - maxItems), Max(1, maxItems))
                else Page(listing, 0, pageSize);
    var items := NvdItems(page);
    if !Comparable(items) then Failure("TypeError") else Success(Top(items, maxItems))
  }

  /** The reference: sort everything, take the newest. */
  function Top(items: seq<Cve>, n: nat): seq<Cve> {
    var sorted := SortDesc(items, SortKey);
    if |sorted| > n then sorted[..n] else sorted
  }

  // ---------- the listing ----------

  /** In ascending order of publication, every entry with an id, and all dates of one kind. */
  ghost predicate GoodListing(listing: seq<Cve>) {
    && DatesAscend(listing) && Comparable(listing)
    && forall i :: 0 <= i < |listing| ==> listing[i].id != ""
  }

  ghost predicate DatesAscend(s: seq<Cve>) {
    forall i, j :: 0 <= i < j < |s| ==> DateKey(s[i]) <= DateKey(s[j])
  }

  /** By the moments of publication; an entry without a date counts as the earliest datetime. */
  predicate NotNewer(a: Cve, b: Cve) {
    match (a.published, b.published)
    case (Some(x), Some(y)) => Instant(x) <= Instant(y)
    case (Some(x), None) => Instant(x) <= 0
    case (None, Some(y)) => 0 <= Instant(y)
    case (None, None) => true
  }

  lemma KeyIsMoment(a: Cve, b: Cve)
    ensures DateKey(a) <= DateKey(b) <==> NotNewer(a, b)
  {
  }

  /** A good listing in terms of moments. */
  lemma GoodListingMeaning(listing: seq<Cve>)
    ensures GoodListing(listing) <==>
            && (forall i, j :: 0 <= i < j < |listing| ==> NotNewer(listing[i], listing[j]))
            && Comparable(listing) && forall i :: 0 <= i < |listing| ==> listing[i].id != ""
  {
    hide DateKey, NotNewer, Comparable;
    forall i, j | 0 <= i < j < |listing| ensures DateKey(listing[i]) <= DateKey(listing[j]) <==> NotNewer(listing[i], listing[j]) {
      KeyIsMoment(listing[i], listing[j]);
    }
  }

  ghost predicate DatesDescend(s: seq<Cve>) {
    forall i, j :: 0 <= i < j < |s| ==> DateKey(s[j]) <= DateKey(s[i])
  }

  lemma {:induction false} NothingSkipped(page: seq<Cve>)
    requires forall i :: 0 <= i < |page| ==> page[i].id != ""
    ensures NvdItems(page) == page
  {
    if page != [] { NothingSkipped(page[1..]); }
  }

  function Dates(items: seq<Cve>): (r: seq<int>)
    ensures |r| == |items| && forall i :: 0 <= i < |r| ==> r[i] == DateKey(items[i])
  {
    if items == [] then [] else [DateKey(items[0])] + Dates(items[1..])
  }

  function Reversed(s: seq<int>): (r: seq<int>)
    ensures |r| == |s| && forall i :: 0 <= i < |r| ==> r[i] == s[|s| - 1 - i]
  {
    if s == [] then [] else Reversed(s[1..]) + [s[0]]
  }

  lemma KeyIsDate(a: Cve, b: Cve)
    ensures KeyLess(SortKey(a), SortKey(b)) <==> DateKey(a) < DateKey(b)
  {
  }

  lemma {:induction false} InsertOldest(x: Cve, s: seq<Cve>)
    requires OldestFirst(x, s) && DatesDescend(s)
    ensures Dates(InsertDesc(x, s, SortKey)) == Dates(s) + [DateKey(x)]
  {
    hide DateKey, SortKey, KeyLess;
    if s != [] {
      KeyIsDate(x, s[0]);
      if DateKey(x) < DateKey(s[0]) {
        InsertOldest(x, s[1..]);
      }
    }
  }

  lemma SortedDescends(s: seq<Cve>)
    ensures DatesDescend(SortDesc(s, SortKey))
  {
    hide DateKey, SortDesc;
    var sorted := SortDesc(s, SortKey);
    SortDescSorts(s, SortKey);
    forall i, j | 0 <= i < j < |sorted| ensures DateKey(sorted[j]) <= DateKey(sorted[i]) {
      KeyIsDate(sorted[i], sorted[j]);
    }
  }

  /** Sorting an ascending listing newest first turns its dates around. */
  lemma {:induction false} SortReverses(s: seq<Cve>)
    requires DatesAscend(s)
    ensures Dates(SortDesc(s, SortKey)) == Reversed(Dates(s))
  {
    hide DateKey, SortKey, DatesDescend, OldestFirst;
    if s != [] {
      assert DatesAscend(s[1..]);
      SortReverses(s[1..]);
      SortedDescends(s[1..]);
      HeadIsOldest(s);
      InsertOldest(s[0], SortDesc(s[1..], SortKey));
    }
  }

  ghost predicate OldestFirst(x: Cve, s: seq<Cve>) {
    forall i :: 0 <= i < |s| ==> DateKey(x) <= DateKey(s[i])
  }

  lemma HeadIsOldest(s: seq<Cve>)
    requires DatesAscend(s) && s != []
    ensures OldestFirst(s[0], SortDesc(s[1..], SortKey))
  {
    hide DateKey, SortKey, SortDesc;
    var rest := SortDesc(s[1..], SortKey);
    SortDescPermutes(s[1..], SortKey);
    forall i | 0 <= i < |rest| ensures DateKey(s[0]) <= DateKey(rest[i]) {
      assert rest[i] in s[1..];
    }
  }

  lemma GoodTail(listing: seq<Cve>, from: nat)
    requires GoodListing(listing) && from <= |listing|
    ensures GoodListing(listing[from..])
  {
    hide DateKey, Naive;
    var page := listing[from..];
    assert forall i :: 0 <= i < |page| ==> page[i] == listing[from + i];
  }

  /** What the requests bring in: everything, or the last `maxItems` entries. */
  function LastPage(listing: seq<Cve>, maxItems: nat): seq<Cve> {
    if |listing| > Max(100, maxItems * 10) then listing[|listing| - maxItems..] else listing
  }

  lemma FetchedItems(listing: seq<Cve>, maxItems: nat)
    requires GoodListing(listing)
    ensures var page := LastPage(listing, maxItems);
            GoodListing(page) && Fetched(listing, maxItems) == Success(Top(page, maxItems))
  {
    hide Top, DateKey, Naive, Comparable, DatesAscend;
    var page := LastPage(listing, maxItems);
    GoodTail(listing, |listing| - |page|);
    assert page == listing[|listing| - |page|..];
    NothingSkipped(page);
    if |listing| > Max(100, maxItems * 10) {
      assert page == Page(listing, Max(0, |listing| - maxItems), Max(1, maxItems));
    } else {
      assert page == Page(listing, 0, Max(100, maxItems * 10));
    }
  }

  lemma SameDates(a: seq<Cve>, b: seq<Cve>)
    requires |a| == |b| && forall i :: 0 <= i < |a| ==> DateKey(a[i]) == DateKey(b[i])
    ensures Dates(a) == Dates(b)
  {
    hide DateKey;
  }

  lemma NthNewest(listing: seq<Cve>, i: nat)
    requires GoodListing(listing) && i < |listing|
    ensures |SortDesc(listing, SortKey)| == |listing|
    ensures DateKey(SortDesc(listing, SortKey)[i]) == DateKey(listing[|listing| - 1 - i])
  {
    hide DateKey, SortDesc, SortKey, DatesAscend, Comparable, Dates, Reversed;
    SortReverses(listing);
    SortDescPermutes(listing, SortKey);
    assert DateKey(SortDesc(listing, SortKey)[i]) == Dates(SortDesc(listing, SortKey))[i];
    assert Reversed(Dates(listing))[i] == Dates(listing)[|listing| - 1 - i];
  }

  /**
   * The pages refine "sort everything, take the newest": as many items, with the same dates in the
   * same order, whether one page holds the window or the last page has to be fetched.
   */
  lemma PagingIsTop(listing: seq<Cve>, maxItems: nat)
    requires GoodListing(listing)
    ensures Fetched(listing, maxItems).Success?
    ensures var items := Fetched(listing, maxItems).value;
            && |items| == Min(|listing|, maxItems)
            && Dates(items) == Dates(Top(listing, maxItems))
  {
    hide SortDesc, DateKey, SortKey, Fetched, GoodListing;
    FetchedItems(listing, maxItems);
    var page := LastPage(listing, maxItems);
    SortDescPermutes(listing, SortKey);
    SortDescPermutes(page, SortKey);
    var items, top := Top(page, maxItems), Top(listing, maxItems);
    forall i | 0 <= i < |items| ensures DateKey(items[i]) == DateKey(top[i]) {
      NthNewest(page, i);
      NthNewest(listing, i);
      assert page[|page| - 1 - i] == listing[|listing| - 1 - i];
    }
    SameDates(items, top);
  }

  ghost predicate NoneNewer(omitted: seq<Cve>, kept: seq<Cve>) {
    forall i, j :: 0 <= i < |omitted| && 0 <= j < |kept| ==> DateKey(omitted[i]) <= DateKey(kept[j])
  }

  lemma CutIsOlder(page: seq<Cve>, n: nat)
    requires n <= |SortDesc(page, SortKey)|
    ensures NoneNewer(SortDesc(page, SortKey)[n..], SortDesc(page, SortKey)[..n])
  {
    hide DateKey, SortDesc;
    var sorted := SortDesc(page, SortKey);
    SortDescSorts(page, SortKey);
    forall i, j | n <= i < |sorted| && 0 <= j < n ensures DateKey(sorted[i]) <= DateKey(sorted[j]) {
      assert !KeyLess(SortKey(sorted[j]), SortKey(sorted[i]));
      KeyIsDate(sorted[j], sorted[i]);
    }
  }

  lemma EarlierIsOlder(listing: seq<Cve>, from: nat, kept: seq<Cve>)
    requires GoodListing(listing) && from <= |listing|
    requires forall j :: 0 <= j < |kept| ==> kept[j] in listing[from..]
    ensures NoneNewer(listing[..from], kept)
  {
    hide DateKey, Naive;
    forall i, j | 0 <= i < from && 0 <= j < |kept| ensures DateKey(listing[i]) <= DateKey(kept[j]) {
      var k :| 0 <= k < |listing[from..]| && listing[from..][k] == kept[j];
      assert listing[from + k] == kept[j];
    }
  }

  /** Nothing newer was left out: the omitted entries are no newer than any kept one. */
  lemma NoneNewerOmitted(listing: seq<Cve>, maxItems: nat) returns (omitted: seq<Cve>)
    requires GoodListing(listing)
    ensures Fetched(listing, maxItems).Success?
    ensures multiset(Fetched(listing, maxItems).value) + multiset(omitted) == multiset(listing)
    ensures NoneNewer(omitted, Fetched(listing, maxItems).value)
    ensures Descending(Fetched(listing, maxItems).value, SortKey)
    ensures forall i, j :: 0 <= i < |omitted| && 0 <= j < |Fetched(listing, maxItems).value| ==>
              NotNewer(omitted[i], Fetched(listing, maxItems).value[j])
    ensures forall i, j :: 0 <= i < j < |Fetched(listing, maxItems).value| ==>
              NotNewer(Fetched(listing, maxItems).value[j], Fetched(listing, maxItems).value[i])
  {
    hide NotNewer;
    hide DateKey, SortDesc, SortKey, Fetched, GoodListing, KeyLess;
    FetchedItems(listing, maxItems);
    var page := LastPage(listing, maxItems);
    var sorted, kept := SortDesc(page, SortKey), Top(page, maxItems);
    var from := |listing| - |page|;
    var skipped, cut := listing[..from], sorted[|kept|..];
    omitted := skipped + cut;
    SortDescPermutes(page, SortKey);
    SortDescSorts(page, SortKey);
    assert NoneNewer(skipped, kept) by {
      forall j | 0 <= j < |kept| ensures kept[j] in listing[from..] {
        assert sorted[j] in sorted && page == listing[from..];
      }
      EarlierIsOlder(listing, from, kept);
    }
    CutIsOlder(page, |kept|);
    NoneNewerConcat(skipped, cut, kept);
    assert page == listing[from..] && kept == sorted[..|kept|];
    SplitPermutes(listing, from, sorted, |kept|);
    InMoments(omitted, kept);
  }

  lemma InMoments(omitted: seq<Cve>, kept: seq<Cve>)
    ensures NoneNewer(omitted, kept) ==>
              forall i, j :: 0 <= i < |omitted| && 0 <= j < |kept| ==> NotNewer(omitted[i], kept[j])
    ensures Descending(kept, SortKey) ==> forall i, j :: 0 <= i < j < |kept| ==> NotNewer(kept[j], kept[i])
  {
    hide DateKey, NotNewer, KeyLess, SortKey;
    if NoneNewer(omitted, kept) {
      forall i, j | 0 <= i < |omitted| && 0 <= j < |kept| ensures NotNewer(omitted[i], kept[j]) {
        KeyIsMoment(omitted[i], kept[j]);
      }
    }
    if Descending(kept, SortKey) {
      forall i, j | 0 <= i < j < |kept| ensures NotNewer(kept[j], kept[i]) {
        KeyIsDate(kept[i], kept[j]);
        KeyIsMoment(kept[j], kept[i]);
      }
    }
  }

  lemma NoneNewerConcat(a: seq<Cve>, b: seq<Cve>, kept: seq<Cve>)
    requires NoneNewer(a, kept) && NoneNewer(b, kept)
    ensures NoneNewer(a + b, kept)
  {
    hide DateKey;
  }

  lemma SplitPermutes(listing: seq<Cve>, from: nat, sorted: seq<Cve>, n: nat)
    requires from <= |listing| && n <= |sorted| && multiset(sorted) == multiset(listing[from..])
    ensures multiset(sorted[..n]) + multiset(listing[..from] + sorted[n..]) == multiset(listing)
  {
    assert listing == listing[..from] + listing[from..] && sorted == sorted[..n] + sorted[n..];
  }

  lemma {:induction false} NvdItemsMembers(page: seq<Cve>)
    ensures forall c :: c in NvdItems(page) <==> c in page && c.id != ""
  {
    if page != [] {
      NvdItemsMembers(page[1..]);
      assert page == [page[0]] + page[1..];
    }
  }

  lemma FetchedPage(listing: seq<Cve>, maxItems: nat)
    ensures Fetched(listing, maxItems).Failure? <==> !Comparable(NvdItems(LastPage(listing, maxItems)))
  {
    hide Top, Comparable, NvdItems;
    if |listing| > Max(100, maxItems * 10) {
      assert LastPage(listing, maxItems) == Page(listing, Max(0, |listing| - maxItems), Max(1, maxItems));
    } else {
      assert LastPage(listing, maxItems) == Page(listing, 0, Max(100, maxItems * 10));
    }
  }

  /** Two entries with an id, one with a naive date and one with an aware date or none. */
  ghost predicate Mixed(page: seq<Cve>) {
    exists c, d :: c in page && d in page && c.id != "" && d.id != "" && Naive(c) && !Naive(d)
  }

  /** Whatever the listing, the fetch fails exactly when the page it is left with mixes naive dates with others. */
  lemma MixedDatesFail(listing: seq<Cve>, maxItems: nat)
    ensures Fetched(listing, maxItems).Failure? <==> Mixed(LastPage(listing, maxItems))
  {
    hide Naive, Fetched, LastPage, NvdItems;
    var page := LastPage(listing, maxItems);
    var items := NvdItems(page);
    FetchedPage(listing, maxItems);
    NvdItemsMembers(page);
    if !Comparable(items) {
      var i, j :| 0 <= i < |items| && 0 <= j < |items| && Naive(items[i]) != Naive(items[j]);
      assert items[i] in items && items[j] in items;
    }
    if c, d :| c in page && d in page && c.id != "" && d.id != "" && Naive(c) && !Naive(d) {
      assert c in items && d in items;
      var i, j :| 0 <= i < |items| && 0 <= j < |items| && items[i] == c && items[j] == d;
    }
  }
}
