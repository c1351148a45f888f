/** The feed item as the object the pipeline steps update in place. */
module LiveItems {
  import opened Wrappers
  import opened IsoTime
  import opened Models

  class Item {
    const id: string
    const title: string
    const url: string
    const source: string
    const sourceUrl: string
    const published: Option<Moment>
    const kev: bool
    const epssScore: Option<real>
    const isSample: bool
    const patchStatus: string
    var summary: string
    var tags: set<string>
    var cves: seq<string>
    var severity: string
    var urgent: bool
    var osvAffected: seq<string>
    var osvFixed: seq<string>
    var osvSeverity: Option<string>

    function Value(): (v: FeedItem)
      reads this
      ensures v.id == id
    {
      FeedItem(id, title, summary, url, source, sourceUrl, published, tags, cves, severity, urgent, kev, epssScore,
               isSample, osvAffected, osvFixed, osvSeverity, patchStatus)
    }

    constructor (v: FeedItem)
      ensures Value() == v
    {
      id, title, url, source, sourceUrl := v.id, v.title, v.url, v.source, v.sourceUrl;
      published, kev, epssScore, isSample, patchStatus := v.published, v.kev, v.epssScore, v.isSample, v.patchStatus;
      summary, tags, cves, severity, urgent := v.summary, v.tags, v.cves, v.severity, v.urgent;
      osvAffected, osvFixed, osvSeverity := v.osvAffected, v.osvFixed, v.osvSeverity;
    }
  }

  function Values(items: seq<Item>): (r: seq<FeedItem>)
    reads items
    ensures |r| == |items| && forall i :: 0 <= i < |r| ==> r[i] == items[i].Value()
  {
    if items == [] then [] else [items[0].Value()] + Values(items[1..])
  }

  /** `SEVERITY_RANK.get(severity, 0)`, the same table as OSV's `SEVERITY_ORDER`. */
  function SeverityRank(severity: string): int {
    if severity == "critical" then 4
    else if severity == "high" then 3
    else if severity == "medium" then 2
    else if severity == "low" then 1
    else 0
  }

  /** The date an item sorts by; without one it is the earliest datetime. */
  function SortDate(item: FeedItem): int { if item.published.None? then 0 else Instant(item.published.value) }

  /** Critical, high, medium, low, and below them every other text alike. */
  lemma SeverityOrder(other: string)
    requires other != "critical" && other != "high" && other != "medium" && other != "low"
    ensures SeverityRank("critical") > SeverityRank("high") > SeverityRank("medium") > SeverityRank("low")
    ensures SeverityRank("low") > SeverityRank(other) == SeverityRank(UNKNOWN) == 0
  {
    assert |"critical"| == 8 && |"high"| == 4 && |"medium"| == 6 && |"low"| == 3 && |UNKNOWN| == 7;
  }

  /** The dates items sort by are the moments they were published, undated items at the earliest datetime. */
  lemma SortDateOrder(a: FeedItem, b: FeedItem)
    ensures a.published.Some? && b.published.Some? ==>
              (SortDate(a) < SortDate(b) <==> Instant(a.published.value) < Instant(b.published.value))
    ensures a.published.None? && b.published.Some? ==> (SortDate(a) < SortDate(b) <==> Instant(b.published.value) > 0)
    ensures a.published.Some? && b.published.None? ==> (SortDate(a) < SortDate(b) <==> Instant(a.published.value) < 0)
    ensures a.published.None? && b.published.None? ==> SortDate(a) == SortDate(b)
  {
  }
}
