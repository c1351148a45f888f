/**
 * The request limiter. Its module comment speaks of fixed windows; the code keeps a log per key and
 * drops what has left the window, so it is a sliding window. Here it is proved against a log that
 * forgets nothing. Times are real numbers.
 */
module RateLimit {

  // ---------- the log that forgets nothing ----------

  datatype Hit = Hit(key: string, at: real)

  /** The times of the accepted hits of one key, in order. */
  function TimesOf(log: seq<Hit>, key: string): seq<real> {
    if log == [] then []
    else TimesOf(log[..|log| - 1], key) + if log[|log| - 1].key == key then [log[|log| - 1].at] else []
  }

  /** How many of the times lie in (lo, hi]. */
  function CountIn(times: seq<real>, lo: real, hi: real): nat {
    if times == [] then 0
    else CountIn(times[..|times| - 1], lo, hi) + if lo < times[|times| - 1] <= hi then 1 else 0
  }

  /** The rule: fewer than `max` accepted hits of the key lie in (now - window, now]. */
  predicate Allows(max: int, window: real, log: seq<Hit>, key: string, now: real) {
    CountIn(TimesOf(log, key), now - window, now) < max
  }

  /** `call.key` asks at `call.at`; a limiter that is switched off records nothing. */
  function LogAfter(max: int, window: real, log: seq<Hit>, call: Hit): seq<Hit> {
    if max > 0 && Allows(max, window, log, call.key, call.at) then log + [call] else log
  }

  function LogOfCalls(max: int, window: real, calls: seq<Hit>): seq<Hit> {
    if calls == [] then []
    else LogAfter(max, window, LogOfCalls(max, window, calls[..|calls| - 1]), calls[|calls| - 1])
  }

  ghost predicate Ordered(calls: seq<Hit>) {
    forall i, j :: 0 <= i < j < |calls| ==> calls[i].at <= calls[j].at
  }

  ghost predicate Ascending(times: seq<real>) {
    forall i, j :: 0 <= i < j < |times| ==> times[i] <= times[j]
  }

  lemma CountAppend(times: seq<real>, t: real, lo: real, hi: real)
    ensures CountIn(times + [t], lo, hi) == CountIn(times, lo, hi) + if lo < t <= hi then 1 else 0
  {
    assert (times + [t])[..|times|] == times;
  }

  lemma {:induction false} CountNarrows(times: seq<real>, lo: real, hi: real, lo2: real, hi2: real)
    requires lo <= lo2
    requires forall i :: 0 <= i < |times| ==> times[i] <= hi || hi2 <= hi
    ensures CountIn(times, lo2, hi2) <= CountIn(times, lo, hi)
  {
    if times != [] { CountNarrows(times[..|times| - 1], lo, hi, lo2, hi2); }
  }

  ghost predicate UpTo(log: seq<Hit>, hi: real) {
    forall i :: 0 <= i < |log| ==> log[i].at <= hi
  }

  lemma {:induction false} TimesBounded(log: seq<Hit>, key: string, hi: real)
    requires UpTo(log, hi)
    ensures forall i :: 0 <= i < |TimesOf(log, key)| ==> TimesOf(log, key)[i] <= hi
  {
    if log != [] { TimesBounded(log[..|log| - 1], key, hi); }
  }

  lemma TimesAppend(log: seq<Hit>, call: Hit, key: string)
    ensures TimesOf(log + [call], key) == if call.key == key then TimesOf(log, key) + [call.at] else TimesOf(log, key)
  {
    assert (log + [call])[..|log|] == log;
  }

  lemma {:induction false} LogWithinCalls(max: int, window: real, calls: seq<Hit>, hi: real)
    requires UpTo(calls, hi)
    ensures UpTo(LogOfCalls(max, window, calls), hi)
  {
    if calls != [] { LogWithinCalls(max, window, calls[..|calls| - 1], hi); }
  }

  /**
   * The bound over whole runs: whatever is asked and whenever, at most `max` hits of a key are
   * accepted in any span of one window, wherever the span ends. A fixed window would allow twice
   * that around a boundary.
   */
  lemma {:induction false} NeverMoreThanMax(max: int, window: real, calls: seq<Hit>, key: string, t: real)
    requires max > 0 && Ordered(calls)
    ensures CountIn(TimesOf(LogOfCalls(max, window, calls), key), t - window, t) <= max
  {
    if calls != [] {
      var front, call := calls[..|calls| - 1], calls[|calls| - 1];
      NeverMoreThanMax(max, window, front, key, t);
      LogWithinCalls(max, window, front, call.at);
      assert LogOfCalls(max, window, calls) == LogAfter(max, window, LogOfCalls(max, window, front), call);
      hide LogOfCalls;
      OneMoreHit(max, window, LogOfCalls(max, window, front), call, key, t);
    }
  }

  lemma OneMoreHit(max: int, window: real, log: seq<Hit>, call: Hit, key: string, t: real)
    requires max > 0 && UpTo(log, call.at)
    requires CountIn(TimesOf(log, key), t - window, t) <= max
    ensures CountIn(TimesOf(LogAfter(max, window, log, call), key), t - window, t) <= max
  {
    hide CountIn, TimesOf;
    TimesAppend(log, call, key);
    if call.key == key {
      TimesBounded(log, key, call.at);
      CountAppend(TimesOf(log, key), call.at, t - window, t);
      if t - window < call.at <= t {
        CountNarrows(TimesOf(log, key), call.at - window, call.at, t - window, t);
      }
    }
  }

  function OnlyKey(calls: seq<Hit>, key: string): seq<Hit> {
    if calls == [] then []
    else if calls[|calls| - 1].key == key then OnlyKey(calls[..|calls| - 1], key) + [calls[|calls| - 1]]
    else OnlyKey(calls[..|calls| - 1], key)
  }

  lemma OneMoreCall(max: int, window: real, front: seq<Hit>, call: Hit, key: string)
    ensures LogOfCalls(max, window, front + [call]) == LogAfter(max, window, LogOfCalls(max, window, front), call)
    ensures OnlyKey(front + [call], key) == if call.key == key then OnlyKey(front, key) + [call] else OnlyKey(front, key)
  {
    assert (front + [call])[..|front|] == front;
  }

  lemma {:induction false} SameTimes(max: int, window: real, calls: seq<Hit>, key: string)
    ensures TimesOf(LogOfCalls(max, window, calls), key) == TimesOf(LogOfCalls(max, window, OnlyKey(calls, key)), key)
  {
    if calls != [] {
      hide CountIn, TimesOf, LogOfCalls, OnlyKey;
      var front, call := calls[..|calls| - 1], calls[|calls| - 1];
      assert calls == front + [call];
      SameTimes(max, window, front, key);
      OneMoreCall(max, window, front, call, key);
      TimesAppend(LogOfCalls(max, window, front), call, key);
      if call.key == key {
        OneMoreCall(max, window, OnlyKey(front, key), call, key);
        TimesAppend(LogOfCalls(max, window, OnlyKey(front, key)), call, key);
      }
    }
  }

  /** With times in order: how many lie after lo shows in the time that is n from the end. */
  lemma {:induction false} CountReaches(times: seq<real>, lo: real, hi: real, n: nat)
    requires Ascending(times) && n > 0 && forall i :: 0 <= i < |times| ==> times[i] <= hi
    ensures CountIn(times, lo, hi) >= n <==> |times| >= n && times[|times| - n] > lo
  {
    if times != [] {
      var front := times[..|times| - 1];
      if n > 1 {
        CountReaches(front, lo, hi, n - 1);
        if times[|times| - 1] <= lo { NoneAfter(front, lo, hi); }
      } else if times[|times| - 1] <= lo {
        NoneAfter(front, lo, hi);
      }
    }
  }

  lemma {:induction false} NoneAfter(times: seq<real>, lo: real, hi: real)
    requires forall i :: 0 <= i < |times| ==> times[i] <= lo
    ensures CountIn(times, lo, hi) == 0
  {
    if times != [] { NoneAfter(times[..|times| - 1], lo, hi); }
  }

  /**
   * The rule without counting: a call is accepted exactly when the key has had fewer than `max`
   * hits accepted, or the one `max` back has left the window. So the first `max` calls are.
   */
  lemma AllowsIsExact(max: int, window: real, calls: seq<Hit>, key: string, now: real)
    requires max > 0 && Ordered(calls) && forall i :: 0 <= i < |calls| ==> calls[i].at <= now
    ensures var times := TimesOf(LogOfCalls(max, window, calls), key);
            Allows(max, window, LogOfCalls(max, window, calls), key, now) <==>
              |times| < max || times[|times| - max] <= now - window
  {
    hide CountIn, TimesOf, LogOfCalls, Ordered;
    var log := LogOfCalls(max, window, calls);
    LogIsOrdered(max, window, calls, now);
    TimesAscend(log, key);
    TimesBounded(log, key, now);
    CountReaches(TimesOf(log, key), now - window, now, max);
  }

  lemma {:induction false} LogIsOrdered(max: int, window: real, calls: seq<Hit>, now: real)
    requires Ordered(calls) && forall i :: 0 <= i < |calls| ==> calls[i].at <= now
    ensures Ordered(LogOfCalls(max, window, calls)) && UpTo(LogOfCalls(max, window, calls), now)
  {
    hide Allows;
    if calls != [] {
      var front, call := calls[..|calls| - 1], calls[|calls| - 1];
      LogIsOrdered(max, window, front, call.at);
    }
  }

  /** Hits of other keys never change an answer. */
  lemma KeysAreSeparate(max: int, window: real, calls: seq<Hit>, key: string, now: real)
    ensures Allows(max, window, LogOfCalls(max, window, calls), key, now) <==>
            Allows(max, window, LogOfCalls(max, window, OnlyKey(calls, key)), key, now)
  {
    SameTimes(max, window, calls, key);
  }

  // ---------- the limiter ----------

  const PRUNE_THRESHOLD := 4096

  /** The keys with a hit in (now - window, now]. */
  ghost function ActiveKeys(window: real, log: seq<Hit>, now: real): set<string> {
    set h | h in log && now - window < h.at <= now :: h.key
  }

  /** The deque kept for a key: the newest hits, after dropping only hits that have left the window. */
  ghost predicate Tail(kept: seq<real>, times: seq<real>, cutoff: real) {
    && |kept| <= |times| && kept == times[|times| - |kept|..]
    && forall i :: 0 <= i < |times| - |kept| ==> times[i] <= cutoff
  }

  function Kept(hits: map<string, seq<real>>, key: string): seq<real> { if key in hits then hits[key] else [] }

  ghost predicate Backed(hits: map<string, seq<real>>, log: seq<Hit>, cutoff: real) {
    forall key :: Tail(Kept(hits, key), TimesOf(log, key), cutoff)
  }

  lemma {:induction false} TimesAscend(log: seq<Hit>, key: string)
    requires Ordered(log)
    ensures Ascending(TimesOf(log, key))
  {
    if log != [] {
      TimesAscend(log[..|log| - 1], key);
      TimesBounded(log[..|log| - 1], key, log[|log| - 1].at);
    }
  }

  lemma {:induction false} TimesAreHits(log: seq<Hit>, key: string, i: int)
    requires 0 <= i < |TimesOf(log, key)|
    ensures Hit(key, TimesOf(log, key)[i]) in log
  {
    var front := log[..|log| - 1];
    if i < |TimesOf(front, key)| {
      TimesAreHits(front, key, i);
      assert log == front + [log[|log| - 1]];
    }
  }

  lemma {:induction false} CountOfTail(times: seq<real>, n: nat, lo: real, hi: real)
    requires n <= |times|
    requires forall i :: 0 <= i < n ==> times[i] <= lo
    requires forall i :: n <= i < |times| ==> lo < times[i] <= hi
    ensures CountIn(times, lo, hi) == |times| - n
  {
    if times != [] {
      var front := times[..|times| - 1];
      CountOfTail(front, if n <= |front| then n else |front|, lo, hi);
    }
  }

  lemma CountOfKept(kept: seq<real>, times: seq<real>, cutoff: real, now: real)
    requires Tail(kept, times, cutoff) && (kept == [] || kept[0] > cutoff) && Ascending(times)
    requires forall i :: 0 <= i < |times| ==> times[i] <= now
    ensures CountIn(times, cutoff, now) == |kept|
  {
    var n := |times| - |kept|;
    assert kept != [] ==> kept[0] == times[n];
    CountOfTail(times, n, cutoff, now);
  }

  lemma KeptCounts(log: seq<Hit>, key: string, kept: seq<real>, cutoff: real, now: real)
    requires Ordered(log) && UpTo(log, now)
    requires Tail(kept, TimesOf(log, key), cutoff) && (kept == [] || kept[0] > cutoff)
    ensures CountIn(TimesOf(log, key), cutoff, now) == |kept|
  {
    hide Tail, CountIn, TimesOf;
    TimesAscend(log, key);
    TimesBounded(log, key, now);
    CountOfKept(kept, TimesOf(log, key), cutoff, now);
  }

  lemma BackedAfterHit(hits: map<string, seq<real>>, log: seq<Hit>, cutoff: real, key: string, kept: seq<real>, now: real)
    requires Backed(hits, log, cutoff) && Tail(kept, TimesOf(log, key), cutoff)
    ensures Backed(hits[key := kept + [now]], log + [Hit(key, now)], cutoff)
  {
    hide Tail, TimesOf;
    forall k ensures Tail(Kept(hits[key := kept + [now]], k), TimesOf(log + [Hit(key, now)], k), cutoff) {
      TimesAppend(log, Hit(key, now), k);
      assert Tail(Kept(hits, k), TimesOf(log, k), cutoff);
      if k == key { TailAppend(kept, TimesOf(log, key), cutoff, now); }
    }
  }

  lemma TailAppend(kept: seq<real>, times: seq<real>, cutoff: real, now: real)
    requires Tail(kept, times, cutoff)
    ensures Tail(kept + [now], times + [now], cutoff)
  {
  }

  lemma BackedAfterPop(hits: map<string, seq<real>>, log: seq<Hit>, cutoff: real, key: string, kept: seq<real>)
    requires Backed(hits, log, cutoff) && Tail(kept, TimesOf(log, key), cutoff)
    ensures Backed(hits[key := kept], log, cutoff)
  {
    hide Tail, TimesOf;
    forall k ensures Tail(Kept(hits[key := kept], k), TimesOf(log, k), cutoff) {
      assert Tail(Kept(hits, k), TimesOf(log, k), cutoff);
    }
  }

  /** Every deque is non-empty and its newest hit is in the window. */
  ghost predicate AllRecent(hits: map<string, seq<real>>, cutoff: real) {
    forall k :: k in hits ==> hits[k] != [] && hits[k][|hits[k]| - 1] > cutoff
  }

  lemma BackedTail(hits: map<string, seq<real>>, log: seq<Hit>, cutoff: real, key: string)
    requires Backed(hits, log, cutoff)
    ensures Tail(Kept(hits, key), TimesOf(log, key), cutoff)
  {
  }

  lemma BackedLater(hits: map<string, seq<real>>, log: seq<Hit>, cutoff: real, later: real)
    requires Backed(hits, log, cutoff) && cutoff <= later
    ensures Backed(hits, log, later)
  {
    hide TimesOf;
    forall k ensures Tail(Kept(hits, k), TimesOf(log, k), later) {
      assert Tail(Kept(hits, k), TimesOf(log, k), cutoff);
    }
  }

  lemma OneMoreKey(hits: map<string, seq<real>>, key: string, deque: seq<real>)
    ensures |hits[key := deque]| <= |hits| + 1
    ensures key in hits ==> |hits[key := deque]| == |hits|
  {
    assert hits[key := deque].Keys == hits.Keys + {key};
    if key in hits { assert hits.Keys + {key} == hits.Keys; }
  }

  class RateLimiter {
    const maxRequests: int
    const windowSeconds: real
    var hits: map<string, seq<real>>
    ghost var log: seq<Hit>
    ghost var latest: real

    ghost predicate Valid()
      reads this
    {
      && Ordered(log) && UpTo(log, latest)
      && Backed(hits, log, latest - windowSeconds)
    }

    constructor (maxRequests: int, windowSeconds: real, ghost start: real)
      ensures Valid() && log == [] && latest == start
      ensures this.maxRequests == maxRequests && this.windowSeconds == windowSeconds
    {
      this.maxRequests := maxRequests;
      this.windowSeconds := windowSeconds;
      hits := map[];
      log := [];
      latest := start;
    }

    /**
     * Record a hit; true while the key is under the limit. The answer is the rule applied to the
     * whole log, so neither the lazy popping nor the pruning is ever seen.
     */
    method Check(key: string, timestamp: real) returns (ok: bool)
      requires Valid() && latest <= timestamp
      modifies this
      ensures Valid() && latest == timestamp
      ensures log == LogAfter(maxRequests, windowSeconds, old(log), Hit(key, timestamp))
      ensures ok <==> maxRequests <= 0 || Allows(maxRequests, windowSeconds, old(log), key, timestamp)
      ensures maxRequests > 0 ==> |hits| <= AtLeast(4096, |ActiveKeys(windowSeconds, log, timestamp)|) + 1
      ensures maxRequests <= 0 ==> hits == old(hits)
    {
      hide CountIn, TimesOf, Backed, Tail, ActiveKeys;
      if maxRequests <= 0 {
        BackedLater(hits, log, latest - windowSeconds, timestamp - windowSeconds);
        latest := timestamp;
        return true;
      }
      var kept := Trim(key, timestamp);
      OneMoreKey(hits, key, kept);
      if |kept| >= maxRequests {
        BackedAfterPop(hits, log, timestamp - windowSeconds, key, kept);
        hits := hits[key := kept];
        return false;
      }
      OneMoreKey(hits, key, kept + [timestamp]);
      BackedAfterHit(hits, log, timestamp - windowSeconds, key, kept, timestamp);
      ActiveGrows(windowSeconds, log, Hit(key, timestamp), timestamp);
      hits := hits[key := kept + [timestamp]];
      log := log + [Hit(key, timestamp)];
      return true;
    }

    /** Prune when the map has grown, then drop the expired hits of the key. */
    method Trim(key: string, timestamp: real) returns (kept: seq<real>)
      requires Valid() && latest <= timestamp
      modifies this
      ensures Valid() && latest == timestamp && log == old(log)
      ensures Tail(kept, TimesOf(log, key), timestamp - windowSeconds)
      ensures |kept| == CountIn(TimesOf(log, key), timestamp - windowSeconds, timestamp)
      ensures |hits| <= AtLeast(PRUNE_THRESHOLD, |ActiveKeys(windowSeconds, log, timestamp)|)
    {
      hide CountIn, TimesOf, Backed, Tail, ActiveKeys;
      BackedLater(hits, log, latest - windowSeconds, timestamp - windowSeconds);
      latest := timestamp;
      var cutoff := timestamp - windowSeconds;
      if |hits| > PRUNE_THRESHOLD {
        hide AllRecent;
        Prune(cutoff);
        PrunedMapIsSmall(hits, log, windowSeconds, timestamp);
      }
      BackedTail(hits, log, cutoff, key);
      kept := PopExpired(Kept(hits, key), TimesOf(log, key), cutoff);
      KeptCounts(log, key, kept, cutoff, timestamp);
    }

    /** The popleft loop on the deque of one key. */
    method PopExpired(deque: seq<real>, ghost times: seq<real>, cutoff: real) returns (kept: seq<real>)
      requires Tail(deque, times, cutoff)
      ensures Tail(kept, times, cutoff) && (kept == [] || kept[0] > cutoff)
    {
      kept := deque;
      while kept != [] && kept[0] <= cutoff
        invariant Tail(kept, times, cutoff)
      {
        assert kept[0] == times[|times| - |kept|];
        kept := kept[1..];
      }
    }

    /** Drop the keys with no hit inside the window. */
    method Prune(cutoff: real)
      requires Ordered(log) && Backed(hits, log, cutoff)
      modifies this`hits
      ensures Backed(hits, log, cutoff)
      ensures AllRecent(hits, cutoff)
    {
      hide TimesOf, Backed;
      var stale := set k | k in hits && (hits[k] == [] || hits[k][|hits[k]| - 1] <= cutoff);
      while stale != {}
        invariant stale <= hits.Keys
        invariant Backed(hits, log, cutoff)
        invariant forall k :: k in hits ==> (k in stale <==> hits[k] == [] || hits[k][|hits[k]| - 1] <= cutoff)
        decreases |stale|
      {
        var k :| k in stale;
        TimesAscend(log, k);
        BackedWithout(hits, log, cutoff, k);
        hits := hits - {k};
        stale := stale - {k};
      }
    }
  }

  function AtLeast(a: int, b: int): int { if a < b then b else a }

  /** A deque whose newest hit is out of the window can be dropped whole. */
  lemma StaleTail(kept: seq<real>, times: seq<real>, cutoff: real)
    requires Tail(kept, times, cutoff) && Ascending(times)
    requires kept == [] || kept[|kept| - 1] <= cutoff
    ensures Tail([], times, cutoff)
  {
    if kept != [] { assert times[|times| - 1] == kept[|kept| - 1]; }
  }

  lemma BackedWithout(hits: map<string, seq<real>>, log: seq<Hit>, cutoff: real, key: string)
    requires Backed(hits, log, cutoff) && key in hits && Ascending(TimesOf(log, key))
    requires hits[key] == [] || hits[key][|hits[key]| - 1] <= cutoff
    ensures Backed(hits - {key}, log, cutoff)
  {
    hide TimesOf, Tail, Ascending;
    forall k ensures Tail(Kept(hits - {key}, k), TimesOf(log, k), cutoff) {
      assert Tail(Kept(hits, k), TimesOf(log, k), cutoff);
      if k == key { StaleTail(hits[k], TimesOf(log, k), cutoff); }
    }
  }

  lemma PrunedMapIsSmall(hits: map<string, seq<real>>, log: seq<Hit>, window: real, now: real)
    requires Backed(hits, log, now - window) && UpTo(log, now)
    requires AllRecent(hits, now - window)
    ensures |hits| <= |ActiveKeys(window, log, now)|
  {
    forall k | k in hits ensures k in ActiveKeys(window, log, now) {
      var times := TimesOf(log, k);
      assert Tail(Kept(hits, k), times, now - window);
      assert times[|times| - 1] == hits[k][|hits[k]| - 1];
      TimesAreHits(log, k, |times| - 1);
    }
    Subset(hits.Keys, ActiveKeys(window, log, now));
  }

  lemma {:induction false} Subset(a: set<string>, b: set<string>)
    requires a <= b
    ensures |a| <= |b|
  {
    assert b == a + (b - a);
  }

  lemma ActiveGrows(window: real, log: seq<Hit>, call: Hit, now: real)
    ensures |ActiveKeys(window, log, now)| <= |ActiveKeys(window, log + [call], now)|
  {
    Subset(ActiveKeys(window, log, now), ActiveKeys(window, log + [call], now));
  }

  lemma NoCalls(max: int, window: real)
    ensures LogOfCalls(max, window, []) == []
  {
  }

  /** Any sequence of calls, answered by one limiter. */
  method Answers(maxRequests: int, windowSeconds: real, calls: seq<Hit>) returns (answers: seq<bool>)
    requires Ordered(calls)
    ensures |answers| == |calls|
    ensures forall i :: 0 <= i < |calls| ==>
              (answers[i] <==> maxRequests <= 0 || Allows(maxRequests, windowSeconds,
                               LogOfCalls(maxRequests, windowSeconds, calls[..i]), calls[i].key, calls[i].at))
  {
    hide Allows, LogAfter, CountIn, TimesOf, Backed, OnlyKey, ActiveKeys, LogOfCalls;
    NoCalls(maxRequests, windowSeconds);
    answers := [];
    if calls == [] { return; }
    var limiter := new RateLimiter(maxRequests, windowSeconds, calls[0].at);
    var i := 0;
    while i < |calls|
      invariant 0 <= i <= |calls| && |answers| == i
      invariant fresh(limiter) && limiter.Valid()
      invariant limiter.maxRequests == maxRequests && limiter.windowSeconds == windowSeconds
      invariant i < |calls| ==> limiter.latest <= calls[i].at
      invariant limiter.log == LogOfCalls(maxRequests, windowSeconds, calls[..i])
      invariant forall k :: 0 <= k < i ==>
                  (answers[k] <==> maxRequests <= 0 || Allows(maxRequests, windowSeconds,
                                   LogOfCalls(maxRequests, windowSeconds, calls[..k]), calls[k].key, calls[k].at))
    {
      OneMoreCall(maxRequests, windowSeconds, calls[..i], calls[i], calls[i].key);
      assert calls[..i + 1] == calls[..i] + [calls[i]];
      var ok := limiter.Check(calls[i].key, calls[i].at);
      answers := answers + [ok];
      i := i + 1;
    }
  }
}
