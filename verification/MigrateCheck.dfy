/**
 * The startup check of the API against what any runs of the migration runners leave, and what
 * becomes of files that share a version.
 */
module MigrateCheck {
  import opened Wrappers
  import opened Ordering
  import opened Migrate

  // ---------- the check ----------

  /** `SELECT max(version)`: no value over no rows. */
  function MaxVersion(applied: seq<string>): Option<string> {
    if applied == [] then None else
      var rest := MaxVersion(applied[1..]);
      if rest.None? || TextLess(rest.value, applied[0]) then Some(applied[0]) else rest
  }

  /** The version comparison of `init_db` for an API shipped with this list. */
  predicate LooksCurrent(files: seq<string>, db: Db)
    requires files != []
  {
    db.tracked && MaxVersion(db.applied) == Some(files[|files| - 1])
  }

  lemma {:induction false} MaxOfAscending(s: seq<string>)
    requires Ascending(s) && s != []
    ensures MaxVersion(s) == Some(s[|s| - 1])
  {
    if |s| > 1 {
      MaxOfAscending(s[1..]);
      TextLessTotal(s[0], s[|s| - 1]);
    }
  }

  /** Rows are only ever inserted after the table was created. */
  lemma {:induction false} RowsNeedTheTable(all: seq<string>, moves: seq<(nat, Move)>)
    requires Play(all, FRESH, moves).Some?
    ensures var s := Play(all, FRESH, moves).value;
            (s.db.tracked || s.db.applied == []) && forall r :: r in s.runners ==> TableSeen(s.db, s.runners[r])
  {
    if moves != [] { RowsNeedTheTable(all, moves[..|moves| - 1]); }
  }

  predicate TableSeen(db: Db, me: Runner) { me.pc.Tracked? || me.pc.Applying? ==> db.tracked }

  /** No other version of the list is greater as text. */
  ghost predicate Greatest(list: seq<string>, last: string) {
    forall v :: v in list ==> v == last || TextLess(v, last)
  }

  /** In every state any runs reach, the check of an API with this list is `nothing of it is pending`. */
  ghost predicate CheckIsRight(all: seq<string>, files: seq<string>)
    requires files != []
  {
    forall moves :: Play(all, FRESH, moves).Some? ==>
      (LooksCurrent(files, Play(all, FRESH, moves).value.db) <==> Pending(files, Play(all, FRESH, moves).value.db.applied) == [])
  }

  /** In every state any runs reach, the check is `exactly the versions of this list are recorded`. */
  ghost predicate CheckIsStrict(all: seq<string>, files: seq<string>)
    requires files != []
  {
    forall moves :: Play(all, FRESH, moves).Some? ==>
      (LooksCurrent(files, Play(all, FRESH, moves).value.db) <==> Play(all, FRESH, moves).value.db.applied == Distinct(files))
  }

  lemma {:induction false} MaxVersionIsGreatest(s: seq<string>)
    ensures s == [] ==> MaxVersion(s) == None
    ensures s != [] ==> MaxVersion(s).Some? && MaxVersion(s).value in s && Greatest(s, MaxVersion(s).value)
  {
    hide TextLess;
    if s != [] {
      MaxVersionIsGreatest(s[1..]);
      var rest := MaxVersion(s[1..]);
      assert s == [s[0]] + s[1..];
      if rest.Some? {
        TextLessTotal(rest.value, s[0]);
        forall v | v in s[1..] ensures v == s[0] || TextLess(v, s[0]) || !TextLess(rest.value, s[0]) {
          if TextLess(v, rest.value) && TextLess(rest.value, s[0]) { TextLessTransitive(v, rest.value, s[0]); }
        }
      }
    }
  }

  lemma GreatestIsMax(s: seq<string>, last: string)
    ensures MaxVersion(s) == Some(last) <==> last in s && Greatest(s, last)
  {
    hide TextLess, MaxVersion;
    MaxVersionIsGreatest(s);
    if last in s && Greatest(s, last) { TextLessTotal(last, MaxVersion(s).value); }
  }

  // ---------- which tables the runs leave ----------

  lemma {:induction false} RunnersBelow(all: seq<string>, moves: seq<(nat, Move)>, b: nat)
    requires Play(all, FRESH, moves).Some? && forall i :: 0 <= i < |moves| ==> moves[i].0 < b
    ensures forall q :: q in Play(all, FRESH, moves).value.runners ==> q < b
  {
    hide Pending;
    if moves != [] { RunnersBelow(all, moves[..|moves| - 1], b); }
  }

  /** The first n versions are recorded, nobody holds the lock, and n runners have been there. */
  ghost predicate Reached(all: seq<string>, moves: seq<(nat, Move)>, n: nat) {
    && Play(all, FRESH, moves).Some?
    && n <= |Distinct(all)| && Play(all, FRESH, moves).value.db.applied == Distinct(all)[..n]
    && Play(all, FRESH, moves).value.db.lock.None?
    && forall i :: 0 <= i < |moves| ==> moves[i].0 < n
  }

  ghost predicate MovesOf(more: seq<(nat, Move)>, r: nat) {
    forall i :: 0 <= i < |more| ==> more[i].0 == r
  }

  /** A runner goes over the files that are not pending. */
  lemma {:induction false} SkipsTo(all: seq<string>, moves: seq<(nat, Move)>, r: nat, pending: seq<string>, j: nat, db: Db)
      returns (more: seq<(nat, Move)>, idx: nat)
    requires j < |all| && Leads(all, FRESH, moves, r, Runner(|all|, Applying(pending, j, false), []), db)
    requires exists k :: j <= k < |all| && all[k] in pending
    ensures idx < |all| && all[idx] in pending && MovesOf(more, r)
    ensures Leads(all, FRESH, moves + more, r, Runner(|all|, Applying(pending, idx, false), []), db)
    decreases |all| - j
  {
    hide Play, Pending;
    if all[j] in pending {
      more, idx := [], j;
      assert moves + more == moves;
    } else {
      Leap(all, FRESH, moves, r, Runner(|all|, Applying(pending, j, false), []), db, SkipFile);
      var rest;
      rest, idx := SkipsTo(all, moves + [(r, SkipFile)], r, pending, j + 1, db);
      more := [(r, SkipFile)] + rest;
      assert moves + more == moves + [(r, SkipFile)] + rest;
    }
  }

  /** A new runner takes the lock and reads what is pending. */
  lemma Begins(all: seq<string>, moves: seq<(nat, Move)>, n: nat) returns (more: seq<(nat, Move)>, db: Db)
    requires Reached(all, moves, n) && n < |Distinct(all)|
    ensures db == Play(all, FRESH, moves).value.db.(lock := Some(n), tracked := true)
    ensures MovesOf(more, n) && Pending(all, db.applied) != []
    ensures Leads(all, FRESH, moves + more, n, Runner(|all|, Applying(Pending(all, db.applied), 0, false), []), db)
  {
    hide Play, Pending, Distinct;
    var s := Play(all, FRESH, moves).value;
    RunnersBelow(all, moves, n);
    SomePending(all, n);
    assert all[..|all|] == all;
    OneMoreMove(all, FRESH, moves, n, Connect(|all|));
    var begun := moves + [(n, Connect(|all|))];
    var me := Runner(|all|, Connected, []);
    Leap(all, FRESH, begun, n, me, s.db, TryLock);
    me, db, begun := me.(pc := Locked), s.db.(lock := Some(n)), begun + [(n, TryLock)];
    Leap(all, FRESH, begun, n, me, db, EnsureTable);
    me, db, begun := me.(pc := Tracked), db.(tracked := true), begun + [(n, EnsureTable)];
    Leap(all, FRESH, begun, n, me, db, ReadPending);
    more := [(n, Connect(|all|)), (n, TryLock), (n, EnsureTable), (n, ReadPending)];
    assert moves + more == begun + [(n, ReadPending)];
  }

  lemma SomePending(all: seq<string>, n: nat)
    requires n < |Distinct(all)|
    ensures Pending(all, Distinct(all)[..n]) != [] && all != []
  {
    hide Distinct, Pending;
    var d := Distinct(all);
    NothingPending(all, d[..n]);
    assert d[n] in d;
    assert forall k :: 0 <= k < n ==> d[..n][k] == d[k] != d[n];
    assert d[n] !in d[..n];
  }

  /** A runner commits the file it has come to and gives up at the next. */
  lemma CommitsOne(all: seq<string>, run: seq<(nat, Move)>, r: nat, pending: seq<string>, idx: nat, db: Db)
    requires Leads(all, FRESH, run, r, Runner(|all|, Applying(pending, idx, false), []), db) && db.lock == Some(r)
    requires idx < |all| && all[idx] in pending && all[idx] !in db.applied
    ensures Leads(all, FRESH, run + [(r, RunFile), (r, CommitFile), (r, Error), (r, Release)], r, Runner(|all|, Failed, [all[idx]]),
                  Db(None, db.tracked, db.applied + [all[idx]], db.effects + [idx]))
  {
    hide Play, Pending;
    Leap(all, FRESH, run, r, Runner(|all|, Applying(pending, idx, false), []), db, RunFile);
    var a := run + [(r, RunFile)];
    Leap(all, FRESH, a, r, Runner(|all|, Applying(pending, idx, true), []), db, CommitFile);
    var after := db.(applied := db.applied + [all[idx]], effects := db.effects + [idx]);
    var b := a + [(r, CommitFile)];
    Leap(all, FRESH, b, r, Runner(|all|, Applying(pending, idx + 1, false), [] + [all[idx]]), after, Error);
    var c := b + [(r, Error)];
    Leap(all, FRESH, c, r, Runner(|all|, Releasing(None), [] + [all[idx]]), after, Release);
    assert run + [(r, RunFile), (r, CommitFile), (r, Error), (r, Release)] == c + [(r, Release)];
  }

  lemma LeadsMeans(all: seq<string>, moves: seq<(nat, Move)>, r: nat, me: Runner, db: Db)
    requires Leads(all, FRESH, moves, r, me, db)
    ensures Play(all, FRESH, moves).Some? && Play(all, FRESH, moves).value.db == db
  {
  }

  /** A run in which a new runner commits one version more. */
  lemma OneMoreVersion(all: seq<string>, moves: seq<(nat, Move)>, n: nat) returns (next: seq<(nat, Move)>)
    requires Reached(all, moves, n) && n < |Distinct(all)|
    ensures Reached(all, next, n + 1)
  {
    hide Play, Step, Pending, Distinct, Leads;
    var first, db := Begins(all, moves, n);
    var pending := Pending(all, db.applied);
    PendingMembers(all, db.applied);
    assert pending[0] in pending;
    var k :| 0 <= k < |all| && all[k] == pending[0];
    var more, idx := SkipsTo(all, moves + first, n, pending, 0, db);
    CommitsOne(all, moves + first + more, n, pending, idx, db);
    LeadsMeans(all, moves + first + more + [(n, RunFile), (n, CommitFile), (n, Error), (n, Release)], n, Runner(|all|, Failed, [all[idx]]),
               Db(None, db.tracked, db.applied + [all[idx]], db.effects + [idx]));
    var last := [(n, RunFile), (n, CommitFile), (n, Error), (n, Release)];
    next := moves + first + more + last;
    assert next == moves + (first + more + last);
    NowReached(all, moves, first + more + last, n, idx, next);
  }

  lemma NowReached(all: seq<string>, moves: seq<(nat, Move)>, added: seq<(nat, Move)>, n: nat, idx: nat, next: seq<(nat, Move)>)
    requires Reached(all, moves, n) && n < |Distinct(all)| && idx < |all| && next == moves + added && MovesOf(added, n)
    requires Play(all, FRESH, next).Some? && Play(all, FRESH, next).value.db.lock.None?
    requires Play(all, FRESH, next).value.db.applied == Distinct(all)[..n] + [all[idx]]
    ensures Reached(all, next, n + 1)
  {
    hide Play, Distinct;
    RecordedIsBeginning(all, next);
    forall i | 0 <= i < |next| ensures next[i].0 <= n {
      if i >= |moves| { assert next[i] == added[i - |moves|]; } else { assert next[i] == moves[i]; }
    }
  }

  lemma RecordedIsBeginning(all: seq<string>, moves: seq<(nat, Move)>)
    requires Play(all, FRESH, moves).Some?
    ensures Play(all, FRESH, moves).value.db.applied <= Distinct(all)
  {
    MigrationsAreSafe(all, moves);
  }

  /** Every beginning of the versions, in order of first occurrence, is what some runs leave. */
  lemma {:induction false} EveryPrefixIsReached(all: seq<string>, n: nat) returns (moves: seq<(nat, Move)>)
    requires n <= |Distinct(all)|
    ensures Reached(all, moves, n)
  {
    if n == 0 {
      moves := [];
    } else {
      hide Reached;
      moves := EveryPrefixIsReached(all, n - 1);
      moves := OneMoreVersion(all, moves, n - 1);
    }
  }

  /** A reachable state has a beginning of the versions recorded, and without the tracking table none. */
  lemma ReachedIsPrefix(all: seq<string>, files: seq<string>, moves: seq<(nat, Move)>) returns (n: nat)
    requires files != [] && Play(all, FRESH, moves).Some?
    ensures n <= |Distinct(all)| && Play(all, FRESH, moves).value.db.applied == Distinct(all)[..n]
    ensures LooksCurrent(files, Play(all, FRESH, moves).value.db) <==> MaxVersion(Distinct(all)[..n]) == Some(files[|files| - 1])
  {
    hide Play, Step, Distinct;
    RecordedIsBeginning(all, moves);
    RowsNeedTheTable(all, moves);
    n := |Play(all, FRESH, moves).value.db.applied|;
  }

  // ---------- for which lists the check is right ----------

  lemma PartOfDistinct(all: seq<string>, files: seq<string>)
    requires files <= all
    ensures Distinct(files) <= Distinct(all)
  {
    hide Distinct;
    assert all == files + all[|files|..];
    DistinctPrefix(files, all[|files|..]);
  }

  lemma WithinFirst(d: seq<string>, k: nat, n: nat)
    requires NoDuplicates(d) && k < |d| && n <= |d|
    ensures d[k] in d[..n] <==> k < n
  {
    if k < n { assert d[..n][k] == d[k]; }
  }

  /** What the check, and pending, are after the first n versions. */
  lemma CheckOfFirst(all: seq<string>, files: seq<string>, n: nat)
    requires files != [] && files <= all && n <= |Distinct(all)|
    ensures var first := Distinct(all)[..n];
            && (MaxVersion(first) == Some(files[|files| - 1]) <==> files[|files| - 1] in first && Greatest(first, files[|files| - 1]))
            && (Pending(files, first) == [] <==> n >= |Distinct(files)|)
            && (first == Distinct(files) <==> n == |Distinct(files)|)
  {
    hide Greatest, MaxVersion, Pending, Distinct, NoDuplicates;
    var d, own := Distinct(all), Distinct(files);
    GreatestIsMax(d[..n], files[|files| - 1]);
    PartOfDistinct(all, files);
    NothingPending(files, d[..n]);
    PendingOfFirst(d, own, n);
    assert forall v :: v in files <==> v in own;
  }

  lemma PendingOfFirst(d: seq<string>, own: seq<string>, n: nat)
    requires NoDuplicates(d) && own <= d && n <= |d|
    ensures (forall v :: v in own ==> v in d[..n]) <==> n >= |own|
    ensures d[..n] == own <==> n == |own|
  {
    assert |d[..n]| == n && d[..|own|] == own;
    if n < |own| {
      assert own[n] == d[n] && own[n] in own;
      WithinFirst(d, n, n);
    } else {
      assert forall k :: 0 <= k < |own| ==> own[k] == d[..n][k];
    }
  }

  /** The last version of the list is the last of its versions to occur for the first time. */
  predicate LastIsNew(files: seq<string>)
    requires files != []
  {
    var own := Distinct(files);
    own != [] && own[|own| - 1] == files[|files| - 1]
  }

  lemma PlaceOfLast(all: seq<string>, files: seq<string>) returns (k: nat)
    requires files != [] && files <= all
    ensures k < |Distinct(files)| <= |Distinct(all)| && (LastIsNew(files) <==> k == |Distinct(files)| - 1)
    ensures forall n: nat :: n <= |Distinct(all)| ==> (files[|files| - 1] in Distinct(all)[..n] <==> k < n)
  {
    hide Distinct, NoDuplicates;
    var d, own, last := Distinct(all), Distinct(files), files[|files| - 1];
    PartOfDistinct(all, files);
    assert last in own;
    k :| 0 <= k < |own| && own[k] == last;
    WithinFirst(own, |own| - 1, k + 1);
    assert own[..k + 1][k] == last;
    DistinctPlaces(own, k);
    forall n: nat | n <= |d| ensures last in d[..n] <==> k < n { WithinFirst(d, k, n); }
  }

  lemma DistinctPlaces(d: seq<string>, k: nat)
    requires NoDuplicates(d) && k < |d|
    ensures d[|d| - 1] == d[k] <==> k == |d| - 1
  {
  }

  lemma GreatestOfPart(all: seq<string>, n: nat, last: string)
    requires Greatest(all, last) && n <= |all|
    ensures Greatest(all[..n], last)
  {
  }

  /**
   * For any list: the check tells whether anything of an API's list is pending if and only if its
   * last version is the last to occur for the first time in it, and the greatest text among all
   * versions there are.
   */
  lemma StartupCheckCondition(all: seq<string>, files: seq<string>)
    requires files != [] && files <= all
    ensures CheckIsRight(all, files) <==> LastIsNew(files) && Greatest(all, files[|files| - 1])
  {
    hide Play, Greatest, MaxVersion, Pending, LooksCurrent, Distinct, LastIsNew;
    var last := files[|files| - 1];
    var k := PlaceOfLast(all, files);
    SameGreatest(all, last);
    if CheckIsRight(all, files) {
      RightAt(all, files, |Distinct(all)|);
      assert Distinct(all)[..|Distinct(all)|] == Distinct(all);
      GreatestOfPart(Distinct(all), k + 1, last);
      RightAt(all, files, k + 1);
    }
    if LastIsNew(files) && Greatest(all, last) {
      forall moves | Play(all, FRESH, moves).Some?
        ensures LooksCurrent(files, Play(all, FRESH, moves).value.db) <==> Pending(files, Play(all, FRESH, moves).value.db.applied) == []
      {
        var n := ReachedIsPrefix(all, files, moves);
        CheckOfFirst(all, files, n);
        GreatestOfPart(Distinct(all), n, last);
      }
    }
  }

  lemma SameGreatest(all: seq<string>, last: string)
    ensures Greatest(all, last) <==> Greatest(Distinct(all), last)
  {
    hide Distinct, TextLess;
  }

  lemma RightAt(all: seq<string>, files: seq<string>, n: nat)
    requires files != [] && files <= all && n <= |Distinct(all)| && CheckIsRight(all, files)
    ensures files[|files| - 1] in Distinct(all)[..n] && Greatest(Distinct(all)[..n], files[|files| - 1]) <==> n >= |Distinct(files)|
  {
    hide Play, Greatest, MaxVersion, Pending, LooksCurrent, Distinct;
    var moves := EveryPrefixIsReached(all, n);
    var m := ReachedIsPrefix(all, files, moves);
    assert |Distinct(all)[..n]| == n && |Distinct(all)[..m]| == m;
    CheckOfFirst(all, files, n);
  }

  /**
   * The check tells whether exactly the API's versions are recorded if and only if its last version
   * is the last to occur for the first time and the greatest of its list, and the version that comes
   * next, if there is one, is greater still.
   */
  lemma StrictCheckCondition(all: seq<string>, files: seq<string>)
    requires files != [] && files <= all
    ensures CheckIsStrict(all, files) <==>
              && LastIsNew(files) && Greatest(files, files[|files| - 1])
              && (|Distinct(files)| < |Distinct(all)| ==> TextLess(files[|files| - 1], Distinct(all)[|Distinct(files)|]))
  {
    hide Play, Greatest, MaxVersion, Pending, LooksCurrent, TextLess, Distinct, LastIsNew;
    var d, own, last := Distinct(all), Distinct(files), files[|files| - 1];
    var k := |own|;
    var p := PlaceOfLast(all, files);
    PartOfDistinct(all, files);
    assert d[..k] == own;
    SameGreatest(files, last);
    if CheckIsStrict(all, files) {
      StrictAt(all, files, k);
      GreatestOfPart(own, p + 1, last);
      assert own[..p + 1] == d[..p + 1];
      StrictAt(all, files, p + 1);
      assert LastIsNew(files);
      if k < |d| {
        StrictAt(all, files, k + 1);
        LastOf(files);
        NextIsGreater(d, k);
      }
    }
    if LastIsNew(files) && Greatest(files, last) && (k < |d| ==> TextLess(last, d[k])) {
      forall moves | Play(all, FRESH, moves).Some?
        ensures LooksCurrent(files, Play(all, FRESH, moves).value.db) <==> Play(all, FRESH, moves).value.db.applied == own
      {
        var n := ReachedIsPrefix(all, files, moves);
        CheckOfFirst(all, files, n);
        if n > k { NotGreatest(d, n, k, last); }
      }
    }
  }

  lemma LastOf(files: seq<string>)
    requires files != [] && LastIsNew(files)
    ensures Distinct(files) != [] && Distinct(files)[|Distinct(files)| - 1] == files[|files| - 1]
  {
  }

  lemma StrictAt(all: seq<string>, files: seq<string>, n: nat)
    requires files != [] && files <= all && n <= |Distinct(all)| && CheckIsStrict(all, files)
    ensures files[|files| - 1] in Distinct(all)[..n] && Greatest(Distinct(all)[..n], files[|files| - 1]) <==> n == |Distinct(files)|
  {
    hide Play, Greatest, MaxVersion, Pending, LooksCurrent, Distinct;
    var moves := EveryPrefixIsReached(all, n);
    var m := ReachedIsPrefix(all, files, moves);
    assert |Distinct(all)[..n]| == n && |Distinct(all)[..m]| == m;
    CheckOfFirst(all, files, n);
  }

  /** When a last version is the greatest up to its own place but not one further, the next one is greater. */
  lemma NextIsGreater(all: seq<string>, k: nat)
    requires 0 < k < |all| && Greatest(all[..k], all[k - 1]) && !Greatest(all[..k + 1], all[k - 1])
    ensures TextLess(all[k - 1], all[k])
  {
    hide TextLess;
    assert all[..k + 1] == all[..k] + [all[k]];
    TextLessTotal(all[k - 1], all[k]);
  }

  lemma NotGreatest(all: seq<string>, n: nat, k: nat, last: string)
    requires k < n <= |all| && TextLess(last, all[k])
    ensures !Greatest(all[..n], last)
  {
    hide TextLess;
    assert all[..n][k] == all[k] && all[k] in all[..n];
    TextLessTotal(last, all[k]);
  }

  // ---------- lists in ascending order ----------

  lemma AscendingIsDistinct(s: seq<string>)
    requires Ascending(s)
    ensures NoDuplicates(s)
  {
    forall i, j | 0 <= i < j < |s| ensures s[i] != s[j] { TextLessTotal(s[i], s[j]); }
  }

  lemma AscendingMeetsCondition(all: seq<string>)
    requires Ascending(all) && all != []
    ensures Distinct(all) == all && LastIsNew(all) && Greatest(all, all[|all| - 1])
  {
    hide TextLess;
    AscendingIsDistinct(all);
    DistinctOfDistinct(all);
  }

  /**
   * For an ascending list, in every reachable state: the check passes if and only if nothing of the
   * API's list is pending and nothing beyond it has been applied.
   */
  lemma StartupCheckIsExact(all: seq<string>, files: seq<string>, moves: seq<(nat, Move)>)
    requires Ascending(all) && files != [] && files <= all && Play(all, FRESH, moves).Some?
    ensures var db := Play(all, FRESH, moves).value.db;
            LooksCurrent(files, db) <==> Pending(files, db.applied) == [] && |db.applied| <= |files|
  {
    hide Play, Greatest, MaxVersion, Pending, LooksCurrent, TextLess, Distinct, LastIsNew;
    assert Ascending(files) by { assert forall i :: 0 <= i < |files| ==> files[i] == all[i]; }
    AscendingMeetsCondition(all);
    AscendingMeetsCondition(files);
    StrictCheckCondition(all, files);
    var n := ReachedIsPrefix(all, files, moves);
    CheckOfFirst(all, files, n);
    assert CheckIsStrict(all, files);
  }

  /** For the newest list, over all runs: the check is `nothing is pending`. */
  lemma StartupCheckIsSound(all: seq<string>, moves: seq<(nat, Move)>)
    requires Ascending(all) && all != [] && Play(all, FRESH, moves).Some?
    ensures var db := Play(all, FRESH, moves).value.db;
            LooksCurrent(all, db) <==> Pending(all, db.applied) == []
  {
    hide Play, Greatest, LooksCurrent, Distinct, LastIsNew;
    AscendingMeetsCondition(all);
    StartupCheckCondition(all, all);
  }

  lemma ExampleVersions()
    ensures VersionOf("10_a.sql") == "10" && VersionOf("1_z.sql") == "1"
  {
    assert "10_a.sql"[..4] == "10_a" && "10_a"[1..] == "0_a" && "0_a"[1..] == "_a";
    assert "1_z.sql"[..3] == "1_z" && "1_z"[1..] == "_z";
  }

  /**
   * The condition can fail: the names "10_a.sql" and "1_z.sql" sort in that order, so "1" is the
   * latest version while "10" is the greatest text, and with everything applied the check refuses.
   */
  lemma UnequalLengthsNeverPass()
    ensures var names := {"10_a.sql", "1_z.sql"};
            var all := Versions(SortedText(names));
            && all == ["10", "1"] && Pending(all, all) == []
            && (forall lock, effects :: !LooksCurrent(all, Db(lock, true, all, effects)))
            && !Greatest(all, "1")
  {
    hide VersionOf, SortedText, TextLess, MaxVersion, Pending;
    ExampleOrder();
    ExampleVersions();
    ExampleCheck();
    assert "10" in ["10", "1"] && "10" != "1";
    assert Versions(SortedText({"10_a.sql", "1_z.sql"})) == ["10", "1"];
  }

  lemma ExampleOrder()
    ensures SortedText({"10_a.sql", "1_z.sql"}) == ["10_a.sql", "1_z.sql"]
  {
    hide SortedText;
    var sorted := ["10_a.sql", "1_z.sql"];
    assert TextLess("10_a.sql", "1_z.sql") by { assert "10_a.sql"[1..][0] == '0' && "1_z.sql"[1..][0] == '_'; }
    assert Ascending(sorted);
    AscendingUnique(SortedText({"10_a.sql", "1_z.sql"}), sorted);
  }

  lemma ExampleCheck()
    ensures Pending(["10", "1"], ["10", "1"]) == [] && MaxVersion(["10", "1"]) == Some("10") && !TextLess("10", "1")
  {
    var all := ["10", "1"];
    assert all[1..] == ["1"] && ["1"][1..] == [];
    assert Pending(["1"], all) == [];
    assert MaxVersion(["1"]) == Some("1");
    assert TextLess("1", "10") by { assert "1"[1..] == "" && "10"[1..] == "0"; }
    assert !TextLess("10", "1") by { TextLessTotal("1", "10"); }
  }

  // ---------- files that share a version ----------

  ghost predicate AllRun(all: seq<string>, moves: seq<(nat, Move)>) {
    Play(all, FRESH, moves).Some? && forall i: nat :: i < |all| ==> i in Play(all, FRESH, moves).value.db.effects
  }

  /** The effects of all files can be committed, by whatever runs, if and only if no two files share a version. */
  lemma EveryFileCanRun(all: seq<string>)
    ensures (exists moves :: AllRun(all, moves)) <==> NoDuplicates(all)
  {
    hide Play, Distinct;
    if moves :| AllRun(all, moves) {
      forall i: nat, j: nat | i < j < |all| ensures all[i] != all[j] {
        EffectIsExact(all, moves, j);
        assert all[..j][i] == all[i];
      }
    }
    if NoDuplicates(all) {
      DistinctOfDistinct(all);
      var moves := EveryPrefixIsReached(all, |all|);
      assert all[..|all|] == all;
      forall i: nat | i < |all| ensures i in Play(all, FRESH, moves).value.db.effects {
        EffectIsExact(all, moves, i);
        WithinFirst(all, i, i);
      }
      assert AllRun(all, moves);
    }
  }

  /**
   * A file with the version of an earlier one is never run to its end, and yet some runs leave
   * nothing pending and the lock free.
   */
  lemma RepeatedVersionIsSkipped(all: seq<string>, j: nat) returns (moves: seq<(nat, Move)>)
    requires j < |all| && all[j] in all[..j]
    ensures forall other :: Play(all, FRESH, other).Some? ==> j !in Play(all, FRESH, other).value.db.effects
    ensures Play(all, FRESH, moves).Some?
    ensures Pending(all, Play(all, FRESH, moves).value.db.applied) == [] && Play(all, FRESH, moves).value.db.lock.None?
  {
    hide Play, Distinct, Pending;
    forall other | Play(all, FRESH, other).Some? ensures j !in Play(all, FRESH, other).value.db.effects {
      EffectIsExact(all, other, j);
    }
    moves := EveryPrefixIsReached(all, |Distinct(all)|);
    assert Distinct(all)[..|Distinct(all)|] == Distinct(all);
    NothingPending(all, Distinct(all));
  }

  /** For example two files with the version "1": the startup check passes without the second. */
  lemma SecondFileIsSkipped() returns (moves: seq<(nat, Move)>)
    ensures var all := ["1", "1"];
            Play(all, FRESH, moves).Some?
    ensures var all, db := ["1", "1"], Play(["1", "1"], FRESH, moves).value.db;
            Pending(all, db.applied) == [] && LooksCurrent(all, db) && db.lock.None? && 1 !in db.effects
  {
    hide Play, Pending, LooksCurrent;
    var all := ["1", "1"];
    assert all[..1][0] == all[1];
    moves := RepeatedVersionIsSkipped(all, 1);
    assert Distinct(all) == ["1"] by { TwoTheSame(); }
    StartupCheckCondition(all, all);
    assert CheckIsRight(all, all);
  }

  lemma TwoTheSame()
    ensures Distinct(["1", "1"]) == ["1"]
  {
    hide Distinct;
    DistinctOfDistinct(["1"]);
    DistinctStep(["1"], "1");
    assert ["1"] + ["1"] == ["1", "1"] && ["1"][0] in ["1"];
  }
}
