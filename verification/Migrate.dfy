/**
 * The migration runner: any number of runners against one database, an advisory lock taken with a
 * try, one transaction per file, and failures or crashes anywhere.
 *
 * `all` is the newest list of versions; the list a runner was shipped with is a beginning of it.
 */
module Migrate {
  import opened Wrappers
  import opened Ordering

  // ---------- the files ----------

  /** Python's `isdigit`; `digit` says which characters are digits, in Unicode many more than ten. */
  predicate IsDigit(v: string, digit: char -> bool) { v != "" && forall i :: 0 <= i < |v| ==> digit(v[i]) }

  /** The part of a name before the first underscore. */
  function BeforeUnderscore(s: string): string {
    if s == "" || s[0] == '_' then "" else [s[0]] + BeforeUnderscore(s[1..])
  }

  /** `path.stem.split("_", 1)[0]` of a name that ends in `.sql`. */
  function VersionOf(name: string): string {
    BeforeUnderscore(if |name| >= 4 then name[..|name| - 4] else name)
  }

  function Versions(names: seq<string>): (r: seq<string>)
    ensures |r| == |names| && forall i :: 0 <= i < |r| ==> r[i] == VersionOf(names[i])
  {
    if names == [] then [] else [VersionOf(names[0])] + Versions(names[1..])
  }

  /** `migration_files`, as the versions in file name order. */
  method MigrationFiles(names: set<string>, digit: char -> bool) returns (r: Result<seq<string>, string>)
    ensures r.Success? <==> names != {} && forall n :: n in names ==> IsDigit(VersionOf(n), digit)
    ensures r.Success? ==> r.value == Versions(SortedText(names)) && r.value != []
    ensures r.Success? ==> |r.value| == |names|
    ensures r.Success? ==> forall i, v :: 0 <= i < |r.value| && NamesVersion(SortedText(names)[i], v) ==> r.value[i] == v
    ensures forall n, v :: n in names && NamesVersion(n, v) && !IsDigit(v, digit) ==> r.Failure?
  {
    hide VersionOf, IsDigit, SortedText;
    hide NamesVersion;
    forall n, v | NamesVersion(n, v) ensures VersionOf(n) == v { NamedVersion(n, v); }
    var files := SortedText(names);
    SortedTextLength(names);
    if files == [] { return Failure("no migrations found"); }
    var versions: seq<string> := [];
    var i := 0;
    while i < |files|
      invariant 0 <= i <= |files| && |versions| == i
      invariant forall k :: 0 <= k < i ==> versions[k] == VersionOf(files[k]) && IsDigit(versions[k], digit)
    {
      var version := VersionOf(files[i]);
      if !IsDigit(version, digit) {
        assert files[i] in files;
        return Failure("migration file must start with a numeric version");
      }
      versions := versions + [version];
      i := i + 1;
    }
    assert versions == Versions(files);
    forall n | n in names ensures IsDigit(VersionOf(n), digit) {
      assert n in files;
      var k :| 0 <= k < |files| && files[k] == n;
      assert IsDigit(versions[k], digit);
    }
    return Success(versions);
  }

  lemma {:induction false} BeforeFirstUnderscore(v: string, rest: string)
    requires '_' !in v
    ensures BeforeUnderscore(v) == v && BeforeUnderscore(v + "_" + rest) == v
  {
    if v == "" {
      assert v + "_" + rest == "_" + rest;
    } else {
      BeforeFirstUnderscore(v[1..], rest);
      assert (v + "_" + rest)[1..] == v[1..] + "_" + rest && v == [v[0]] + v[1..];
    }
  }

  /** The version of a file name is what stands before the first underscore, or before the suffix. */
  lemma VersionIsBeforeFirstUnderscore(v: string, rest: string)
    requires '_' !in v
    ensures VersionOf(v + "_" + rest + ".sql") == v && VersionOf(v + ".sql") == v
  {
    var a, b := v + "_" + rest + ".sql", v + ".sql";
    assert a[..|a| - 4] == v + "_" + rest && b[..|b| - 4] == v;
    BeforeFirstUnderscore(v, rest);
  }

  /** Which names have a version, said without the function. */
  ghost predicate NamesVersion(name: string, v: string) {
    '_' !in v && (name == v + ".sql" || exists rest: string :: name == v + "_" + rest + ".sql")
  }

  lemma NamedVersion(name: string, v: string)
    requires NamesVersion(name, v)
    ensures VersionOf(name) == v
  {
    hide VersionOf;
    if name == v + ".sql" {
      VersionIsBeforeFirstUnderscore(v, "");
    } else {
      var rest: string :| name == v + "_" + rest + ".sql";
      VersionIsBeforeFirstUnderscore(v, rest);
    }
  }

  lemma {:induction false} BeforeUnderscoreIsPrefix(s: string)
    ensures BeforeUnderscore(s) <= s
  {
    if s != "" && s[0] != '_' { BeforeUnderscoreIsPrefix(s[1..]); }
  }

  lemma VersionIsPrefix(name: string)
    ensures VersionOf(name) <= name
  {
    BeforeUnderscoreIsPrefix(if |name| >= 4 then name[..|name| - 4] else name);
  }

  lemma NamesOrderVersions(a: string, b: string)
    requires TextLess(a, b) && |VersionOf(a)| == |VersionOf(b)| && VersionOf(a) != VersionOf(b)
    ensures TextLess(VersionOf(a), VersionOf(b))
  {
    hide VersionOf;
    VersionIsPrefix(a);
    VersionIsPrefix(b);
    var va, vb := VersionOf(a), VersionOf(b);
    assert a == va + a[|va|..] && b == vb + b[|vb|..];
    TextLessConcat(va, a[|va|..], vb, b[|vb|..]);
  }

  /** Distinct versions of one length come out in ascending order. */
  lemma EqualLengthsAscend(names: set<string>)
    requires NoDuplicates(Versions(SortedText(names)))
    requires forall n, m :: n in names && m in names ==> |VersionOf(n)| == |VersionOf(m)|
    ensures Ascending(Versions(SortedText(names)))
  {
    hide VersionOf, TextLess, SortedText;
    var files, versions := SortedText(names), Versions(SortedText(names));
    forall i, j | 0 <= i < j < |versions| ensures TextLess(versions[i], versions[j]) {
      assert files[i] in files && files[j] in files;
      NamesOrderVersions(files[i], files[j]);
    }
  }

  // ---------- the protocol ----------

  /** `applied` are the rows of the tracking table, `effects` the files whose statements have been committed. */
  datatype Db = Db(lock: Option<nat>, tracked: bool, applied: seq<string>, effects: seq<nat>)

  datatype Pc =
    | Connected
    | Locked
    | Tracked
    | Applying(pending: seq<string>, idx: nat, inTransaction: bool)
    | Releasing(outcome: Option<seq<string>>)
    | Returned(result: seq<string>)
    | Failed
    | Crashed

  /** `files` is the length of the runner's own list, `mine` what it has committed. */
  datatype Runner = Runner(files: nat, pc: Pc, mine: seq<string>)

  datatype State = State(db: Db, runners: map<nat, Runner>)

  /**
   * Connect starts a runner; Error is an exception at any point, Crash the loss of its connection,
   * which also releases the lock and rolls the open transaction back.
   */
  datatype Move = Connect(files: nat) | TryLock | EnsureTable | ReadPending | SkipFile | RunFile | CommitFile
                | FinishFiles | Release | Error | Crash

  function Pending(files: seq<string>, applied: seq<string>): seq<string> {
    if files == [] then []
    else (if files[0] in applied then [] else [files[0]]) + Pending(files[1..], applied)
  }

  predicate Holds(pc: Pc) { pc.Locked? || pc.Tracked? || pc.Applying? || pc.Releasing? }

  function With(s: State, r: nat, runner: Runner): State { s.(runners := s.runners[r := runner]) }

  function Unlocked(s: State, r: nat): State {
    if s.db.lock == Some(r) then s.(db := s.db.(lock := None)) else s
  }

  /** The next state when runner r makes this move, if it can. */
  function Step(all: seq<string>, s: State, r: nat, m: Move): Option<State> {
    if m.Connect? then
      if r !in s.runners && 1 <= m.files <= |all| then Some(With(s, r, Runner(m.files, Connected, []))) else None
    else if r !in s.runners || s.runners[r].files > |all| then None
    else
      var me := s.runners[r];
      match (m, me.pc)
      case (TryLock, Connected) =>
        if s.db.lock.None? then Some(With(s.(db := s.db.(lock := Some(r))), r, me.(pc := Locked)))
        else Some(With(s, r, me.(pc := Failed)))
      case (EnsureTable, Locked) =>
        Some(With(s.(db := s.db.(tracked := true)), r, me.(pc := Tracked)))
      case (ReadPending, Tracked) =>
        var pending := Pending(all[..me.files], s.db.applied);
        Some(With(s, r, me.(pc := if pending == [] then Releasing(Some([])) else Applying(pending, 0, false))))
      case (SkipFile, Applying(pending, idx, open)) =>
        if !open && idx < me.files && all[idx] !in pending
        then Some(With(s, r, me.(pc := Applying(pending, idx + 1, false)))) else None
      case (RunFile, Applying(pending, idx, open)) =>
        if !open && idx < me.files && all[idx] in pending
        then Some(With(s, r, me.(pc := Applying(pending, idx, true)))) else None
      case (CommitFile, Applying(pending, idx, open)) =>
        // The INSERT fails on a version that is already there, and its transaction with it.
        if open && idx < me.files && all[idx] !in s.db.applied
        then Some(With(s.(db := s.db.(applied := s.db.applied + [all[idx]], effects := s.db.effects + [idx])),
                       r, me.(pc := Applying(pending, idx + 1, false), mine := me.mine + [all[idx]])))
        else None
      case (FinishFiles, Applying(pending, idx, open)) =>
        if !open && idx == me.files then Some(With(s, r, me.(pc := Releasing(Some(pending))))) else None
      case (Release, Releasing(result)) =>
        Some(With(Unlocked(s, r), r, me.(pc := if result.Some? then Returned(result.value) else Failed)))
      case (Error, Connected) => Some(With(s, r, me.(pc := Failed)))
      case (Error, pc) => if Holds(pc) && !pc.Releasing? then Some(With(s, r, me.(pc := Releasing(None)))) else None
      case (Crash, pc) =>
        if Holds(pc) || pc.Connected? then Some(With(Unlocked(s, r), r, me.(pc := Crashed))) else None
      case _ => None
  }

  /** A run: who moves, and how. */
  function Play(all: seq<string>, s: State, moves: seq<(nat, Move)>): Option<State> {
    if moves == [] then Some(s) else
      var before := Play(all, s, moves[..|moves| - 1]);
      if before.None? then None else Step(all, before.value, moves[|moves| - 1].0, moves[|moves| - 1].1)
  }

  lemma OneMoreMove(all: seq<string>, s: State, moves: seq<(nat, Move)>, r: nat, m: Move)
    requires Play(all, s, moves).Some? && Step(all, Play(all, s, moves).value, r, m).Some?
    ensures Play(all, s, moves + [(r, m)]) == Step(all, Play(all, s, moves).value, r, m)
  {
    assert (moves + [(r, m)])[..|moves|] == moves;
  }

  // ---------- pending versions ----------

  lemma {:induction false} PendingMembers(files: seq<string>, applied: seq<string>)
    ensures forall v :: v in Pending(files, applied) <==> v in files && v !in applied
  {
    if files != [] {
      PendingMembers(files[1..], applied);
      assert files == [files[0]] + files[1..];
    }
  }

  lemma NothingPending(files: seq<string>, applied: seq<string>)
    ensures Pending(files, applied) == [] <==> forall v :: v in files ==> v in applied
  {
    PendingMembers(files, applied);
    if Pending(files, applied) != [] { assert Pending(files, applied)[0] in Pending(files, applied); }
  }

  lemma {:induction false} PendingConcat(a: seq<string>, b: seq<string>, applied: seq<string>)
    ensures Pending(a + b, applied) == Pending(a, applied) + Pending(b, applied)
  {
    if a == [] {
      assert a + b == b;
    } else {
      assert (a + b)[1..] == a[1..] + b;
      PendingConcat(a[1..], b, applied);
    }
  }

  lemma NextFile(files: seq<string>, idx: nat, applied: seq<string>)
    requires idx < |files|
    ensures Pending(files[..idx + 1], applied) ==
              Pending(files[..idx], applied) + if files[idx] in applied then [] else [files[idx]]
  {
    assert files[..idx + 1] == files[..idx] + [files[idx]];
    PendingConcat(files[..idx], [files[idx]], applied);
    assert [files[idx]][1..] == [];
  }

  // ---------- the invariant ----------

  /** What was pending of the first idx files over the table as it was before has been committed. */
  ghost predicate CommittedTo(all: seq<string>, before: seq<string>, mine: seq<string>, idx: nat)
    requires idx <= |all|
  {
    && mine == Pending(all[..idx], before)
    && Distinct(all[..idx]) <= before + mine
    && (mine != [] ==> before + mine == Distinct(all[..idx]))
  }

  /**
   * A runner at work has committed its pending versions up to the current file. As soon as it has
   * committed one, the table holds exactly the versions of the files up to there, in the order of
   * first occurrence; a file that repeats a version is where it stops.
   */
  ghost predicate AtWork(all: seq<string>, applied: seq<string>, me: Runner)
    requires me.files <= |all| && me.pc.Applying?
  {
    && me.pc.idx <= me.files
    && (exists before :: Since(all, before, applied, me))
    && (me.pc.inTransaction ==> me.pc.idx < me.files && all[me.pc.idx] in me.pc.pending)
  }

  /** `before` is the table as the runner read it. */
  ghost predicate Since(all: seq<string>, before: seq<string>, applied: seq<string>, me: Runner)
    requires me.pc.Applying? && me.pc.idx <= me.files <= |all|
  {
    && me.pc.pending == Pending(all[..me.files], before)
    && applied == before + me.mine && CommittedTo(all, before, me.mine, me.pc.idx)
  }

  /** What a runner that is not at work knows stays true while the table grows. */
  ghost predicate Done(all: seq<string>, applied: seq<string>, me: Runner)
    requires me.files <= |all|
  {
    match me.pc
    case Releasing(Some(result)) => me.mine == result && Pending(all[..me.files], applied) == []
    case Returned(result) => me.mine == result && Pending(all[..me.files], applied) == []
    case Releasing(None) => true
    case Failed => true
    case Crashed => true
    case Applying(_, _, _) => true
    case _ => me.mine == []
  }

  ghost predicate RunnerOk(all: seq<string>, db: Db, me: Runner) {
    me.files <= |all| && Done(all, db.applied, me) && (me.pc.Applying? ==> AtWork(all, db.applied, me))
  }

  /** The first file of its version. */
  predicate IsFirst(all: seq<string>, i: int) { 0 <= i < |all| && all[i] !in all[..i] }

  /** Each recorded version stands for the effect of the first file that has it. */
  ghost predicate EffectsOk(all: seq<string>, db: Db) {
    && |db.effects| == |db.applied|
    && forall k :: 0 <= k < |db.effects| ==> IsFirst(all, db.effects[k]) && all[db.effects[k]] == db.applied[k]
  }

  ghost predicate Inv(all: seq<string>, s: State) {
    && s.db.applied <= Distinct(all) && EffectsOk(all, s.db)
    && (forall r :: r in s.runners ==> RunnerOk(all, s.db, s.runners[r]))
    && (forall r :: r in s.runners && Holds(s.runners[r].pc) ==> s.db.lock == Some(r))
    && (s.db.lock.Some? ==> s.db.lock.value in s.runners && Holds(s.runners[s.db.lock.value].pc))
  }

  lemma DistinctNext(all: seq<string>, idx: nat)
    requires idx < |all|
    ensures Distinct(all[..idx + 1]) == if all[idx] in all[..idx] then Distinct(all[..idx]) else Distinct(all[..idx]) + [all[idx]]
    ensures Distinct(all[..idx + 1]) <= Distinct(all)
  {
    hide Distinct;
    CutAt(all, idx);
    DistinctOfParts(all[..idx], all[idx], all[idx + 1..]);
  }

  lemma CutAt(all: seq<string>, idx: nat)
    requires idx < |all|
    ensures all[..idx + 1] == all[..idx] + [all[idx]] && all == all[..idx] + [all[idx]] + all[idx + 1..]
  {
  }

  lemma DistinctOfParts(a: seq<string>, x: string, b: seq<string>)
    ensures Distinct(a + [x]) == if x in a then Distinct(a) else Distinct(a) + [x]
    ensures Distinct(a + [x]) <= Distinct(a + [x] + b)
  {
    hide Distinct;
    DistinctStep(a, x);
    DistinctPrefix(a + [x], b);
  }

  /** Where a beginning of the distinct versions meets the next file. */
  lemma NextVersion(all: seq<string>, idx: nat, applied: seq<string>)
    requires idx < |all| && Distinct(all[..idx]) <= applied <= Distinct(all)
    ensures all[idx] !in applied ==>
              applied == Distinct(all[..idx]) && applied + [all[idx]] == Distinct(all[..idx + 1]) <= Distinct(all) && IsFirst(all, idx)
    ensures all[idx] in applied ==>
              Distinct(all[..idx + 1]) <= applied && (applied == Distinct(all[..idx]) ==> applied == Distinct(all[..idx + 1]))
  {
    DistinctNext(all, idx);
    if all[idx] in all[..idx] {
      InPrefix(Distinct(all[..idx]), applied, all[idx]);
    } else {
      PlaceOfNext(Distinct(all[..idx]), applied, Distinct(all), all[idx]);
      if all[idx] in applied { NotWhole(Distinct(all[..idx]), applied, all[idx]); }
    }
  }

  lemma InPrefix(here: seq<string>, applied: seq<string>, x: string)
    requires here <= applied && x in here
    ensures x in applied
  {
  }

  lemma NotWhole(here: seq<string>, applied: seq<string>, x: string)
    requires here + [x] <= applied
    ensures applied != here
  {
  }

  lemma PlaceOfNext(here: seq<string>, applied: seq<string>, whole: seq<string>, x: string)
    requires here <= applied <= whole && here + [x] <= whole && x !in here
    ensures x in applied <==> here + [x] <= applied
    ensures x !in applied ==> applied == here
  {
    assert whole[|here|] == (here + [x])[|here|] == x;
    if |applied| > |here| {
      assert applied[|here|] == whole[|here|] && applied[|here|] in applied;
    } else {
      assert applied == here;
    }
  }

  lemma DoneGrows(all: seq<string>, applied: seq<string>, more: seq<string>, me: Runner)
    requires me.files <= |all| && Done(all, applied, me) && applied <= more
    ensures Done(all, more, me)
  {
    hide Pending;
    NothingPending(all[..me.files], applied);
    NothingPending(all[..me.files], more);
    assert forall v :: v in applied ==> v in more;
  }

  // ---------- what each move keeps ----------

  /** A move that commits nothing keeps the invariant if it leaves the mover and the lock in order. */
  lemma FrameKeeps(all: seq<string>, s: State, s2: State, r: nat, me: Runner)
    requires Inv(all, s) && s2.runners == s.runners[r := me] && RunnerOk(all, s2.db, me)
    requires s2.db.applied == s.db.applied && s2.db.effects == s.db.effects
    requires if Holds(me.pc) then s2.db.lock == Some(r) && (s.db.lock.None? || s.db.lock == Some(r))
             else s2.db.lock == (if s.db.lock == Some(r) then None else s.db.lock)
    ensures Inv(all, s2)
  {
    hide Done, AtWork, Distinct, IsFirst;
    forall q | q in s2.runners ensures RunnerOk(all, s2.db, s2.runners[q]) {
      if q != r { assert RunnerOk(all, s.db, s.runners[q]); }
    }
  }

  lemma NothingCommitted(all: seq<string>, applied: seq<string>)
    ensures CommittedTo(all, applied, [], 0) && applied + [] == applied
  {
    assert all[..0] == [];
  }

  lemma ReadPendingKeeps(all: seq<string>, s: State, r: nat)
    requires Inv(all, s) && Step(all, s, r, ReadPending).Some?
    ensures Inv(all, Step(all, s, r, ReadPending).value)
  {
    var me, s2 := s.runners[r], Step(all, s, r, ReadPending).value;
    var me2 := s2.runners[r];
    assert s2 == With(s, r, me2) && me2.mine == [] && me2.files == me.files;
    assert RunnerOk(all, s.db, me);
    NothingCommitted(all, s.db.applied);
    assert me2.pc.Applying? ==> Since(all, s.db.applied, s.db.applied, me2);
    hide Step, Inv;
    FrameKeeps(all, s, s2, r, me2);
  }

  lemma SkipKeeps(all: seq<string>, s: State, r: nat)
    requires Inv(all, s) && Step(all, s, r, SkipFile).Some?
    ensures Inv(all, Step(all, s, r, SkipFile).value)
  {
    var me, s2 := s.runners[r], Step(all, s, r, SkipFile).value;
    var me2 := me.(pc := Applying(me.pc.pending, me.pc.idx + 1, false));
    assert s2 == With(s, r, me2);
    assert RunnerOk(all, s.db, me);
    hide Step, Inv, Done;
    SkippedAtWork(all, s.db.applied, me);
    assert Done(all, s.db.applied, me2) by { ApplyingIsDone(all, s.db.applied, me2); }
    FrameKeeps(all, s, s2, r, me2);
  }

  lemma ApplyingIsDone(all: seq<string>, applied: seq<string>, me: Runner)
    requires me.files <= |all| && me.pc.Applying?
    ensures Done(all, applied, me)
  {
  }

  /** A file that is not pending has a version that was recorded before the runner began. */
  lemma SkippedAtWork(all: seq<string>, applied: seq<string>, me: Runner)
    requires me.files <= |all| && me.pc.Applying? && AtWork(all, applied, me) && applied <= Distinct(all)
    requires me.pc.idx < me.files && all[me.pc.idx] !in me.pc.pending
    ensures AtWork(all, applied, me.(pc := Applying(me.pc.pending, me.pc.idx + 1, false)))
  {
    hide Distinct, Pending;
    var idx := me.pc.idx;
    var before :| Since(all, before, applied, me);
    PendingMembers(all[..me.files], before);
    assert all[..me.files][idx] == all[idx] && all[idx] in all[..me.files];
    NextFile(all, idx, before);
    NextVersion(all, idx, applied);
    assert Since(all, before, applied, me.(pc := Applying(me.pc.pending, idx + 1, false)));
  }

  lemma RunKeeps(all: seq<string>, s: State, r: nat)
    requires Inv(all, s) && Step(all, s, r, RunFile).Some?
    ensures Inv(all, Step(all, s, r, RunFile).value)
  {
    var me, s2 := s.runners[r], Step(all, s, r, RunFile).value;
    var me2 := me.(pc := Applying(me.pc.pending, me.pc.idx, true));
    assert s2 == With(s, r, me2);
    assert RunnerOk(all, s.db, me);
    hide Step, Inv, CommittedTo, Pending, Distinct;
    var before :| Since(all, before, s.db.applied, me);
    assert Since(all, before, s.db.applied, me2);
    FrameKeeps(all, s, s2, r, me2);
  }

  lemma OneMoreCommitted(all: seq<string>, before: seq<string>, mine: seq<string>, idx: nat)
    requires idx < |all| && CommittedTo(all, before, mine, idx) && before + mine <= Distinct(all)
    requires all[idx] !in before + mine
    ensures CommittedTo(all, before, mine + [all[idx]], idx + 1)
    ensures IsFirst(all, idx) && before + (mine + [all[idx]]) <= Distinct(all)
  {
    hide Distinct, Pending, IsFirst;
    NextVersion(all, idx, before + mine);
    NextFile(all, idx, before);
    Regrouped(before, mine, all[idx]);
  }

  lemma Regrouped(before: seq<string>, mine: seq<string>, version: string)
    ensures before + mine + [version] == before + (mine + [version])
    ensures version !in before + mine ==> version !in before
  {
  }

  /** The file whose transaction commits is the first of its version, and next in order. */
  lemma CommittedAtWork(all: seq<string>, applied: seq<string>, me: Runner)
    requires me.files <= |all| && me.pc.Applying? && AtWork(all, applied, me) && applied <= Distinct(all)
    requires me.pc.idx < me.files && all[me.pc.idx] !in applied
    ensures var idx := me.pc.idx;
            && IsFirst(all, idx) && applied + [all[idx]] <= Distinct(all)
            && AtWork(all, applied + [all[idx]], me.(pc := Applying(me.pc.pending, idx + 1, false), mine := me.mine + [all[idx]]))
  {
    hide Distinct, Pending, IsFirst, CommittedTo, AtWork;
    var idx := me.pc.idx;
    var before := TableRead(all, applied, me);
    OneMoreCommitted(all, before, me.mine, idx);
    Regrouped(before, me.mine, all[idx]);
    StillAtWork(all, before, applied + [all[idx]], me.(pc := Applying(me.pc.pending, idx + 1, false), mine := me.mine + [all[idx]]));
  }

  lemma TableRead(all: seq<string>, applied: seq<string>, me: Runner) returns (before: seq<string>)
    requires me.files <= |all| && me.pc.Applying? && AtWork(all, applied, me)
    ensures me.pc.idx <= me.files && Since(all, before, applied, me)
  {
    before :| Since(all, before, applied, me);
  }

  lemma StillAtWork(all: seq<string>, before: seq<string>, applied: seq<string>, me: Runner)
    requires me.pc.Applying? && me.pc.idx <= me.files <= |all| && !me.pc.inTransaction && Since(all, before, applied, me)
    ensures AtWork(all, applied, me)
  {
  }

  lemma EffectsGrow(all: seq<string>, db: Db, db2: Db, idx: nat)
    requires EffectsOk(all, db) && IsFirst(all, idx)
    requires db2.applied == db.applied + [all[idx]] && db2.effects == db.effects + [idx]
    ensures EffectsOk(all, db2)
  {
    var n := |db.effects|;
    forall k | 0 <= k < n + 1 ensures db2.effects[k] < |all| && IsFirst(all, db2.effects[k]) && all[db2.effects[k]] == db2.applied[k] {
      if k < n { assert db2.effects[k] == db.effects[k] && db2.applied[k] == db.applied[k]; }
    }
  }

  /** What a commit changes. */
  lemma CommitStep(all: seq<string>, s: State, r: nat)
    requires Step(all, s, r, CommitFile).Some?
    ensures r in s.runners && s.runners[r].pc.Applying? && s.runners[r].pc.idx < s.runners[r].files <= |all|
    ensures var me := s.runners[r];
            var version := all[me.pc.idx];
            && version !in s.db.applied
            && Step(all, s, r, CommitFile).value ==
                 With(s.(db := s.db.(applied := s.db.applied + [version], effects := s.db.effects + [me.pc.idx])),
                      r, me.(pc := Applying(me.pc.pending, me.pc.idx + 1, false), mine := me.mine + [version]))
  {
  }

  lemma CommitKeeps(all: seq<string>, s: State, r: nat)
    requires Inv(all, s) && Step(all, s, r, CommitFile).Some?
    ensures Inv(all, Step(all, s, r, CommitFile).value)
  {
    hide Step, Done, AtWork, Distinct, IsFirst, EffectsOk;
    CommitStep(all, s, r);
    var me, s2 := s.runners[r], Step(all, s, r, CommitFile).value;
    assert RunnerOk(all, s.db, me);
    CommittedAtWork(all, s.db.applied, me);
    ApplyingIsDone(all, s2.db.applied, s2.runners[r]);
    EffectsGrow(all, s.db, s2.db, me.pc.idx);
    forall q | q in s2.runners ensures RunnerOk(all, s2.db, s2.runners[q]) {
      if q != r {
        assert RunnerOk(all, s.db, s.runners[q]) && !Holds(s.runners[q].pc);
        DoneGrows(all, s.db.applied, s2.db.applied, s.runners[q]);
      }
    }
  }

  /** At the end of its list a runner has committed all that was pending, and nothing is. */
  lemma FinishedIsDone(all: seq<string>, applied: seq<string>, me: Runner)
    requires me.files <= |all| && me.pc.Applying? && AtWork(all, applied, me) && me.pc.idx == me.files
    ensures me.mine == me.pc.pending && Pending(all[..me.files], applied) == []
  {
    hide Distinct, Pending;
    var before :| Since(all, before, applied, me);
    PendingMembers(all[..me.files], before);
    NothingPending(all[..me.files], applied);
    forall v | v in all[..me.files] ensures v in applied {
      if v !in before { assert v in me.mine; }
    }
  }

  lemma FinishStep(all: seq<string>, s: State, r: nat)
    requires Step(all, s, r, FinishFiles).Some?
    ensures r in s.runners && s.runners[r].pc.Applying? && s.runners[r].pc.idx == s.runners[r].files <= |all|
    ensures var me := s.runners[r];
            Step(all, s, r, FinishFiles).value == With(s, r, me.(pc := Releasing(Some(me.pc.pending))))
  {
  }

  lemma FinishKeeps(all: seq<string>, s: State, r: nat)
    requires Inv(all, s) && Step(all, s, r, FinishFiles).Some?
    ensures Inv(all, Step(all, s, r, FinishFiles).value)
  {
    hide Step, AtWork, Distinct, EffectsOk, Pending;
    FinishStep(all, s, r);
    var me, s2 := s.runners[r], Step(all, s, r, FinishFiles).value;
    assert RunnerOk(all, s.db, me);
    FinishedIsDone(all, s.db.applied, me);
    FrameKeeps(all, s, s2, r, s2.runners[r]);
  }

  lemma OtherMovesKeep(all: seq<string>, s: State, r: nat, m: Move)
    requires Inv(all, s) && Step(all, s, r, m).Some?
    requires m.Connect? || m.TryLock? || m.EnsureTable? || m.Release? || m.Error? || m.Crash?
    ensures Inv(all, Step(all, s, r, m).value)
  {
    hide Distinct, AtWork, Pending;
    var s2 := Step(all, s, r, m).value;
    if !m.Connect? { assert RunnerOk(all, s.db, s.runners[r]); }
    assert RunnerOk(all, s2.db, s2.runners[r]);
    FrameKeeps(all, s, s2, r, s2.runners[r]);
  }

  /** Every move of every runner keeps the invariant, and what is committed stays. */
  lemma StepKeeps(all: seq<string>, s: State, r: nat, m: Move)
    requires Inv(all, s) && Step(all, s, r, m).Some?
    ensures Inv(all, Step(all, s, r, m).value)
    ensures s.db.applied <= Step(all, s, r, m).value.db.applied
  {
    hide Inv, Pending;
    match m
    case ReadPending => ReadPendingKeeps(all, s, r);
    case CommitFile => CommitKeeps(all, s, r);
    case SkipFile => SkipKeeps(all, s, r);
    case RunFile => RunKeeps(all, s, r);
    case FinishFiles => FinishKeeps(all, s, r);
    case _ => OtherMovesKeep(all, s, r, m);
  }

  const FRESH := State(Db(None, false, [], []), map[])

  lemma {:induction false} RunsKeep(all: seq<string>, s: State, moves: seq<(nat, Move)>)
    requires Inv(all, s) && Play(all, s, moves).Some?
    ensures Inv(all, Play(all, s, moves).value)
    ensures s.db.applied <= Play(all, s, moves).value.db.applied
  {
    hide Inv, Step;
    if moves != [] {
      RunsKeep(all, s, moves[..|moves| - 1]);
      StepKeeps(all, Play(all, s, moves[..|moves| - 1]).value, moves[|moves| - 1].0, moves[|moves| - 1].1);
    }
  }

  lemma FreshInv(all: seq<string>)
    ensures Inv(all, FRESH)
  {
    hide Distinct;
  }

  // ---------- what the runners promise ----------

  ghost predicate OneWorks(s: State) {
    forall q, r :: q in s.runners && r in s.runners && Holds(s.runners[q].pc) && Holds(s.runners[r].pc) ==> q == r
  }

  ghost predicate ReturnsAreTrue(all: seq<string>, s: State) {
    forall r :: r in s.runners && s.runners[r].pc.Returned? ==>
      && s.runners[r].files <= |all|
      && s.runners[r].mine == s.runners[r].pc.result
      && Pending(all[..s.runners[r].files], s.db.applied) == []
  }

  /**
   * In every state any runs reach from a fresh database, whatever the list: the recorded versions
   * are a beginning of the versions in order of first occurrence, each once; at most one runner
   * works at a time; and a runner that returned has reported exactly what it committed and left
   * nothing of its list pending.
   */
  lemma MigrationsAreSafe(all: seq<string>, moves: seq<(nat, Move)>)
    requires Play(all, FRESH, moves).Some?
    ensures var s := Play(all, FRESH, moves).value;
            NoDuplicates(s.db.applied) && s.db.applied <= Distinct(all) && OneWorks(s) && ReturnsAreTrue(all, s)
  {
    hide Play, Step, AtWork, Distinct, Pending, EffectsOk;
    FreshInv(all);
    RunsKeep(all, FRESH, moves);
    var s := Play(all, FRESH, moves).value;
    PrefixHasNoDuplicates(s.db.applied, Distinct(all));
    assert forall r :: r in s.runners ==> RunnerOk(all, s.db, s.runners[r]);
  }

  lemma PrefixHasNoDuplicates<T>(s: seq<T>, t: seq<T>)
    requires s <= t && NoDuplicates(t)
    ensures NoDuplicates(s)
  {
    assert forall i :: 0 <= i < |s| ==> s[i] == t[i];
  }

  /** No file's effect is committed twice, and it is committed exactly when its version is recorded and no earlier file has it. */
  lemma EffectIsExact(all: seq<string>, moves: seq<(nat, Move)>, i: nat)
    requires Play(all, FRESH, moves).Some? && i < |all|
    ensures var db := Play(all, FRESH, moves).value.db;
            NoDuplicates(db.effects) && (i in db.effects <==> IsFirst(all, i) && all[i] in db.applied)
  {
    hide Play, Step, Distinct, RunnerOk;
    FreshInv(all);
    RunsKeep(all, FRESH, moves);
    MigrationsAreSafe(all, moves);
    var db := Play(all, FRESH, moves).value.db;
    EffectsAreOnce(all, db);
    if IsFirst(all, i) && all[i] in db.applied {
      var k :| 0 <= k < |db.applied| && db.applied[k] == all[i];
      FirstIsUnique(all, i, db.effects[k]);
    }
  }

  lemma EffectsAreOnce(all: seq<string>, db: Db)
    requires EffectsOk(all, db) && NoDuplicates(db.applied)
    ensures NoDuplicates(db.effects)
    ensures forall i :: i in db.effects ==> IsFirst(all, i) && all[i] in db.applied
  {
    forall i, j | 0 <= i < j < |db.effects| ensures db.effects[i] != db.effects[j] {
      assert db.applied[i] != db.applied[j];
    }
    forall i | i in db.effects ensures IsFirst(all, i) && all[i] in db.applied {
      var k :| 0 <= k < |db.effects| && db.effects[k] == i;
      assert db.applied[k] == all[i];
    }
  }

  lemma FirstIsUnique(all: seq<string>, i: nat, j: nat)
    requires IsFirst(all, i) && IsFirst(all, j) && all[i] == all[j]
    ensures i == j
  {
    forall k | 0 <= k < j ensures all[k] in all[..j] { assert all[..j][k] == all[k]; }
    forall k | 0 <= k < i ensures all[k] in all[..i] { assert all[..i][k] == all[k]; }
  }

  /** Once one runner has returned, a later runner with no longer list finds nothing to do, whatever happens between. */
  lemma LaterRunnersFindNothing(all: seq<string>, s: State, r: nat, moves: seq<(nat, Move)>, q: nat)
    requires Inv(all, s) && r in s.runners && s.runners[r].pc.Returned?
    requires Play(all, s, moves).Some?
    requires q in Play(all, s, moves).value.runners && Play(all, s, moves).value.runners[q].pc.Tracked?
    requires Play(all, s, moves).value.runners[q].files <= s.runners[r].files
    ensures var t := Play(all, s, moves).value;
            var next := Step(all, t, q, ReadPending);
            next.Some? && next.value.runners[q].pc == Releasing(Some([])) && next.value.db == t.db
  {
    hide Play, AtWork, Distinct, Pending, EffectsOk;
    RunsKeep(all, s, moves);
    var t := Play(all, s, moves).value;
    assert RunnerOk(all, s.db, s.runners[r]) && RunnerOk(all, t.db, t.runners[q]);
    var mine, theirs := all[..t.runners[q].files], all[..s.runners[r].files];
    assert mine == theirs[..|mine|];
    StillNothing(mine, theirs, s.db.applied, t.db.applied);
    ReadNothing(all, t, q);
  }

  lemma StillNothing(mine: seq<string>, theirs: seq<string>, applied: seq<string>, more: seq<string>)
    requires mine <= theirs && applied <= more && Pending(theirs, applied) == []
    ensures Pending(mine, more) == []
  {
    NothingPending(theirs, applied);
    NothingPending(mine, more);
    assert forall v :: v in mine ==> v in theirs;
    assert forall v :: v in applied ==> v in more;
  }

  lemma ReadNothing(all: seq<string>, t: State, q: nat)
    requires q in t.runners && t.runners[q].pc.Tracked? && t.runners[q].files <= |all|
    requires Pending(all[..t.runners[q].files], t.db.applied) == []
    ensures Step(all, t, q, ReadPending) == Some(With(t, q, t.runners[q].(pc := Releasing(Some([])))))
  {
  }

  /** A runner at this place, with the database this, at the end of these moves. */
  ghost predicate Leads(all: seq<string>, s: State, moves: seq<(nat, Move)>, r: nat, me: Runner, db: Db) {
    var t := Play(all, s, moves);
    t.Some? && t.value.db == db && r in t.value.runners && t.value.runners[r] == me
  }

  /** One move of r on top of a run. */
  lemma Leap(all: seq<string>, s: State, moves: seq<(nat, Move)>, r: nat, me: Runner, db: Db, m: Move)
    requires Leads(all, s, moves, r, me, db)
    ensures var t := Step(all, Play(all, s, moves).value, r, m);
            t.Some? && r in t.value.runners ==> Leads(all, s, moves + [(r, m)], r, t.value.runners[r], t.value.db)
  {
    hide Play, Step;
    var t := Step(all, Play(all, s, moves).value, r, m);
    if t.Some? { OneMoreMove(all, s, moves, r, m); }
  }
}
