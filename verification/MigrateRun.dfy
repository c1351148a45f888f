/** `apply_pending` as it runs: its loop over the files, every step a move of the protocol. */
module MigrateRun {
  import opened Wrappers
  import opened Ordering
  import opened Migrate

  /** The places of the pending files among the first n. */
  function PendingAt(files: seq<string>, n: nat, applied: seq<string>): seq<nat>
    requires n <= |files|
  {
    if n == 0 then [] else PendingAt(files, n - 1, applied) + if files[n - 1] in applied then [] else [n - 1]
  }

  /** Every version of this list can be committed: no statement fails, and none comes twice. */
  ghost predicate AllApply(pending: seq<string>, broken: set<string>) {
    (forall v :: v in pending ==> v !in broken) && NoDuplicates(pending)
  }

  /** The loop stopped at this file, whose statements fail or whose version was committed just before. */
  ghost predicate StoppedAt(files: seq<string>, before: seq<string>, db: Db, effects: seq<nat>, broken: set<string>, idx: int) {
    && 0 <= idx < |files| && files[idx] !in before
    && (files[idx] in broken || files[idx] in Pending(files[..idx], before))
    && AllApply(Pending(files[..idx], before), broken)
    && db.applied == before + Pending(files[..idx], before) && db.effects == effects + PendingAt(files, idx, before)
  }

  class Database {
    var db: Db

    constructor ()
      ensures db == FRESH.db
    {
      db := FRESH.db;
    }

    /**
     * One runner with nobody else moving meanwhile. `broken` are the files whose SQL fails. The run
     * is a run of the protocol; it applies the pending files in order and reports exactly them, or
     * stops at the first that fails or repeats a version.
     */
    method ApplyPending(all: seq<string>, files: seq<string>, r: nat, broken: set<string>, ghost s: State)
        returns (result: Result<seq<string>, string>, ghost moves: seq<(nat, Move)>, ghost me: Runner)
      requires files != [] && files <= all
      requires s.db == db && r in s.runners && s.runners[r] == Runner(|files|, Connected, [])
      modifies this
      ensures Leads(all, s, moves, r, me, db)
      ensures me.pc == if result.Success? then Returned(result.value) else Failed
      ensures old(db.lock).Some? ==> result.Failure? && db == old(db)
      ensures result.Success? <==> old(db.lock).None? && AllApply(Pending(files, old(db.applied)), broken)
      ensures result.Success? ==> result.value == Pending(files, old(db.applied)) == me.mine
                                  && db.applied == old(db.applied) + result.value
                                  && db.effects == old(db.effects) + PendingAt(files, |files|, old(db.applied))
      ensures old(db.lock).None? && result.Failure? ==>
                exists idx :: StoppedAt(files, old(db.applied), db, old(db.effects), broken, idx)
      ensures old(db.lock).None? ==> db.lock.None? && db.tracked
    {
      hide Play, Pending, AllApply, PendingAt, StoppedAt;
      ghost var before := db.applied;
      NothingApplies(files, before, broken);
      assert all[..|files|] == files;
      var acquired;
      acquired, moves, me := Acquire(all, files, r, s);
      if !acquired { return Failure("another migration runner holds the advisory lock"), moves, me; }
      Leap(all, s, moves, r, me, db, ReadPending);
      moves := moves + [(r, ReadPending)];
      var pending := Pending(files, db.applied);
      if pending == [] {
        me := me.(pc := Releasing(Some([])));
      } else {
        me := me.(pc := Applying(pending, 0, false));
        var ok;
        ok, moves, me := ApplyFiles(all, files, r, broken, pending, s, moves, me);
        if !ok { return Failure("migration failed"), moves, me; }
        Leap(all, s, moves, r, me, db, FinishFiles);
        moves := moves + [(r, FinishFiles)];
        me := me.(pc := Releasing(Some(pending)));
      }
      Leap(all, s, moves, r, me, db, Release);
      moves := moves + [(r, Release)];
      db, me := db.(lock := None), me.(pc := Returned(pending));
      return Success(pending), moves, me;
    }

    /** The try-lock and, with the lock, the tracking table. */
    method Acquire(all: seq<string>, files: seq<string>, r: nat, ghost s: State)
        returns (acquired: bool, ghost moves: seq<(nat, Move)>, ghost me: Runner)
      requires files <= all && s.db == db && r in s.runners && s.runners[r] == Runner(|files|, Connected, [])
      modifies this
      ensures Leads(all, s, moves, r, me, db) && (acquired <==> old(db.lock).None?)
      ensures acquired ==> db == old(db).(lock := Some(r), tracked := true) && me == Runner(|files|, Tracked, [])
      ensures !acquired ==> db == old(db) && me == Runner(|files|, Failed, [])
    {
      hide Play, Pending;
      moves, me := [], s.runners[r];
      PlayNothing(all, s);
      Leap(all, s, moves, r, me, db, TryLock);
      moves := moves + [(r, TryLock)];
      if db.lock.Some? {
        me := me.(pc := Failed);
        return false, moves, me;
      }
      db, me := db.(lock := Some(r)), me.(pc := Locked);
      Leap(all, s, moves, r, me, db, EnsureTable);
      moves := moves + [(r, EnsureTable)];
      db, me := db.(tracked := true), me.(pc := Tracked);
      return true, moves, me;
    }

    /** The loop over the files, up to the first that fails. */
    method ApplyFiles(all: seq<string>, files: seq<string>, r: nat, broken: set<string>, pending: seq<string>,
                      ghost s: State, ghost start: seq<(nat, Move)>, ghost from: Runner)
        returns (ok: bool, ghost moves: seq<(nat, Move)>, ghost me: Runner)
      requires files <= all && pending == Pending(files, db.applied)
      requires Leads(all, s, start, r, from, db) && db.lock == Some(r) && db.tracked
      requires from == Runner(|files|, Applying(pending, 0, false), [])
      modifies this
      ensures Leads(all, s, moves, r, me, db) && db.tracked
      ensures ok <==> AllApply(pending, broken)
      ensures ok ==> me == Runner(|files|, Applying(pending, |files|, false), pending) && db.lock == Some(r)
                     && db.applied == old(db.applied) + pending
                     && db.effects == old(db.effects) + PendingAt(files, |files|, old(db.applied))
      ensures !ok ==> me.pc == Failed && db.lock.None?
                      && exists idx :: StoppedAt(files, old(db.applied), db, old(db.effects), broken, idx)
    {
      hide Play, Step, Pending, NoDuplicates, Leads, AllApply, PendingAt, StoppedAt;
      ghost var before, effects := db.applied, db.effects;
      NothingYet(files, before, broken);
      moves, me := start, from;
      var idx := 0;
      while idx < |files|
        invariant 0 <= idx <= |files| && Leads(all, s, moves, r, me, db)
        invariant me == Runner(|files|, Applying(pending, idx, false), Pending(files[..idx], before))
        invariant db.lock == Some(r) && db.tracked
        invariant db.applied == before + me.mine && db.effects == effects + PendingAt(files, idx, before)
        invariant AllApply(me.mine, broken)
      {
        NextApplies(files, before, broken, idx);
        ghost var more;
        ok, more, me := ApplyFile(all, files, r, broken, pending, idx, s, moves, me, before);
        moves := moves + more;
        if !ok {
          Stopped(files, before, db, effects, broken, idx);
          return false, moves, me;
        }
        idx := idx + 1;
      }
      assert files[..|files|] == files;
      return true, moves, me;
    }

    /** The loop body: skip a file that is not pending, else apply it in one transaction. */
    method ApplyFile(all: seq<string>, files: seq<string>, r: nat, broken: set<string>, pending: seq<string>, idx: nat,
                     ghost s: State, ghost moves: seq<(nat, Move)>, ghost from: Runner, ghost before: seq<string>)
        returns (ok: bool, ghost more: seq<(nat, Move)>, ghost me: Runner)
      requires files <= all && idx < |files| && pending == Pending(files, before)
      requires Leads(all, s, moves, r, from, db) && db.lock == Some(r)
      requires from == Runner(|files|, Applying(pending, idx, false), Pending(files[..idx], before))
      requires db.applied == before + from.mine
      modifies this
      ensures Leads(all, s, moves + more, r, me, db) && db.tracked == old(db.tracked)
      ensures ok <==> files[idx] in before || (files[idx] !in broken && files[idx] !in from.mine)
      ensures ok ==> me == Runner(|files|, Applying(pending, idx + 1, false), Pending(files[..idx + 1], before))
                     && db.lock == Some(r) && db.applied == before + me.mine
                     && db.effects == old(db.effects) + if files[idx] in before then [] else [idx]
      ensures !ok ==> me.pc == Failed && db == old(db).(lock := None)
    {
      hide Play, Pending;
      var version := files[idx];
      assert all[idx] == version && version in files;
      PendingMembers(files, before);
      NextFile(files, idx, before);
      me, more := from, [];
      if version !in pending {
        Leap(all, s, moves, r, me, db, SkipFile);
        more, me := [(r, SkipFile)], me.(pc := Applying(pending, idx + 1, false));
        return true, more, me;
      }
      Leap(all, s, moves, r, me, db, RunFile);
      me := me.(pc := Applying(pending, idx, true));
      ghost var begun := moves + [(r, RunFile)];
      if version in broken || version in db.applied {
        Leap(all, s, begun, r, me, db, Error);
        me := me.(pc := Releasing(None));
        Leap(all, s, begun + [(r, Error)], r, me, db, Release);
        db, me := db.(lock := None), me.(pc := Failed);
        more := [(r, RunFile), (r, Error), (r, Release)];
        assert moves + more == begun + [(r, Error)] + [(r, Release)];
        return false, more, me;
      }
      Leap(all, s, begun, r, me, db, CommitFile);
      db := db.(applied := db.applied + [version], effects := db.effects + [idx]);
      me := me.(pc := Applying(pending, idx + 1, false), mine := me.mine + [version]);
      more := [(r, RunFile), (r, CommitFile)];
      assert moves + more == begun + [(r, CommitFile)];
      return true, more, me;
    }
  }

  lemma PlayNothing(all: seq<string>, s: State)
    ensures Play(all, s, []) == Some(s)
  {
  }

  lemma NothingYet(files: seq<string>, before: seq<string>, broken: set<string>)
    ensures Pending(files[..0], before) == [] && PendingAt(files, 0, before) == [] && AllApply([], broken)
    ensures before + [] == before
  {
  }

  /** When nothing is pending, nothing is to be committed. */
  lemma NothingApplies(files: seq<string>, before: seq<string>, broken: set<string>)
    ensures Pending(files, before) == [] ==>
              AllApply([], broken) && PendingAt(files, |files|, before) == [] && before + [] == before
  {
    NothingPending(files, before);
    if Pending(files, before) == [] { NoneAt(files, |files|, before); }
  }

  lemma {:induction false} NoneAt(files: seq<string>, n: nat, before: seq<string>)
    requires n <= |files| && forall v :: v in files ==> v in before
    ensures PendingAt(files, n, before) == []
  {
    if n > 0 { NoneAt(files, n - 1, before); }
  }

  /** What one file more means for the versions to commit. */
  lemma NextApplies(files: seq<string>, before: seq<string>, broken: set<string>, idx: nat)
    requires idx < |files| && AllApply(Pending(files[..idx], before), broken)
    ensures PendingAt(files, idx + 1, before) == PendingAt(files, idx, before) + if files[idx] in before then [] else [idx]
    ensures AllApply(Pending(files[..idx + 1], before), broken) <==>
              files[idx] in before || (files[idx] !in broken && files[idx] !in Pending(files[..idx], before))
    ensures AllApply(Pending(files, before), broken) ==> AllApply(Pending(files[..idx + 1], before), broken)
  {
    hide Pending;
    NextFile(files, idx, before);
    OneMoreApplies(Pending(files[..idx], before), files[idx], broken);
    assert files == files[..idx + 1] + files[idx + 1..];
    PendingConcat(files[..idx + 1], files[idx + 1..], before);
    PartApplies(Pending(files[..idx + 1], before), Pending(files[idx + 1..], before), broken);
  }

  lemma OneMoreApplies(a: seq<string>, v: string, broken: set<string>)
    requires AllApply(a, broken)
    ensures AllApply(a + [v], broken) <==> v !in broken && v !in a
    ensures a + [] == a
  {
    var b := a + [v];
    assert b[|a|] == v && b[..|a|] == a;
    assert forall k :: 0 <= k < |a| ==> b[k] == a[k];
    assert v in b && forall x :: x in a ==> x in b;
  }

  lemma PartApplies(a: seq<string>, b: seq<string>, broken: set<string>)
    ensures AllApply(a + b, broken) ==> AllApply(a, broken)
  {
    assert forall k :: 0 <= k < |a| ==> (a + b)[k] == a[k];
    assert forall v :: v in a ==> v in a + b;
  }

  lemma Stopped(files: seq<string>, before: seq<string>, db: Db, effects: seq<nat>, broken: set<string>, idx: nat)
    requires idx < |files| && files[idx] !in before
    requires files[idx] in broken || files[idx] in Pending(files[..idx], before)
    requires AllApply(Pending(files[..idx], before), broken)
    requires db.applied == before + Pending(files[..idx], before) && db.effects == effects + PendingAt(files, idx, before)
    ensures StoppedAt(files, before, db, effects, broken, idx)
  {
  }
}
