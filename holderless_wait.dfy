/** A run of the lock operations that leaves a thread waiting for a lock
    without a holder, and what lock_acquire's donation walk does from
    there.

    Thread 1 (priority 20) holds lock 0.  Thread 2 (priority 10) holds
    lock 1 and blocks on lock 0.  Thread 1 releases lock 0: thread 2 is
    woken, but until it runs again its `lock_waiting_for` still names
    lock 0, which now has no holder.  Thread 1 then acquires lock 1.  The
    walk goes from thread 1 to thread 2 and then finds lock 0 without a
    holder: the loop as written reads `holder->priority` through NULL, and
    the test before `t = holder` leaves `t` where it is, so the loop would
    not end either. */
module HolderlessWait {
  import opened Wrappers
  import opened Synch

  /** No bound makes the chain from `t` one the loop as written can walk. */
  ghost predicate AsWrittenWalkFaults(ts: map<Tid, Thread>, ls: map<LockId, Lock>, t: Tid)
  {
    forall n: nat :: !ChainFullyHeld(ts, ls, t, n)
  }

  /** Thread 1 awaits lock 1, held by thread 2, which awaits lock 0, held
      by nobody: the walk as written faults, for every bound. */
  lemma HolderlessWaitFaults(ts: map<Tid, Thread>, ls: map<LockId, Lock>)
    requires 1 in ts && ts[1].lockWaitingFor == Some(1)
    requires 1 in ls && ls[1].holder == Some(2)
    requires 2 in ts && ts[2].lockWaitingFor == Some(0)
    requires 0 in ls && ls[0].holder.None?
    ensures AsWrittenWalkFaults(ts, ls, 1)
  {
    forall n: nat
      ensures !ChainFullyHeld(ts, ls, 1, n)
    {
      if n > 0 {
        assert !ChainFullyHeld(ts, ls, 2, n - 1);
      }
    }
  }

  /** Thread 1 holds lock 0; thread 2 holds lock 1 and is queued on
      lock 0.  Thread 1 releases lock 0: thread 2 is woken but still
      records lock 0 as the lock it waits for, and lock 0 has no holder.
      From there the chain of a thread 1 awaiting lock 1 is not one the
      loop as written can walk, for any bound. */
  method ReleaseLeavesHolderlessWait() returns (s: Sync, woken: Option<Tid>)
    ensures fresh(s) && !s.mlfqs
    ensures woken == Some(2)
    ensures 1 in s.threads && s.threads[1].lockWaitingFor.None? && s.threads[1].locksHeld == []
    ensures s.threads[1].priority == 20
    ensures 2 in s.threads && s.threads[2].lockWaitingFor == Some(0) && s.threads[2].priority == 10
    ensures 0 in s.locks && s.locks[0].holder.None?
    ensures 1 in s.locks && s.locks[1].holder == Some(2)
    ensures OfLock(1) in s.semas && s.semas[OfLock(1)] == Semaphore(0, [])
    ensures AsWrittenWalkFaults(s.threads[1 := s.threads[1].(lockWaitingFor := Some(1))], s.locks, 1)
  {
    s := new Sync(false, map[1 := Thread(20, 20, None, [0]), 2 := Thread(10, 10, Some(0), [1])]);
    s.locks := map[0 := Lock(Some(1), 20), 1 := Lock(Some(2), 10)];
    s.semas := map[OfLock(0) := Semaphore(0, [2]), OfLock(1) := Semaphore(0, [])];
    woken := s.LockRelease(1, 0);
    HolderlessWaitFaults(s.threads[1 := s.threads[1].(lockWaitingFor := Some(1))], s.locks);
  }

  /** From the state above thread 1 acquires lock 1.  The walk donates 20
      to thread 2 and to lock 1's copy, then stops at lock 0, which has
      no holder; thread 1 is queued on lock 1. */
  method DonateAcrossHolderlessWait() returns (s: Sync, acquired: bool)
    ensures fresh(s)
    ensures !acquired
    ensures 1 in s.threads && s.threads[1].lockWaitingFor == Some(1) && s.threads[1].priority == 20
    ensures 2 in s.threads && s.threads[2].priority == 20 && s.threads[2].lockWaitingFor == Some(0)
    ensures 1 in s.locks && s.locks[1].holder == Some(2) && s.locks[1].priorityCurrent == 20
    ensures 0 in s.locks && s.locks[0].holder.None?
    ensures OfLock(1) in s.semas && s.semas[OfLock(1)] == Semaphore(0, [1])
  {
    var woken;
    s, woken := ReleaseLeavesHolderlessWait();
    ghost var ts := s.threads[1 := s.threads[1].(lockWaitingFor := Some(1))];
    ghost var ls := s.locks;
    assert ChainEnds(ts, ls, 2, 1);
    assert ChainHolders(ts, ls, 1, 2) == {2} by {
      assert ChainHolders(ts, ls, 2, 1) == {};
    }
    assert ChainLocks(ts, ls, 1, 2) == {1} by {
      assert ChainLocks(ts, ls, 2, 1) == {};
    }
    acquired := s.LockAcquire(1, 1, 2);
    DonateEffect(false, ts, ls, 1, 20, 2);
    assert 1 !in ChainHolders(ts, ls, 1, 2);
  }
}
