/** The synchronisation primitives of threads/synch.c as a sequential
    state machine: threads, locks, semaphores and condition variables are
    entries of maps in one `Sync` object, and each operation is a
    deterministic update of their fields and waiter lists.

    Blocking is not modelled as such.  A `sema_down` that finds the value 0
    pushes the caller onto the waiters and reports that it did not finish;
    the caller, once `sema_up` has taken it off the list, runs the same step
    again, which is exactly what the `while` loop of sema_down does after
    thread_block returns.  Waking a thread is taking it off the waiter list
    (thread_unblock and the ready list are not part of this model). */
module Synch {
  import opened Wrappers
  import opened OrderedLists

  type Tid = nat
  type LockId = nat
  type CondId = nat

  /** A semaphore is either a free-standing one (the one cond_wait creates
      on its stack for each waiter) or the one embedded in a lock. */
  datatype SemaRef = Plain(id: nat) | OfLock(lock: LockId)

  /** The fields of struct thread that synch.c reads and writes. */
  datatype Thread = Thread(
    priority: int,
    priorityBase: int,
    lockWaitingFor: Option<LockId>,
    locksHeld: seq<LockId>)

  datatype Semaphore = Semaphore(value: nat, waiters: seq<Tid>)

  /** struct lock without its semaphore, which is `OfLock(id)`. */
  datatype Lock = Lock(holder: Option<Tid>, priorityCurrent: int)

  /** struct semaphore_elem: a condition waiter's semaphore and the
      priority its thread had when it started waiting. */
  datatype SemaphoreElem = SemaphoreElem(semaphore: SemaRef, priority: int)

  function Max(a: int, b: int): (m: int)
    ensures m >= a && m >= b && (m == a || m == b)
  {
    if a > b then a else b
  }

  /** The key of priority_compare: a thread's current priority. */
  function ThreadPriority(ts: map<Tid, Thread>): Tid -> int
  {
    t => if t in ts then ts[t].priority else 0
  }

  /** The key of lock_priority_compare: the lock's priority_current. */
  function LockPriority(ls: map<LockId, Lock>): LockId -> int
  {
    l => if l in ls then ls[l].priorityCurrent else 0
  }

  /** The key of cond_priority_compare: the waiter's recorded priority. */
  function ElemPriority(): SemaphoreElem -> int
  {
    (e: SemaphoreElem) => e.priority
  }

  /** lock_priority_compare and cond_priority_compare are `a > b` on their
      keys, so each is a strict order: irreflexive and transitive. */
  lemma ComparatorsAreStrictOrders(ls: map<LockId, Lock>, a: LockId, b: LockId, c: LockId,
                                   x: SemaphoreElem, y: SemaphoreElem, z: SemaphoreElem)
    ensures !(LockPriority(ls)(a) > LockPriority(ls)(a))
    ensures LockPriority(ls)(a) > LockPriority(ls)(b) && LockPriority(ls)(b) > LockPriority(ls)(c) ==>
              LockPriority(ls)(a) > LockPriority(ls)(c)
    ensures !(ElemPriority()(x) > ElemPriority()(x))
    ensures ElemPriority()(x) > ElemPriority()(y) && ElemPriority()(y) > ElemPriority()(z) ==>
              ElemPriority()(x) > ElemPriority()(z)
  {
  }

  // ---------------------------------------------------------------------
  // The donation walk of lock_acquire

  /** The waits-for chain from `t` ends within n steps: every thread on it
      exists, every awaited lock exists, and the chain stops at a thread
      that waits for nothing or at an awaited lock without a holder.  The
      walk moves from a thread to the holder of the lock it awaits, so on
      a cycle it never ends. */
  ghost predicate ChainEnds(ts: map<Tid, Thread>, ls: map<LockId, Lock>, t: Tid, n: nat)
    decreases n
  {
    && t in ts
    && (ts[t].lockWaitingFor.Some? ==>
          && ts[t].lockWaitingFor.value in ls
          && (ls[ts[t].lockWaitingFor.value].holder.Some? ==>
                && n > 0
                && ChainEnds(ts, ls, ls[ts[t].lockWaitingFor.value].holder.value, n - 1)))
  }

  /** What the loop of lock_acquire needs as written: the chain ends
      within n steps at a thread that waits for nothing, and every lock
      awaited along it has a holder, whose priority the loop reads. */
  ghost predicate ChainFullyHeld(ts: map<Tid, Thread>, ls: map<LockId, Lock>, t: Tid, n: nat)
    decreases n
  {
    && t in ts
    && (ts[t].lockWaitingFor.None? ||
        (&& n > 0
         && ts[t].lockWaitingFor.value in ls
         && ls[ts[t].lockWaitingFor.value].holder.Some?
         && ChainFullyHeld(ts, ls, ls[ts[t].lockWaitingFor.value].holder.value, n - 1)))
  }

  /** On a chain whose every awaited lock has a holder, the walk that
      stops at a lock without a holder never stops there: both walks
      visit the same chain. */
  lemma {:induction false} FullyHeldChainEnds(ts: map<Tid, Thread>, ls: map<LockId, Lock>, t: Tid, n: nat)
    requires ChainFullyHeld(ts, ls, t, n)
    ensures ChainEnds(ts, ls, t, n)
    ensures ts[t].lockWaitingFor.Some? ==> ls[ts[t].lockWaitingFor.value].holder.Some?
    decreases n
  {
    if ts[t].lockWaitingFor.Some? {
      FullyHeldChainEnds(ts, ls, ls[ts[t].lockWaitingFor.value].holder.value, n - 1);
    }
  }

  /** `t` waits for a lock that has a holder, so the walk moves on. */
  ghost predicate Moves(ts: map<Tid, Thread>, ls: map<LockId, Lock>, t: Tid)
  {
    && t in ts && ts[t].lockWaitingFor.Some?
    && ts[t].lockWaitingFor.value in ls
    && ls[ts[t].lockWaitingFor.value].holder.Some?
  }

  /** The holders reached by the walk from `t`. */
  ghost function ChainHolders(ts: map<Tid, Thread>, ls: map<LockId, Lock>, t: Tid, n: nat): set<Tid>
    requires ChainEnds(ts, ls, t, n)
    decreases n
  {
    if !Moves(ts, ls, t) then {}
    else
      var h := ls[ts[t].lockWaitingFor.value].holder.value;
      {h} + ChainHolders(ts, ls, h, n - 1)
  }

  /** The locks with a holder awaited along the walk from `t`. */
  ghost function ChainLocks(ts: map<Tid, Thread>, ls: map<LockId, Lock>, t: Tid, n: nat): set<LockId>
    requires ChainEnds(ts, ls, t, n)
    decreases n
  {
    if !Moves(ts, ls, t) then {}
    else
      var l := ts[t].lockWaitingFor.value;
      {l} + ChainLocks(ts, ls, ls[l].holder.value, n - 1)
  }

  /** The number of steps the walk from `t` takes. */
  ghost function ChainLength(ts: map<Tid, Thread>, ls: map<LockId, Lock>, t: Tid, n: nat): nat
    requires ChainEnds(ts, ls, t, n)
    decreases n
  {
    if !Moves(ts, ls, t) then 0
    else 1 + ChainLength(ts, ls, ls[ts[t].lockWaitingFor.value].holder.value, n - 1)
  }

  /** A larger bound admits the same chain, of the same length. */
  lemma {:induction false} ChainBoundUp(ts: map<Tid, Thread>, ls: map<LockId, Lock>, t: Tid, n: nat)
    requires ChainEnds(ts, ls, t, n)
    ensures ChainEnds(ts, ls, t, n + 1)
    ensures ChainLength(ts, ls, t, n + 1) == ChainLength(ts, ls, t, n)
    decreases n
  {
    if Moves(ts, ls, t) {
      ChainBoundUp(ts, ls, ls[ts[t].lockWaitingFor.value].holder.value, n - 1);
    }
  }

  /** Every holder reached from `x` has a strictly shorter chain. */
  lemma {:induction false} ChainHoldersCloser(ts: map<Tid, Thread>, ls: map<LockId, Lock>, x: Tid, n: nat, u: Tid)
    requires ChainEnds(ts, ls, x, n) && u in ChainHolders(ts, ls, x, n)
    ensures n > 0 && ChainEnds(ts, ls, u, n - 1)
    ensures ChainLength(ts, ls, u, n - 1) < ChainLength(ts, ls, x, n)
    decreases n
  {
    var h := ls[ts[x].lockWaitingFor.value].holder.value;
    if u != h {
      ChainHoldersCloser(ts, ls, h, n - 1, u);
      ChainBoundUp(ts, ls, u, n - 2);
    }
  }

  /** A chain that ends does not come back to where it started. */
  lemma ChainAcyclic(ts: map<Tid, Thread>, ls: map<LockId, Lock>, t: Tid, n: nat)
    requires ChainEnds(ts, ls, t, n)
    ensures t !in ChainHolders(ts, ls, t, n)
  {
    if t in ChainHolders(ts, ls, t, n) {
      ChainHoldersCloser(ts, ls, t, n, t);
      ChainBoundUp(ts, ls, t, n - 1);
      assert false;
    }
  }

  /** Each lock on the chain is held by a holder on the chain. */
  lemma {:induction false} ChainLocksHeld(ts: map<Tid, Thread>, ls: map<LockId, Lock>, t: Tid, n: nat)
    requires ChainEnds(ts, ls, t, n)
    ensures forall k :: k in ChainLocks(ts, ls, t, n) ==>
              k in ls && ls[k].holder.Some? && ls[k].holder.value in ChainHolders(ts, ls, t, n)
    decreases n
  {
    if Moves(ts, ls, t) {
      ChainLocksHeld(ts, ls, ls[ts[t].lockWaitingFor.value].holder.value, n - 1);
    }
  }

  /** Two states with the same threads and locks, the same waits-for
      links and the same holders; the priorities may differ. */
  ghost predicate SameLinks(ts: map<Tid, Thread>, ls: map<LockId, Lock>,
                            ts': map<Tid, Thread>, ls': map<LockId, Lock>)
  {
    && ts'.Keys == ts.Keys && ls'.Keys == ls.Keys
    && (forall u :: u in ts ==> ts'[u].lockWaitingFor == ts[u].lockWaitingFor)
    && (forall k :: k in ls ==> ls'[k].holder == ls[k].holder)
  }

  /** The chain only depends on the links. */
  lemma {:induction false} ChainFrame(ts: map<Tid, Thread>, ls: map<LockId, Lock>,
                                      ts': map<Tid, Thread>, ls': map<LockId, Lock>, t: Tid, n: nat)
    requires SameLinks(ts, ls, ts', ls') && ChainEnds(ts, ls, t, n)
    ensures ChainEnds(ts', ls', t, n)
    ensures ChainHolders(ts', ls', t, n) == ChainHolders(ts, ls, t, n)
    ensures ChainLocks(ts', ls', t, n) == ChainLocks(ts, ls, t, n)
    decreases n
  {
    if Moves(ts, ls, t) {
      var l := ts[t].lockWaitingFor.value;
      ChainFrame(ts, ls, ts', ls', ls[l].holder.value, n - 1);
    }
  }

  /** One pass of the donation loop body for a thread `t` that waits: the
      holder of its awaited lock is raised to `p` together with the lock's
      copy, unless the holder is already at least `p` or the MLFQS
      scheduler owns priorities. */
  ghost function DonateStep(mlfqs: bool, ts: map<Tid, Thread>, ls: map<LockId, Lock>, t: Tid, p: int)
    : (r: (map<Tid, Thread>, map<LockId, Lock>))
    requires Moves(ts, ls, t) && ls[ts[t].lockWaitingFor.value].holder.value in ts
    ensures SameLinks(ts, ls, r.0, r.1)
  {
    var l := ts[t].lockWaitingFor.value;
    var h := ls[l].holder.value;
    if p > ts[h].priority && !mlfqs then
      (ts[h := ts[h].(priority := p)], ls[l := ls[l].(priorityCurrent := p)])
    else (ts, ls)
  }

  /** The state the donation loop of lock_acquire leaves, starting at `t`
      with the caller's priority `p`.  The walk stops at a thread that
      waits for nothing or at an awaited lock without a holder. */
  ghost function Donate(mlfqs: bool, ts: map<Tid, Thread>, ls: map<LockId, Lock>, t: Tid, p: int, n: nat)
    : (r: (map<Tid, Thread>, map<LockId, Lock>))
    requires ChainEnds(ts, ls, t, n)
    ensures SameLinks(ts, ls, r.0, r.1)
    decreases n
  {
    if !Moves(ts, ls, t) then (ts, ls)
    else
      var l := ts[t].lockWaitingFor.value;
      var h := ls[l].holder.value;
      assert ChainEnds(ts, ls, h, n - 1);
      var s := DonateStep(mlfqs, ts, ls, t, p);
      ChainFrame(ts, ls, s.0, s.1, h, n - 1);
      Donate(mlfqs, s.0, s.1, h, p, n - 1)
  }

  /** Lock `k` has a holder whose priority is below `p`. */
  ghost predicate HolderBelow(ts: map<Tid, Thread>, ls: map<LockId, Lock>, k: LockId, p: int)
  {
    k in ls && ls[k].holder.Some? && ls[k].holder.value in ts && p > ts[ls[k].holder.value].priority
  }

  /** The whole effect of the walk: every holder on the chain ends with
      priority max(its own, p) and every other thread keeps its priority;
      a lock on the chain whose holder was below p takes p as its copy and
      every other lock keeps its copy; nothing but those priorities
      changes.  Under MLFQS nothing changes. */
  lemma DonateEffect(mlfqs: bool, ts: map<Tid, Thread>, ls: map<LockId, Lock>, t: Tid, p: int, n: nat)
    requires ChainEnds(ts, ls, t, n)
    ensures var r := Donate(mlfqs, ts, ls, t, p, n);
            && r.0.Keys == ts.Keys && r.1.Keys == ls.Keys
            && (forall u :: u in ts ==>
                  r.0[u] == ts[u].(priority := if !mlfqs && u in ChainHolders(ts, ls, t, n)
                                               then Max(ts[u].priority, p) else ts[u].priority))
            && (forall k :: k in ls ==>
                  r.1[k] == ls[k].(priorityCurrent :=
                    if !mlfqs && k in ChainLocks(ts, ls, t, n) && HolderBelow(ts, ls, k, p) then p
                    else ls[k].priorityCurrent))
  {
    DonateThreads(mlfqs, ts, ls, t, p, n);
    DonateLockCopies(mlfqs, ts, ls, t, p, n);
  }

  /** The threads' part of DonateEffect. */
  lemma {:induction false} DonateThreads(mlfqs: bool, ts: map<Tid, Thread>, ls: map<LockId, Lock>,
                                         t: Tid, p: int, n: nat)
    requires ChainEnds(ts, ls, t, n)
    ensures var r := Donate(mlfqs, ts, ls, t, p, n);
            && r.0.Keys == ts.Keys
            && (forall u :: u in ts ==>
                  r.0[u] == ts[u].(priority := if !mlfqs && u in ChainHolders(ts, ls, t, n)
                                               then Max(ts[u].priority, p) else ts[u].priority))
    decreases n
  {
    if Moves(ts, ls, t) {
      var l := ts[t].lockWaitingFor.value;
      var h := ls[l].holder.value;
      var s := DonateStep(mlfqs, ts, ls, t, p);
      ChainFrame(ts, ls, s.0, s.1, h, n - 1);
      DonateThreads(mlfqs, s.0, s.1, h, p, n - 1);
    }
  }

  /** The locks' part of DonateEffect.  A chain that ends is acyclic, so
      the walk reaches each holder once and compares `p` with the
      holder's priority before any raise. */
  lemma {:induction false} DonateLockCopies(mlfqs: bool, ts: map<Tid, Thread>, ls: map<LockId, Lock>,
                                            t: Tid, p: int, n: nat)
    requires ChainEnds(ts, ls, t, n)
    ensures var r := Donate(mlfqs, ts, ls, t, p, n);
            && r.1.Keys == ls.Keys
            && (forall k :: k in ls ==>
                  r.1[k] == ls[k].(priorityCurrent :=
                    if !mlfqs && k in ChainLocks(ts, ls, t, n) && HolderBelow(ts, ls, k, p) then p
                    else ls[k].priorityCurrent))
    decreases n
  {
    if Moves(ts, ls, t) {
      var l := ts[t].lockWaitingFor.value;
      var h := ls[l].holder.value;
      var s := DonateStep(mlfqs, ts, ls, t, p);
      ChainFrame(ts, ls, s.0, s.1, h, n - 1);
      DonateLockCopies(mlfqs, s.0, s.1, h, p, n - 1);
      ChainAcyclic(ts, ls, h, n - 1);
      ChainLocksHeld(ts, ls, h, n - 1);
      var r := Donate(mlfqs, ts, ls, t, p, n);
      assert r == Donate(mlfqs, s.0, s.1, h, p, n - 1);
      assert ChainLocks(ts, ls, t, n) == {l} + ChainLocks(ts, ls, h, n - 1);
      forall k | k in ls
        ensures r.1[k] == ls[k].(priorityCurrent :=
                  if !mlfqs && k in ChainLocks(ts, ls, t, n) && HolderBelow(ts, ls, k, p) then p
                  else ls[k].priorityCurrent)
      {
        if k in ChainLocks(ts, ls, h, n - 1) {
          assert ls[k].holder.value != h;
        }
      }
    }
  }

  /** Every holder reached along the chain ends with a priority at least
      the caller's, and no thread's priority goes down. */
  lemma DonateRaisesChain(ts: map<Tid, Thread>, ls: map<LockId, Lock>, t: Tid, p: int, n: nat)
    requires ChainEnds(ts, ls, t, n)
    ensures var r := Donate(false, ts, ls, t, p, n);
            && (forall h :: h in ChainHolders(ts, ls, t, n) ==> h in r.0 && r.0[h].priority >= p)
            && (forall u :: u in ts ==> u in r.0 && r.0[u].priority >= ts[u].priority)
  {
    DonateThreads(false, ts, ls, t, p, n);
    ChainHoldersExist(ts, ls, t, n);
  }

  lemma {:induction false} ChainHoldersExist(ts: map<Tid, Thread>, ls: map<LockId, Lock>, t: Tid, n: nat)
    requires ChainEnds(ts, ls, t, n)
    ensures forall h :: h in ChainHolders(ts, ls, t, n) ==> h in ts
    ensures forall k :: k in ChainLocks(ts, ls, t, n) ==> k in ls
    decreases n
  {
    if Moves(ts, ls, t) {
      ChainHoldersExist(ts, ls, ls[ts[t].lockWaitingFor.value].holder.value, n - 1);
    }
  }

  /** With the MLFQS scheduler the walk changes no state. */
  lemma DonateMlfqsChangesNothing(ts: map<Tid, Thread>, ls: map<LockId, Lock>, t: Tid, p: int, n: nat)
    requires ChainEnds(ts, ls, t, n)
    ensures Donate(true, ts, ls, t, p, n) == (ts, ls)
  {
    var r := Donate(true, ts, ls, t, p, n);
    DonateEffect(true, ts, ls, t, p, n);
    assert r.0 == ts;
    assert r.1 == ls;
  }

  /** The lock the caller waits for is raised first: when its holder had a
      lower priority than the caller, the lock's copy ends equal to the
      caller's priority. */
  lemma DonateFirstLock(ts: map<Tid, Thread>, ls: map<LockId, Lock>, t: Tid, p: int, n: nat)
    requires ChainEnds(ts, ls, t, n) && ts[t].lockWaitingFor.Some?
    requires HolderBelow(ts, ls, ts[t].lockWaitingFor.value, p)
    ensures var l := ts[t].lockWaitingFor.value;
            Donate(false, ts, ls, t, p, n).1[l].priorityCurrent == p
  {
    DonateLockCopies(false, ts, ls, t, p, n);
  }

  /** How many waiters of a condition wait on semaphore `r`. */
  function CountSema(ws: seq<SemaphoreElem>, r: SemaRef): (n: nat)
    ensures n <= |ws|
    ensures (forall i :: 0 <= i < |ws| ==> ws[i].semaphore != r) ==> n == 0
  {
    if ws == [] then 0 else (if ws[0].semaphore == r then 1 else 0) + CountSema(ws[1..], r)
  }

  lemma {:induction false} CountSemaAppend(ws: seq<SemaphoreElem>, e: SemaphoreElem, r: SemaRef)
    ensures CountSema(ws + [e], r) == CountSema(ws, r) + (if e.semaphore == r then 1 else 0)
  {
    if ws == [] {
      assert ws + [e] == [e];
    } else {
      assert (ws + [e])[1..] == ws[1..] + [e];
      CountSemaAppend(ws[1..], e, r);
    }
  }

  /** A descending list stays descending under a key that agrees with the
      old one on its elements. */
  lemma SortedDescSameKeys<T>(s: seq<T>, k1: T -> int, k2: T -> int)
    requires SortedDesc(s, k1)
    requires forall i :: 0 <= i < |s| ==> k1(s[i]) == k2(s[i])
    ensures SortedDesc(s, k2)
  {
  }

  /** The wake-up of sema_up: the waiters are sorted by descending
      priority and the front one leaves the list.  It is a waiter of
      highest priority, the rest keep descending order, and no waiter is
      lost or added. */
  function WakeOne(ws: seq<Tid>, key: Tid -> int): (r: (Option<Tid>, seq<Tid>))
    ensures ws == [] <==> r.0.None?
    ensures r.0.None? ==> r.1 == []
    ensures r.0.Some? ==>
              && r.0.value in ws
              && (forall u :: u in ws ==> key(r.0.value) >= key(u))
              && multiset(r.1) + multiset{r.0.value} == multiset(ws)
              && SortedDesc(r.1, key)
  {
    if ws == [] then (None, [])
    else
      var sorted := Sort(ws, key);
      SortFrontIsMaximum(ws, key);
      PopFront(sorted, key);
      (Some(sorted[0]), sorted[1..])
  }

  /** The priority lock_release leaves its caller `th`, whose remaining
      held locks are `held`.  With no lock left it is the base priority.
      Otherwise, unless MLFQS owns priorities, list_max with the `>`
      comparator selects a held lock of LOWEST priority_current, and when
      that lock has waiters the priority becomes the larger of the base
      priority and the priority of its lowest-priority waiter (list_max
      again); in every other case the priority is kept. */
  function RestoredPriority(mlfqs: bool, th: Thread, held: seq<LockId>, ls: map<LockId, Lock>,
                            ss: map<SemaRef, Semaphore>, ts: map<Tid, Thread>): (p: int)
    requires forall k :: k in held ==> OfLock(k) in ss
    ensures held == [] ==> p == th.priorityBase
    ensures held != [] && mlfqs ==> p == th.priority
    ensures p == th.priorityBase || p == th.priority ||
            (p > th.priorityBase && exists k, w :: k in held && w in ss[OfLock(k)].waiters && p == ThreadPriority(ts)(w))
  {
    if held == [] then th.priorityBase
    else if mlfqs then th.priority
    else
      var m := ListMax(held, LockPriority(ls));
      ListMaxIsMinimum(held, LockPriority(ls));
      var ws := ss[OfLock(m)].waiters;
      if ws == [] then th.priority
      else
        var t := ListMax(ws, ThreadPriority(ts));
        ListMaxIsMinimum(ws, ThreadPriority(ts));
        var tp := ThreadPriority(ts)(t);
        if th.priorityBase > tp then th.priorityBase else tp
  }

  /** The lock and the waiter lock_release consults are minima: the
      restored priority comes from a held lock whose priority_current is
      no larger than any other held lock's.  When that lock has waiters
      the priority is the larger of the base priority and the priority of
      a waiter no higher than any other, so it is at most the larger of
      the base and any one waiter's priority. */
  lemma ReleaseConsultsLowest(th: Thread, held: seq<LockId>, ls: map<LockId, Lock>,
                              ss: map<SemaRef, Semaphore>, ts: map<Tid, Thread>)
    requires forall k :: k in held ==> OfLock(k) in ss
    requires held != []
    ensures var m := ListMax(held, LockPriority(ls));
            var p := RestoredPriority(false, th, held, ls, ss, ts);
            && m in held
            && (forall k :: k in held ==> LockPriority(ls)(m) <= LockPriority(ls)(k))
            && (ss[OfLock(m)].waiters == [] ==> p == th.priority)
            && (ss[OfLock(m)].waiters != [] ==>
                  && p >= th.priorityBase
                  && (forall w :: w in ss[OfLock(m)].waiters ==> p <= Max(th.priorityBase, ThreadPriority(ts)(w)))
                  && exists w :: && w in ss[OfLock(m)].waiters
                                 && (forall u :: u in ss[OfLock(m)].waiters ==> ThreadPriority(ts)(w) <= ThreadPriority(ts)(u))
                                 && p == Max(th.priorityBase, ThreadPriority(ts)(w)))
  {
    var m := ListMax(held, LockPriority(ls));
    ListMaxIsMinimum(held, LockPriority(ls));
    var ws := ss[OfLock(m)].waiters;
    if ws != [] {
      ListMaxIsMinimum(ws, ThreadPriority(ts));
      var w := ListMax(ws, ThreadPriority(ts));
      assert RestoredPriority(false, th, held, ls, ss, ts) == Max(th.priorityBase, ThreadPriority(ts)(w));
    }
  }

  /** The front of a condition's waiters in descending order has the
      highest enqueue priority, and the rest stay in order. */
  lemma FrontIsHighest(ws: seq<SemaphoreElem>)
    requires ws != [] && SortedDesc(ws, ElemPriority())
    ensures SortedDesc(ws[1..], ElemPriority())
    ensures forall e :: e in ws ==> ws[0].priority >= e.priority
  {
    PopFront(ws, ElemPriority());
    forall e | e in ws ensures ws[0].priority >= e.priority {
      var j :| 0 <= j < |ws| && ws[j] == e;
      assert ElemPriority()(ws[0]) >= ElemPriority()(ws[j]) || j == 0;
    }
  }

  /** A semaphore after `k` sema_up calls with no down in between: the
      value is up by k, and each up takes its WakeOne waiter off the list. */
  function UpN(sema: Semaphore, k: nat, key: Tid -> int): (r: Semaphore)
    ensures r.value == sema.value + k
  {
    if k == 0 then sema
    else
      var prev := UpN(sema, k - 1, key);
      Semaphore(prev.value + 1, WakeOne(prev.waiters, key).1)
  }

  /** k ups add no waiter: the waiters left are among those before. */
  lemma {:induction false} UpNDrains(sema: Semaphore, k: nat, key: Tid -> int)
    ensures multiset(UpN(sema, k, key).waiters) <= multiset(sema.waiters)
  {
    if k > 0 {
      var j: nat := k - 1;
      UpNDrains(sema, j, key);
      UpNDrainsNext(sema, j, key);
      assert j + 1 == k;
    } else {
      assert UpN(sema, k, key) == sema;
    }
  }

  /** The inductive step of UpNDrains. */
  lemma UpNDrainsNext(sema: Semaphore, j: nat, key: Tid -> int)
    requires multiset(UpN(sema, j, key).waiters) <= multiset(sema.waiters)
    ensures multiset(UpN(sema, j + 1, key).waiters) <= multiset(sema.waiters)
  {
    var prev := UpN(sema, j, key);
    assert UpN(sema, j + 1, key).waiters == WakeOne(prev.waiters, key).1;
    WakeSub(prev.waiters, key);
    SubTrans(multiset(UpN(sema, j + 1, key).waiters), multiset(prev.waiters), multiset(sema.waiters));
  }

  /** Multiset inclusion is transitive. */
  lemma SubTrans(a: multiset<Tid>, b: multiset<Tid>, c: multiset<Tid>)
    requires a <= b && b <= c
    ensures a <= c
  {
    forall x ensures a[x] <= c[x] {
      assert a[x] <= b[x];
    }
  }

  /** A wake-up adds no waiter. */
  lemma WakeSub(x: seq<Tid>, key: Tid -> int)
    ensures multiset(WakeOne(x, key).1) <= multiset(x)
  {
  }

  /** k ups wake k waiters, or all of them. */
  lemma {:induction false} UpNShrinks(sema: Semaphore, k: nat, key: Tid -> int)
    ensures |UpN(sema, k, key).waiters| == if k >= |sema.waiters| then 0 else |sema.waiters| - k
  {
    if k > 0 {
      var j: nat := k - 1;
      UpNShrinks(sema, j, key);
      UpNShrinksNext(sema, j, key);
      assert j + 1 == k;
    } else {
      assert UpN(sema, k, key) == sema;
    }
  }

  /** The inductive step of UpNShrinks. */
  lemma UpNShrinksNext(sema: Semaphore, j: nat, key: Tid -> int)
    requires |UpN(sema, j, key).waiters| == if j >= |sema.waiters| then 0 else |sema.waiters| - j
    ensures |UpN(sema, j + 1, key).waiters| == if j + 1 >= |sema.waiters| then 0 else |sema.waiters| - (j + 1)
  {
    var prev := UpN(sema, j, key);
    UpNLast(sema, j, key);
    WakeLength(prev.waiters, key, |UpN(sema, j + 1, key).waiters|);
    ShrinkBy(|sema.waiters|, j + 1, |prev.waiters|, |UpN(sema, j + 1, key).waiters|);
  }

  /** The arithmetic of one more up in UpNShrinks. */
  lemma ShrinkBy(n: nat, k: nat, p: nat, q: nat)
    requires k > 0 && p == (if k - 1 >= n then 0 else n - (k - 1))
    requires q == if p == 0 then 0 else p - 1
    ensures q == if k >= n then 0 else n - k
  {
  }

  /** The last of k ups. */
  lemma UpNLast(sema: Semaphore, j: nat, key: Tid -> int)
    ensures |UpN(sema, j + 1, key).waiters| == |WakeOne(UpN(sema, j, key).waiters, key).1|
  {
  }

  /** A wake-up removes one waiter, when there is one. */
  lemma WakeLength(x: seq<Tid>, key: Tid -> int, q: nat)
    requires q == |WakeOne(x, key).1|
    ensures q == if |x| == 0 then 0 else |x| - 1
  {
    if |x| != 0 {
      var w := WakeOne(x, key);
      assert |multiset(w.1)| + 1 == |multiset(x)|;
    }
  }

  /** One up is a single sema_up. */
  lemma UpOnce(sema: Semaphore, key: Tid -> int)
    ensures UpN(sema, 1, key) == Semaphore(sema.value + 1, WakeOne(sema.waiters, key).1)
  {
  }

  /** One more up extends a run of ups. */
  lemma UpNext(sema: Semaphore, k: nat, key: Tid -> int)
    ensures UpN(UpN(sema, k, key), 1, key) == UpN(sema, k + 1, key)
  {
    UpOnce(UpN(sema, k, key), key);
  }

  /** The slices a broadcast walks through, one waiter at a time. */
  lemma BroadcastIndices(ws: seq<SemaphoreElem>, i: nat)
    requires i < |ws|
    ensures ws[..i + 1] == ws[..i] + [ws[i]]
    ensures ws[i..] != [] && ws[i..][0] == ws[i] && ws[i..][1..] == ws[i + 1..]
  {
  }

  /** Updates of two different keys commute, and a later update of a
      key overrides an earlier one. */
  lemma SwapUpdates(m: map<SemaRef, Semaphore>, a: SemaRef, b: SemaRef, x: Semaphore, y: Semaphore, z: Semaphore)
    requires a != b
    ensures m[a := x][b := y][a := z] == m[a := z][b := y]
  {
  }

  /** A later update of a key overrides an earlier one. */
  lemma UpdateOverride(m: map<SemaRef, Semaphore>, a: SemaRef, x: Semaphore, y: Semaphore)
    ensures m[a := x][a := y] == m[a := y]
  {
  }

  /** Dropping the front of condition `c`'s list, in a map of lists. */
  lemma PopCond(conds0: map<CondId, seq<SemaphoreElem>>, c: CondId, ws: seq<SemaphoreElem>, rest: seq<SemaphoreElem>)
    requires ws != [] && ws[1..] == rest
    ensures conds0[c := ws][c := ws[1..]] == conds0[c := rest]
  {
  }

  /** Upping the semaphore of the `i`-th waiter once more, after the ups
      of the waiters before it, gives the ups of the first i + 1. */
  lemma BroadcastUps(before: map<SemaRef, Semaphore>, after: map<SemaRef, Semaphore>, base: map<SemaRef, Semaphore>,
                     ws: seq<SemaphoreElem>, i: nat, key: Tid -> int)
    requires i < |ws| && ws[i].semaphore in before && before.Keys == base.Keys
    requires after == before[ws[i].semaphore := UpN(before[ws[i].semaphore], 1, key)]
    requires forall r :: r in before ==> before[r] == UpN(base[r], CountSema(ws[..i], r), key)
    ensures after.Keys == base.Keys
    ensures forall r :: r in after ==> after[r] == UpN(base[r], CountSema(ws[..i + 1], r), key)
    ensures forall r :: r in after ==> after[r].value == base[r].value + CountSema(ws[..i + 1], r)
  {
    BroadcastIndices(ws, i);
    forall r | r in after
      ensures after[r] == UpN(base[r], CountSema(ws[..i + 1], r), key)
      ensures after[r].value == base[r].value + CountSema(ws[..i + 1], r)
    {
      BroadcastUpsAt(before[r], after[r], base[r], ws, i, key, r);
    }
  }

  /** BroadcastUps for one semaphore `r`. */
  lemma BroadcastUpsAt(before: Semaphore, after: Semaphore, base: Semaphore,
                       ws: seq<SemaphoreElem>, i: nat, key: Tid -> int, r: SemaRef)
    requires i < |ws| && ws[..i + 1] == ws[..i] + [ws[i]]
    requires after == if r == ws[i].semaphore then UpN(before, 1, key) else before
    requires before == UpN(base, CountSema(ws[..i], r), key)
    ensures after == UpN(base, CountSema(ws[..i + 1], r), key)
  {
    CountSemaAppend(ws[..i], ws[i], r);
    UpStep(before, after, base, CountSema(ws[..i], r), CountSema(ws[..i + 1], r), r == ws[i].semaphore, key);
  }

  /** `c` ups followed by one more up, when `step` holds, are `c1` ups. */
  lemma UpStep(before: Semaphore, after: Semaphore, base: Semaphore, c: nat, c1: nat, step: bool, key: Tid -> int)
    requires before == UpN(base, c, key)
    requires after == if step then UpN(before, 1, key) else before
    requires c1 == if step then c + 1 else c
    ensures after == UpN(base, c1, key)
  {
    if step {
      UpNext(base, c, key);
    }
  }

  /** What the sema_down of lock_acquire and the rest of the function
      leave, as (acquired, threads, locks, semaphores): at 0 the caller is
      queued on the lock's semaphore; with a positive value it drops by
      one and the caller holds the lock, with its own priority as the
      lock's copy, waits for nothing, and has the lock among its held
      locks in descending order of the copies. */
  ghost function AcquireDownState(ts: map<Tid, Thread>, ls: map<LockId, Lock>, ss: map<SemaRef, Semaphore>,
                                  cur: Tid, l: LockId)
    : (bool, map<Tid, Thread>, map<LockId, Lock>, map<SemaRef, Semaphore>)
    requires cur in ts && l in ls && OfLock(l) in ss
  {
    var sema := ss[OfLock(l)];
    if sema.value == 0 then (false, ts, ls, ss[OfLock(l) := Semaphore(0, [cur] + sema.waiters)])
    else
      var ls' := ls[l := Lock(Some(cur), ts[cur].priority)];
      (true,
       ts[cur := ts[cur].(lockWaitingFor := None, locksHeld := InsertOrdered(l, ts[cur].locksHeld, LockPriority(ls')))],
       ls',
       ss[OfLock(l) := sema.(value := sema.value - 1)])
  }

  /** The threads and locks after the donation block of lock_acquire:
      untouched when the lock is free, otherwise the caller records the
      lock it waits for and the walk donates its priority. */
  ghost function Donated(mlfqs: bool, ts: map<Tid, Thread>, ls: map<LockId, Lock>, cur: Tid, l: LockId, n: nat)
    : (r: (map<Tid, Thread>, map<LockId, Lock>))
    requires cur in ts && l in ls
    requires ls[l].holder.Some? ==> ChainEnds(ts[cur := ts[cur].(lockWaitingFor := Some(l))], ls, cur, n)
    ensures cur in r.0 && l in r.1
  {
    if ls[l].holder.None? then (ts, ls)
    else Donate(mlfqs, ts[cur := ts[cur].(lockWaitingFor := Some(l))], ls, cur, ts[cur].priority, n)
  }

  /** The state lock_acquire leaves: the donation block, then the down. */
  ghost function AcquireState(mlfqs: bool, ts: map<Tid, Thread>, ls: map<LockId, Lock>, ss: map<SemaRef, Semaphore>,
                              cur: Tid, l: LockId, n: nat)
    : (bool, map<Tid, Thread>, map<LockId, Lock>, map<SemaRef, Semaphore>)
    requires cur in ts && l in ls && OfLock(l) in ss
    requires ls[l].holder.Some? ==> ChainEnds(ts[cur := ts[cur].(lockWaitingFor := Some(l))], ls, cur, n)
  {
    var d := Donated(mlfqs, ts, ls, cur, l, n);
    AcquireDownState(d.0, d.1, ss, cur, l)
  }

  /** RestoredPriority reads only the semaphores of locks. */
  lemma RestoredIgnoresPlain(mlfqs: bool, th: Thread, held: seq<LockId>, ls: map<LockId, Lock>,
                             ss: map<SemaRef, Semaphore>, ts: map<Tid, Thread>, s: SemaRef, x: Semaphore)
    requires forall k :: k in held ==> OfLock(k) in ss
    requires s.Plain?
    ensures RestoredPriority(mlfqs, th, held, ls, ss[s := x], ts) == RestoredPriority(mlfqs, th, held, ls, ss, ts)
  {
    if held != [] && !mlfqs {
      var m := ListMax(held, LockPriority(ls));
      ListMaxIsMinimum(held, LockPriority(ls));
      assert ss[s := x][OfLock(m)] == ss[OfLock(m)];
    }
  }

  class Sync {
    /** thread_mlfqs: when set, priorities belong to the MLFQS scheduler and
        lock_acquire / lock_release leave them alone. */
    const mlfqs: bool
    var threads: map<Tid, Thread>
    var locks: map<LockId, Lock>
    var semas: map<SemaRef, Semaphore>
    var conds: map<CondId, seq<SemaphoreElem>>

    constructor (mlfqs: bool, threads: map<Tid, Thread>)
      ensures this.mlfqs == mlfqs && this.threads == threads
      ensures locks == map[] && semas == map[] && conds == map[]
    {
      this.mlfqs := mlfqs;
      this.threads := threads;
      locks := map[];
      semas := map[];
      conds := map[];
    }

    // -------------------------------------------------------------------
    // Semaphores

    /** sema_init: the value given and no waiters. */
    method SemaInit(s: SemaRef, value: nat)
      modifies this
      ensures semas == old(semas)[s := Semaphore(value, [])]
      ensures threads == old(threads) && locks == old(locks) && conds == old(conds)
    {
      semas := semas[s := Semaphore(value, [])];
    }

    /** One run of sema_down for thread `cur`: with a positive value it is
        decremented and the down is done; at 0 the caller is pushed on the
        front of the waiters (they are sorted only when one is woken) and
        the down is not done yet. */
    method SemaDown(s: SemaRef, cur: Tid) returns (done: bool)
      requires s in semas
      modifies this
      ensures done <==> old(semas[s].value) > 0
      ensures done ==> semas == old(semas)[s := Semaphore(old(semas[s].value) - 1, old(semas[s].waiters))]
      ensures !done ==> semas == old(semas)[s := Semaphore(0, [cur] + old(semas[s].waiters))]
      ensures threads == old(threads) && locks == old(locks) && conds == old(conds)
    {
      var sema := semas[s];
      if sema.value == 0 {
        semas := semas[s := sema.(waiters := [cur] + sema.waiters)];
        return false;
      }
      semas := semas[s := sema.(value := sema.value - 1)];
      return true;
    }

    /** sema_try_down: decrements a positive value and reports success;
        at 0 reports failure and changes nothing. */
    method SemaTryDown(s: SemaRef) returns (success: bool)
      requires s in semas
      modifies this
      ensures success <==> old(semas[s].value) > 0
      ensures success ==> semas == old(semas)[s := old(semas[s]).(value := old(semas[s].value) - 1)]
      ensures !success ==> semas == old(semas)
      ensures threads == old(threads) && locks == old(locks) && conds == old(conds)
    {
      var sema := semas[s];
      if sema.value > 0 {
        semas := semas[s := sema.(value := sema.value - 1)];
        success := true;
      } else {
        success := false;
      }
    }

    /** sema_up: the value goes up by exactly one and, when there are
        waiters, a waiter of highest priority is woken (WakeOne). */
    method SemaUp(s: SemaRef) returns (woken: Option<Tid>)
      requires s in semas
      modifies this
      ensures var w := WakeOne(old(semas[s].waiters), ThreadPriority(old(threads)));
              && woken == w.0
              && semas == old(semas)[s := Semaphore(old(semas[s].value) + 1, w.1)]
      ensures threads == old(threads) && locks == old(locks) && conds == old(conds)
    {
      var sema := semas[s];
      var w := WakeOne(sema.waiters, ThreadPriority(threads));
      woken := w.0;
      semas := semas[s := Semaphore(sema.value + 1, w.1)];
    }

    /** Two wake-ups in a row, with no priority changing in between, wake
        threads in descending priority order. */
    method SemaUpTwice(s: SemaRef) returns (first: Option<Tid>, second: Option<Tid>)
      requires s in semas
      modifies this
      ensures s in semas && semas[s].value == old(semas[s].value) + 2
      ensures first.Some? && second.Some? ==>
                ThreadPriority(threads)(first.value) >= ThreadPriority(threads)(second.value)
      ensures |old(semas[s].waiters)| >= 2 ==> first.Some? && second.Some?
    {
      ghost var ws := semas[s].waiters;
      first := SemaUp(s);
      ghost var mid := semas[s].waiters;
      second := SemaUp(s);
      if first.Some? && second.Some? {
        assert second.value in multiset(mid);
        assert second.value in multiset(ws);
      }
      if |ws| >= 2 {
        assert |multiset(mid)| + 1 == |multiset(ws)|;
      }
    }

    // -------------------------------------------------------------------
    // Locks

    /** lock_init: no holder, priority copy 0, semaphore at 1. */
    method LockInit(l: LockId)
      modifies this
      ensures locks == old(locks)[l := Lock(None, 0)]
      ensures semas == old(semas)[OfLock(l) := Semaphore(1, [])]
      ensures threads == old(threads) && conds == old(conds)
    {
      locks := locks[l := Lock(None, 0)];
      SemaInit(OfLock(l), 1);
    }

    /** lock_held_by_current_thread. */
    function LockHeldByCurrentThread(cur: Tid, l: LockId): (r: bool)
      reads this
      requires l in locks
      ensures r <==> locks[l].holder == Some(cur)
    {
      locks[l].holder == Some(cur)
    }

    /** The donation block of lock_acquire when the lock is held: the
        caller records the lock it waits for and walks the waits-for chain
        with its own priority.  `chainLength` bounds the chain.  The walk
        stops at a thread that waits for nothing or at an awaited lock
        without a holder; at the latter the loop as written would read the
        holder's priority through NULL and not move on (HolderlessWait). */
    method DonatePriority(cur: Tid, l: LockId, ghost chainLength: nat)
      requires cur in threads && l in locks
      requires ChainEnds(threads[cur := threads[cur].(lockWaitingFor := Some(l))], locks, cur, chainLength)
      modifies this
      ensures (threads, locks) ==
              Donate(mlfqs, old(threads)[cur := old(threads[cur]).(lockWaitingFor := Some(l))], old(locks),
                     cur, old(threads[cur].priority), chainLength)
      ensures semas == old(semas) && conds == old(conds)
    {
      threads := threads[cur := threads[cur].(lockWaitingFor := Some(l))];
      var priority := threads[cur].priority;
      var t := cur;
      ghost var n := chainLength;
      ghost var target := Donate(mlfqs, threads, locks, cur, priority, chainLength);
      while threads[t].lockWaitingFor != None && locks[threads[t].lockWaitingFor.value].holder != None
        invariant ChainEnds(threads, locks, t, n)
        invariant Donate(mlfqs, threads, locks, t, priority, n) == target
        invariant semas == old(semas) && conds == old(conds)
        decreases n
      {
        ghost var ts0, ls0 := threads, locks;
        assert ChainEnds(threads, locks, locks[threads[t].lockWaitingFor.value].holder.value, n - 1);
        var next := DonateOnce(t, priority);
        ChainFrame(ts0, ls0, threads, locks, next, n - 1);
        t := next;
        n := n - 1;
      }
    }
  
    /** One pass of the donation loop for a waiting thread `t`; the
        result is the holder of the lock `t` waits for. */
    method DonateOnce(t: Tid, priority: int) returns (next: Tid)
      requires t in threads && threads[t].lockWaitingFor.Some?
      requires threads[t].lockWaitingFor.value in locks
      requires locks[threads[t].lockWaitingFor.value].holder.Some?
      requires locks[threads[t].lockWaitingFor.value].holder.value in threads
      modifies this
      ensures (threads, locks) == DonateStep(mlfqs, old(threads), old(locks), t, priority)
      ensures next == old(locks[threads[t].lockWaitingFor.value].holder.value)
      ensures semas == old(semas) && conds == old(conds)
    {
      var waitingFor := threads[t].lockWaitingFor.value;
      var holder := locks[waitingFor].holder.value;
      if priority > threads[holder].priority {
        if !mlfqs {
          threads := threads[holder := threads[holder].(priority := priority)];
          locks := locks[waitingFor := locks[waitingFor].(priorityCurrent := priority)];
        }
      }
      next := holder;
    }

    /** The end of lock_acquire, once the semaphore is down: the caller
        holds the lock, the lock's copy of the holder priority is the
        caller's priority, the caller waits for nothing, and the lock joins
        its held locks in descending priority_current order. */
    method FinishAcquire(cur: Tid, l: LockId)
      requires cur in threads && l in locks
      modifies this
      ensures locks == old(locks)[l := Lock(Some(cur), old(threads[cur].priority))]
      ensures threads == old(threads)[cur := old(threads[cur]).(
                lockWaitingFor := None,
                locksHeld := InsertOrdered(l, old(threads[cur].locksHeld), LockPriority(locks)))]
      ensures multiset(threads[cur].locksHeld) == multiset(old(threads[cur].locksHeld)) + multiset{l}
      ensures SortedDesc(old(threads[cur].locksHeld), LockPriority(old(locks))) && l !in old(threads[cur].locksHeld) ==>
                SortedDesc(threads[cur].locksHeld, LockPriority(locks))
      ensures semas == old(semas) && conds == old(conds)
    {
      var th := threads[cur];
      locks := locks[l := Lock(Some(cur), th.priority)];
      if SortedDesc(th.locksHeld, LockPriority(old(locks))) && l !in th.locksHeld {
        SortedDescSameKeys(th.locksHeld, LockPriority(old(locks)), LockPriority(locks));
        InsertOrderedSorted(l, th.locksHeld, LockPriority(locks));
      }
      threads := threads[cur := th.(lockWaitingFor := None,
                                    locksHeld := InsertOrdered(l, th.locksHeld, LockPriority(locks)))];
    }

    /** The sema_down of lock_acquire and what follows it.  A thread that
        finds the semaphore at 0 is queued and the acquire is not complete;
        once woken it runs this step again. */
    method LockAcquireDown(cur: Tid, l: LockId) returns (acquired: bool)
      requires cur in threads && l in locks && OfLock(l) in semas
      modifies this
      ensures (acquired, threads, locks, semas) == AcquireDownState(old(threads), old(locks), old(semas), cur, l)
      ensures acquired <==> old(semas[OfLock(l)].value) > 0
      ensures acquired ==>
                && locks == old(locks)[l := Lock(Some(cur), old(threads[cur].priority))]
                && threads.Keys == old(threads.Keys)
                && threads[cur].lockWaitingFor.None? && threads[cur].priority == old(threads[cur].priority)
                && (forall u :: u in threads && u != cur ==> threads[u] == old(threads[u]))
                && multiset(threads[cur].locksHeld) == multiset(old(threads[cur].locksHeld)) + multiset{l}
                && (SortedDesc(old(threads[cur].locksHeld), LockPriority(old(locks))) && l !in old(threads[cur].locksHeld) ==>
                      SortedDesc(threads[cur].locksHeld, LockPriority(locks)))
                && semas == old(semas)[OfLock(l) := old(semas[OfLock(l)]).(value := old(semas[OfLock(l)].value) - 1)]
      ensures !acquired ==>
                && threads == old(threads) && locks == old(locks)
                && semas == old(semas)[OfLock(l) := Semaphore(0, [cur] + old(semas[OfLock(l)].waiters))]
      ensures conds == old(conds)
    {
      acquired := SemaDown(OfLock(l), cur);
      if acquired {
        FinishAcquire(cur, l);
      }
    }

    /** lock_acquire by thread `cur`, which must not hold the lock.  When
        the lock is held the caller first donates its priority along the
        waits-for chain (DonatePriority), which must end within
        `chainLength` steps. */
    method LockAcquire(cur: Tid, l: LockId, ghost chainLength: nat) returns (acquired: bool)
      requires cur in threads && l in locks && OfLock(l) in semas
      requires locks[l].holder != Some(cur)
      requires locks[l].holder.Some? ==>
                 ChainEnds(threads[cur := threads[cur].(lockWaitingFor := Some(l))], locks, cur, chainLength)
      modifies this
      ensures (acquired, threads, locks, semas) ==
              AcquireState(mlfqs, old(threads), old(locks), old(semas), cur, l, chainLength)
      ensures acquired <==> old(semas[OfLock(l)].value) > 0
      ensures acquired ==>
                && l in locks && locks[l].holder == Some(cur)
                && cur in threads && locks[l].priorityCurrent == threads[cur].priority
                && locks[l].priorityCurrent == old(threads[cur].priority)
                && threads[cur].lockWaitingFor.None? && l in threads[cur].locksHeld
                && multiset(threads[cur].locksHeld) == multiset(old(threads[cur].locksHeld)) + multiset{l}
                && OfLock(l) in semas && semas[OfLock(l)].value == old(semas[OfLock(l)].value) - 1
      ensures var d := Donated(mlfqs, old(threads), old(locks), cur, l, chainLength);
              acquired ==>
                && locks == d.1[l := Lock(Some(cur), d.0[cur].priority)]
                && threads == d.0[cur := d.0[cur].(lockWaitingFor := None,
                                                   locksHeld := InsertOrdered(l, d.0[cur].locksHeld, LockPriority(locks)))]
                && (SortedDesc(d.0[cur].locksHeld, LockPriority(d.1)) && l !in d.0[cur].locksHeld ==>
                      SortedDesc(threads[cur].locksHeld, LockPriority(locks)))
      ensures !acquired ==>
                && (threads, locks) == Donated(mlfqs, old(threads), old(locks), cur, l, chainLength)
                && OfLock(l) in semas && semas[OfLock(l)] == Semaphore(0, [cur] + old(semas[OfLock(l)].waiters))
      ensures semas.Keys == old(semas.Keys)
      ensures forall r :: r in semas && r != OfLock(l) ==> semas[r] == old(semas[r])
      ensures conds == old(conds)
    {
      AcquireDonation(cur, l, chainLength);
      ghost var d := Donated(mlfqs, old(threads), old(locks), cur, l, chainLength);
      assert threads == d.0 && locks == d.1 && semas == old(semas);
      acquired := LockAcquireDown(cur, l);
      if acquired {
        assert l in multiset(threads[cur].locksHeld);
      }
    }

    /** The block of lock_acquire run when the lock is held: the caller
        records the lock it waits for and donates along the chain.  The
        caller's own priority is left as it was. */
    method AcquireDonation(cur: Tid, l: LockId, ghost chainLength: nat)
      requires cur in threads && l in locks
      requires locks[l].holder != Some(cur)
      requires locks[l].holder.Some? ==>
                 ChainEnds(threads[cur := threads[cur].(lockWaitingFor := Some(l))], locks, cur, chainLength)
      modifies this
      ensures semas == old(semas) && conds == old(conds)
      ensures (threads, locks) == Donated(mlfqs, old(threads), old(locks), cur, l, chainLength)
      ensures cur in threads && threads[cur].priority == old(threads[cur].priority)
      ensures threads[cur].locksHeld == old(threads[cur].locksHeld)
    {
      if locks[l].holder != None {
        DonatePriority(cur, l, chainLength);
        ChainFrame(old(threads)[cur := old(threads[cur]).(lockWaitingFor := Some(l))], old(locks),
                   threads, locks, cur, chainLength);
        ChainAcyclic(old(threads)[cur := old(threads[cur]).(lockWaitingFor := Some(l))], old(locks), cur, chainLength);
        DonateThreads(mlfqs, old(threads)[cur := old(threads[cur]).(lockWaitingFor := Some(l))], old(locks),
                      cur, old(threads[cur].priority), chainLength);
      }
    }

    /** lock_try_acquire: takes the lock only when its semaphore can be
        downed without waiting, and then records only the holder. */
    method LockTryAcquire(cur: Tid, l: LockId) returns (success: bool)
      requires l in locks && OfLock(l) in semas
      requires locks[l].holder != Some(cur)
      modifies this
      ensures success <==> old(semas[OfLock(l)].value) > 0
      ensures success ==>
                && locks == old(locks)[l := old(locks[l]).(holder := Some(cur))]
                && semas == old(semas)[OfLock(l) := old(semas[OfLock(l)]).(value := old(semas[OfLock(l)].value) - 1)]
      ensures !success ==> locks == old(locks) && semas == old(semas)
      ensures threads == old(threads) && conds == old(conds)
    {
      success := SemaTryDown(OfLock(l));
      if success {
        locks := locks[l := locks[l].(holder := Some(cur))];
      }
    }

    /** lock_release by its holder `cur`: the lock loses its holder and
        leaves the caller's held locks, the caller's priority is restored
        (RestoredPriority), and the lock's semaphore is upped. */
    method LockRelease(cur: Tid, l: LockId) returns (woken: Option<Tid>)
      requires cur in threads && l in locks && OfLock(l) in semas
      requires locks[l].holder == Some(cur)
      requires forall k :: k in threads[cur].locksHeld ==> OfLock(k) in semas
      modifies this
      ensures locks == old(locks)[l := old(locks[l]).(holder := None)]
      ensures var held := RemoveFirst(old(threads[cur].locksHeld), l);
              threads == old(threads)[cur := old(threads[cur]).(
                locksHeld := held,
                priority := RestoredPriority(mlfqs, old(threads[cur]), held, locks, old(semas), old(threads)))]
      ensures var w := WakeOne(old(semas[OfLock(l)].waiters), ThreadPriority(threads));
              && woken == w.0
              && semas == old(semas)[OfLock(l) := Semaphore(old(semas[OfLock(l)].value) + 1, w.1)]
      ensures conds == old(conds)
    {
      ReleaseBookkeeping(cur, l);
      ghost var ts1, ls1, ss1 := threads, locks, semas;
      assert ss1 == old(semas);
      woken := SemaUp(OfLock(l));
      assert threads == ts1 && locks == ls1;
    }

    /** The part of lock_release before its sema_up. */
    method ReleaseBookkeeping(cur: Tid, l: LockId)
      requires cur in threads && l in locks
      requires forall k :: k in threads[cur].locksHeld ==> OfLock(k) in semas
      modifies this
      ensures semas == old(semas) && conds == old(conds)
      ensures locks == old(locks)[l := old(locks[l]).(holder := None)]
      ensures var held := RemoveFirst(old(threads[cur].locksHeld), l);
              threads == old(threads)[cur := old(threads[cur]).(
                locksHeld := held,
                priority := RestoredPriority(mlfqs, old(threads[cur]), held, locks, semas, old(threads)))]
    {
      var th := threads[cur];
      var newLocks := locks[l := locks[l].(holder := None)];
      var held := RemoveFirst(th.locksHeld, l);
      var priority := RestoredPriority(mlfqs, th, held, newLocks, semas, threads);
      locks := newLocks;
      threads := threads[cur := th.(locksHeld := held, priority := priority)];
    }

    // -------------------------------------------------------------------
    // Condition variables

    /** cond_init: no waiters. */
    method CondInit(c: CondId)
      modifies this
      ensures conds == old(conds)[c := []]
      ensures threads == old(threads) && locks == old(locks) && semas == old(semas)
    {
      conds := conds[c := []];
    }

    /** cond_wait up to the point where the caller blocks: a fresh
        semaphore `s` at 0 carries the caller's priority into the waiters
        in descending order, the lock is released, and the down on `s`
        queues the caller. */
    method CondWait(c: CondId, l: LockId, cur: Tid, s: SemaRef) returns (woken: Option<Tid>)
      requires c in conds && cur in threads && l in locks && OfLock(l) in semas
      requires locks[l].holder == Some(cur)
      requires forall k :: k in threads[cur].locksHeld ==> OfLock(k) in semas
      requires s.Plain? && s !in semas
      modifies this
      ensures conds == old(conds)[c := InsertOrdered(SemaphoreElem(s, old(threads[cur].priority)), old(conds[c]), ElemPriority())]
      ensures multiset(conds[c]) == multiset(old(conds[c])) + multiset{SemaphoreElem(s, old(threads[cur].priority))}
      ensures SortedDesc(old(conds[c]), ElemPriority()) ==> SortedDesc(conds[c], ElemPriority())
      ensures s in semas && semas[s] == Semaphore(0, [cur])
      ensures l in locks && locks[l].holder.None?
      ensures locks == old(locks)[l := old(locks[l]).(holder := None)]
      ensures var held := RemoveFirst(old(threads[cur].locksHeld), l);
              threads == old(threads)[cur := old(threads[cur]).(
                locksHeld := held,
                priority := RestoredPriority(mlfqs, old(threads[cur]), held, locks, old(semas), old(threads)))]
      ensures woken == WakeOne(old(semas[OfLock(l)].waiters), ThreadPriority(threads)).0
      ensures semas == old(semas)[s := Semaphore(0, [cur])][OfLock(l) := UpN(old(semas[OfLock(l)]), 1, ThreadPriority(threads))]
    {
      CondEnqueue(c, cur, s);
      ghost var ss1 := semas;
      assert ss1 == old(semas)[s := Semaphore(0, [])] && ss1[OfLock(l)] == old(semas[OfLock(l)]);
      woken := ReleaseAndBlock(cur, l, s);
      RestoredIgnoresPlain(mlfqs, old(threads[cur]), RemoveFirst(old(threads[cur].locksHeld), l), locks,
                           old(semas), old(threads), s, Semaphore(0, []));
      UpdateOverride(old(semas), s, Semaphore(0, []), Semaphore(0, [cur]));
    }

    /** The lock_release and the sema_down of cond_wait, on a semaphore
        `s` at 0 with no waiters. */
    method ReleaseAndBlock(cur: Tid, l: LockId, s: SemaRef) returns (woken: Option<Tid>)
      requires cur in threads && l in locks && OfLock(l) in semas
      requires locks[l].holder == Some(cur)
      requires forall k :: k in threads[cur].locksHeld ==> OfLock(k) in semas
      requires s.Plain? && s in semas && semas[s] == Semaphore(0, [])
      modifies this
      ensures conds == old(conds)
      ensures locks == old(locks)[l := old(locks[l]).(holder := None)]
      ensures var held := RemoveFirst(old(threads[cur].locksHeld), l);
              threads == old(threads)[cur := old(threads[cur]).(
                locksHeld := held,
                priority := RestoredPriority(mlfqs, old(threads[cur]), held, locks, old(semas), old(threads)))]
      ensures woken == WakeOne(old(semas[OfLock(l)].waiters), ThreadPriority(threads)).0
      ensures semas == old(semas)[s := Semaphore(0, [cur])][OfLock(l) := UpN(old(semas[OfLock(l)]), 1, ThreadPriority(threads))]
    {
      woken := LockRelease(cur, l);
      ghost var ss2 := semas;
      ghost var up := semas[OfLock(l)];
      UpOnce(old(semas[OfLock(l)]), ThreadPriority(threads));
      var done := SemaDown(s, cur);
      assert [cur] + ss2[s].waiters == [cur];
      SwapUpdates(old(semas), s, OfLock(l), Semaphore(0, []), up, Semaphore(0, [cur]));
    }

    /** The part of cond_wait before the lock is released: the waiter's
        semaphore starts at 0 and the waiter enters the list in order of
        the caller's priority. */
    method CondEnqueue(c: CondId, cur: Tid, s: SemaRef)
      requires c in conds && cur in threads
      modifies this
      ensures threads == old(threads) && locks == old(locks)
      ensures semas == old(semas)[s := Semaphore(0, [])]
      ensures conds == old(conds)[c := InsertOrdered(SemaphoreElem(s, old(threads[cur].priority)), old(conds[c]), ElemPriority())]
      ensures multiset(conds[c]) == multiset(old(conds[c])) + multiset{SemaphoreElem(s, old(threads[cur].priority))}
      ensures SortedDesc(old(conds[c]), ElemPriority()) ==> SortedDesc(conds[c], ElemPriority())
    {
      SemaInit(s, 0);
      var e := SemaphoreElem(s, threads[cur].priority);
      if SortedDesc(conds[c], ElemPriority()) {
        InsertOrderedSorted(e, conds[c], ElemPriority());
      }
      conds := conds[c := InsertOrdered(e, conds[c], ElemPriority())];
    }

    /** The rest of cond_wait once the caller's semaphore was upped:
        the down completes and the lock is acquired again. */
    method CondWaitResume(l: LockId, cur: Tid, s: SemaRef, ghost chainLength: nat) returns (acquired: bool)
      requires s in semas && semas[s].value > 0 && s != OfLock(l)
      requires cur in threads && l in locks && OfLock(l) in semas
      requires locks[l].holder != Some(cur)
      requires locks[l].holder.Some? ==>
                 ChainEnds(threads[cur := threads[cur].(lockWaitingFor := Some(l))], locks, cur, chainLength)
      modifies this
      ensures (acquired, threads, locks, semas) ==
              AcquireState(mlfqs, old(threads), old(locks),
                           old(semas)[s := old(semas[s]).(value := old(semas[s].value) - 1)], cur, l, chainLength)
      ensures s in semas && semas[s].value == old(semas[s].value) - 1
      ensures acquired <==> old(semas[OfLock(l)].value) > 0
      ensures acquired ==> l in locks && locks[l].holder == Some(cur)
      ensures conds == old(conds)
    {
      var done := SemaDown(s, cur);
      acquired := LockAcquire(cur, l, chainLength);
    }

    /** cond_signal: the front waiter, one of highest enqueue priority when
        the list is in order, leaves the list and its semaphore is upped. */
    method CondSignal(c: CondId, l: LockId, cur: Tid) returns (signalled: Option<SemaRef>)
      requires c in conds && l in locks && locks[l].holder == Some(cur)
      requires forall i :: 0 <= i < |conds[c]| ==> conds[c][i].semaphore in semas
      modifies this
      ensures old(conds[c]) == [] ==>
                signalled.None? && conds == old(conds) && semas == old(semas)
      ensures old(conds[c]) != [] ==>
                && signalled == Some(old(conds[c][0].semaphore))
                && conds == old(conds)[c := old(conds[c][1..])]
                && semas.Keys == old(semas.Keys)
                && semas[signalled.value].value == old(semas[signalled.value].value) + 1
                && (forall r :: r in semas && r != signalled.value ==> semas[r] == old(semas[r]))
                && semas == old(semas)[signalled.value := UpN(old(semas[signalled.value]), 1, ThreadPriority(threads))]
      ensures SortedDesc(old(conds[c]), ElemPriority()) && old(conds[c]) != [] ==>
                && SortedDesc(conds[c], ElemPriority())
                && forall e :: e in old(conds[c]) ==> old(conds[c][0].priority) >= e.priority
      ensures threads == old(threads) && locks == old(locks)
    {
      signalled := None;
      var ws := conds[c];
      if ws != [] {
        if SortedDesc(ws, ElemPriority()) {
          FrontIsHighest(ws);
        }
        var front := SignalFront(c);
        signalled := Some(front);
      }
    }

    /** The list_pop_front and sema_up of cond_signal. */
    method SignalFront(c: CondId) returns (front: SemaRef)
      requires c in conds && conds[c] != [] && conds[c][0].semaphore in semas
      modifies this
      ensures front == old(conds[c][0].semaphore)
      ensures conds == old(conds)[c := old(conds[c][1..])]
      ensures semas == old(semas)[front := UpN(old(semas[front]), 1, ThreadPriority(old(threads)))]
      ensures threads == old(threads) && locks == old(locks)
    {
      var ws := conds[c];
      front := ws[0].semaphore;
      conds := conds[c := ws[1..]];
      ghost var ss0 := semas;
      var woken := SemaUp(front);
      assert semas == ss0[front := Semaphore(ss0[front].value + 1, WakeOne(ss0[front].waiters, ThreadPriority(threads)).1)];
      UpOnce(ss0[front], ThreadPriority(threads));
    }

    /** cond_broadcast: signals until no waiter is left, so every waiting
        semaphore is upped once per entry it has in the list. */
    method CondBroadcast(c: CondId, l: LockId, cur: Tid)
      requires c in conds && l in locks && locks[l].holder == Some(cur)
      requires forall i :: 0 <= i < |conds[c]| ==> conds[c][i].semaphore in semas
      modifies this
      ensures c in conds && conds == old(conds)[c := []]
      ensures semas.Keys == old(semas.Keys)
      ensures forall r :: r in semas ==> semas[r].value == old(semas[r].value) + CountSema(old(conds[c]), r)
      ensures forall r :: r in semas ==> semas[r] == UpN(old(semas[r]), CountSema(old(conds[c]), r), ThreadPriority(threads))
      ensures threads == old(threads) && locks == old(locks)
    {
      ghost var ws := conds[c];
      ghost var i := 0;
      while conds[c] != []
        invariant c in conds && 0 <= i <= |ws| && conds == old(conds)[c := ws[i..]]
        invariant forall j :: i <= j < |ws| ==> ws[j].semaphore in semas
        invariant semas.Keys == old(semas.Keys)
        invariant forall r :: r in semas ==> semas[r] == UpN(old(semas[r]), CountSema(ws[..i], r), ThreadPriority(threads))
        invariant threads == old(threads) && locks == old(locks) && l in locks && locks[l].holder == Some(cur)
        decreases |conds[c]|
      {
        BroadcastStep(c, l, cur, ws, i, old(semas), old(conds));
        i := i + 1;
      }
      assert ws[..i] == ws;
    }

    /** One signal of cond_broadcast, as the `i`-th of the list `ws` the
        broadcast started from (with semaphores `base` and conditions
        `conds0`). */
    method BroadcastStep(c: CondId, l: LockId, cur: Tid, ghost ws: seq<SemaphoreElem>, ghost i: nat,
                         ghost base: map<SemaRef, Semaphore>, ghost conds0: map<CondId, seq<SemaphoreElem>>)
      requires c in conds && l in locks && locks[l].holder == Some(cur)
      requires i < |ws| && conds == conds0[c := ws[i..]]
      requires forall j :: i <= j < |ws| ==> ws[j].semaphore in semas
      requires semas.Keys == base.Keys
      requires forall r :: r in semas ==> semas[r] == UpN(base[r], CountSema(ws[..i], r), ThreadPriority(threads))
      modifies this
      ensures threads == old(threads) && locks == old(locks)
      ensures conds == conds0[c := ws[i + 1..]]
      ensures forall j :: i + 1 <= j < |ws| ==> ws[j].semaphore in semas
      ensures semas.Keys == base.Keys
      ensures forall r :: r in semas ==> semas[r].value == base[r].value + CountSema(ws[..i + 1], r)
      ensures forall r :: r in semas ==> semas[r] == UpN(base[r], CountSema(ws[..i + 1], r), ThreadPriority(threads))
    {
      ghost var before := semas;
      BroadcastIndices(ws, i);
      var signalled := CondSignal(c, l, cur);
      PopCond(conds0, c, ws[i..], ws[i + 1..]);
      BroadcastUps(before, semas, base, ws, i, ThreadPriority(threads));
    }
  }
}
