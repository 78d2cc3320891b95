/** The process-lifecycle bookkeeping of userprog/process.c over the
    process directory: recording an exit status, waiting for a child,
    the cleanup a dying process does (mark itself dead, orphan its
    children, signal its waiter, sweep orphaned records, close its files),
    and the result handshake between process_execute and start_process.
    Each record semaphore is its counter: a wait on the wait gate that
    would block is reported as `Blocked` instead of blocking, and the field
    guard, always taken and given back within one call, is left as it is. */
module Process {
  import opened Wrappers
  import opened Slots
  import opened PList
  import opened FList
  import opened Syscall

  datatype WaitOutcome = Returned(status: int) | Blocked

  /** process_exit: the caller's record, if it has one, takes `status` as
      its exit status; nothing else changes. */
  method ProcessExit(pl: ProcessList, curTid: nat, status: int) returns (pid: int)
    requires pl.Valid()
    modifies pl.content
    ensures pl.Valid()
    ensures ProcOfTid(old(pl.content[..]), curTid, pid)
    ensures old(pl.Find(pid)).None? ==> pl.content[..] == old(pl.content[..])
    ensures old(pl.Find(pid)).Some? ==>
              pl.content[..] == old(pl.content[..])[pid := Some(old(pl.content[pid]).value.(exitStatus := status))]
  {
    pid := pl.GetProcFromTid(curTid);
    var p := pl.Find(pid);
    if p != None {
      ghost var before := pl.content[..];
      pl.content[pid] := Some(p.value.(exitStatus := status));
      assert pl.content[..] == before[pid := Some(p.value.(exitStatus := status))];
      CountNoneUpdate(before, pid, Some(p.value.(exitStatus := status)));
    }
  }

  /** process_wait: -1 at once, changing nothing, when there is no record
      at `childId` or the record's parent is not the caller; `Blocked` while
      the child has not died; otherwise the child's exit status, with its
      record removed from the directory. */
  method ProcessWait(pl: ProcessList, curTid: nat, childId: int) returns (pidCurrent: int, outcome: WaitOutcome)
    requires pl.Valid()
    modifies pl, pl.content
    ensures pl.Valid()
    ensures ProcOfTid(old(pl.content[..]), curTid, pidCurrent)
    ensures var child := old(pl.Find(childId));
            (child.None? || child.value.pidParent != pidCurrent) ==>
              && outcome == Returned(-1)
              && pl.content[..] == old(pl.content[..])
              && pl.numOpenSpaces == old(pl.numOpenSpaces) && pl.openSlot == old(pl.openSlot)
    ensures var child := old(pl.Find(childId));
            (child.Some? && child.value.pidParent == pidCurrent && child.value.waitGate == 0) ==>
              && outcome == Blocked
              && pl.content[..] == old(pl.content[..])
              && pl.numOpenSpaces == old(pl.numOpenSpaces) && pl.openSlot == old(pl.openSlot)
    ensures var child := old(pl.Find(childId));
            (child.Some? && child.value.pidParent == pidCurrent && child.value.waitGate > 0) ==>
              && outcome == Returned(child.value.exitStatus)
              && pl.content[..] == old(pl.content[..])[childId := None]
              && pl.numOpenSpaces == old(pl.numOpenSpaces) + 1 && pl.openSlot == childId
  {
    pidCurrent := pl.GetProcFromTid(curTid);
    var pChild := pl.Find(childId);
    if pChild == None || pChild.value.pidParent != pidCurrent {
      return pidCurrent, Returned(-1);
    }
    if pChild.value.waitGate == 0 {
      return pidCurrent, Blocked;
    }
    var status := pChild.value.exitStatus;
    var removed := pl.Remove(childId);
    outcome := Returned(status);
  }

  /** Once a wait has returned, waiting for the same pid again returns -1
      immediately: the record is gone or was never the caller's child. */
  method WaitTwice(pl: ProcessList, curTid: nat, childId: int) returns (first: WaitOutcome, second: WaitOutcome)
    requires pl.Valid()
    modifies pl, pl.content
    ensures pl.Valid()
    ensures first.Returned? ==> second == Returned(-1)
  {
    var pid1, pid2;
    pid1, first := ProcessWait(pl, curTid, childId);
    ghost var mid := pl.content[..];
    pid2, second := ProcessWait(pl, curTid, childId);
    if first.Returned? && old(pl.Find(childId)).Some? && old(pl.Find(childId)).value.pidParent == pid1 {
      assert mid[childId].None?;
    } else if first.Returned? {
      assert mid == old(pl.content[..]);
      ProcOfTidUnique(mid, curTid, pid1, pid2);
    }
  }

  /** A record as the first half of process_cleanup leaves it: a child of
      the dying process `pid` loses its live parent, the dying process's
      own record is marked dead and its wait gate is signalled once, and
      every other field is kept. */
  function AfterExit(r: Option<Process>, i: int, pid: int): (a: Option<Process>)
    ensures a.Some? <==> r.Some?
    ensures a.Some? ==>
              && a.value.parentAlive == (r.value.parentAlive && r.value.pidParent != pid)
              && a.value.isAlive == (r.value.isAlive && i != pid)
              && a.value.waitGate == r.value.waitGate + (if i == pid then 1 else 0)
              && a.value.(parentAlive := r.value.parentAlive, isAlive := r.value.isAlive,
                          waitGate := r.value.waitGate) == r.value
  {
    match r
    case None => None
    case Some(p) =>
      var q := if i == pid then p.(isAlive := false) else p;
      var q' := if q.pidParent == pid then q.(parentAlive := false) else q;
      Some(if i == pid then q'.(waitGate := q'.waitGate + 1) else q')
  }

  /** The first half of process_cleanup: with the caller's record found,
      it is marked dead, each child record is orphaned and the caller's
      wait gate is signalled; `status` is the exit status to print, -1 when
      the caller has no record (and then nothing changes). */
  method MarkExited(pl: ProcessList, curTid: nat) returns (pid: int, status: int)
    requires pl.Valid()
    modifies pl.content
    ensures pl.Valid()
    ensures ProcOfTid(old(pl.content[..]), curTid, pid)
    ensures old(pl.Find(pid)).None? ==> status == -1 && pl.content[..] == old(pl.content[..])
    ensures old(pl.Find(pid)).Some? ==>
              && status == old(pl.Find(pid)).value.exitStatus
              && forall i :: 0 <= i < PLIST_MAX_LENGTH ==> pl.content[i] == AfterExit(old(pl.content[i]), i, pid)
  {
    status := -1;
    pid := pl.GetProcFromTid(curTid);
    var p := pl.Find(pid);
    if p == None {
      return;
    }
    status := p.value.exitStatus;
    ghost var start := pl.content[..];
    pl.content[pid] := Some(p.value.(isAlive := false));
    assert pl.content[..] == start[pid := Some(p.value.(isAlive := false))];
    CountNoneUpdate(start, pid, Some(p.value.(isAlive := false)));

    OrphanChildren(pl, pid);

    ghost var pre := pl.content[..];
    var me := pl.content[pid].value;
    pl.content[pid] := Some(me.(waitGate := me.waitGate + 1));
    assert pl.content[..] == pre[pid := Some(me.(waitGate := me.waitGate + 1))];
    CountNoneUpdate(pre, pid, Some(me.(waitGate := me.waitGate + 1)));
    forall i | 0 <= i < PLIST_MAX_LENGTH
      ensures pl.content[i] == AfterExit(start[i], i, pid)
    {
      if i != pid {
        assert pl.content[i] == pre[i] == Orphaned(start[i], pid);
      }
    }
  }

  /** The loop over the directory in process_cleanup: every record whose
      parent is `pid` has its parent marked dead; nothing else changes. */
  method OrphanChildren(pl: ProcessList, pid: int)
    requires pl.Valid()
    modifies pl.content
    ensures pl.Valid()
    ensures forall j :: 0 <= j < PLIST_MAX_LENGTH ==> pl.content[j] == Orphaned(old(pl.content[j]), pid)
  {
    for i := 0 to PLIST_MAX_LENGTH
      invariant pl.Valid()
      invariant forall j :: 0 <= j < i ==> pl.content[j] == Orphaned(old(pl.content[j]), pid)
      invariant forall j :: i <= j < PLIST_MAX_LENGTH ==> pl.content[j] == old(pl.content[j])
    {
      if pl.content[i] != None && pid == pl.content[i].value.pidParent {
        ghost var pre := pl.content[..];
        var child := pl.content[i].value.(parentAlive := false);
        pl.content[i] := Some(child);
        assert pl.content[..] == pre[i := Some(child)];
        CountNoneUpdate(pre, i, Some(child));
      }
    }
  }

  function Orphaned(r: Option<Process>, pid: int): (a: Option<Process>)
    ensures a.Some? <==> r.Some?
    ensures a.Some? ==>
              && a.value.parentAlive == (r.value.parentAlive && r.value.pidParent != pid)
              && a.value.(parentAlive := r.value.parentAlive) == r.value
  {
    if r.Some? && r.value.pidParent == pid then Some(r.value.(parentAlive := false)) else r
  }

  /** What the second half of process_cleanup does to one slot: a record
      whose parent is gone is removed, whether or not the process itself is
      still alive; every other slot is kept. */
  function Swept(r: Option<Process>): (a: Option<Process>)
    ensures a.Some? ==> a == r && a.value.parentAlive
    ensures r.Some? && r.value.parentAlive ==> a == r
    ensures r.Some? && !r.value.parentAlive ==> a.None?
  {
    if r.Some? && !r.value.parentAlive then None else r
  }

  /** The highest index below n whose record is orphaned, or -1. */
  ghost function LastOrphan(s: seq<Option<Process>>, n: int): (k: int)
    requires 0 <= n <= |s|
    ensures -1 <= k < n
    ensures k != -1 ==> s[k].Some? && !s[k].value.parentAlive
    ensures forall j :: k < j < n ==> Swept(s[j]) == s[j]
  {
    if n == 0 then -1
    else if s[n - 1].Some? && !s[n - 1].value.parentAlive then n - 1
    else LastOrphan(s, n - 1)
  }

  /** The sweep of process_cleanup: every orphaned record is removed and
      no other; the cursor ends at the last slot removed. */
  method SweepOrphans(pl: ProcessList)
    requires pl.Valid()
    modifies pl, pl.content
    ensures pl.Valid()
    ensures forall i :: 0 <= i < PLIST_MAX_LENGTH ==> pl.content[i] == Swept(old(pl.content[i]))
    ensures forall i :: 0 <= i < PLIST_MAX_LENGTH && pl.content[i].Some? ==> pl.content[i].value.parentAlive
    ensures var last := LastOrphan(old(pl.content[..]), PLIST_MAX_LENGTH);
            pl.openSlot == (if last == -1 then old(pl.openSlot) else last)
  {
    ghost var start := pl.content[..];
    for i := 0 to PLIST_MAX_LENGTH
      invariant pl.Valid()
      invariant forall j :: 0 <= j < i ==> pl.content[j] == Swept(start[j])
      invariant forall j :: i <= j < PLIST_MAX_LENGTH ==> pl.content[j] == start[j]
      invariant var last := LastOrphan(start, i);
                pl.openSlot == (if last == -1 then old(pl.openSlot) else last)
    {
      if pl.content[i] != None {
        var process := pl.content[i].value;
        if !process.parentAlive {
          var removed := pl.Remove(i);
        }
      }
    }
  }

  /** process_cleanup: the status printed, and the files closed. */
  method ProcessCleanup(pl: ProcessList, ft: FileTable, curTid: nat) returns (pid: int, status: int, closed: seq<File>)
    requires pl.Valid() && ft.Valid()
    modifies pl, pl.content, ft, ft.content
    ensures pl.Valid() && ft.Valid()
    ensures ProcOfTid(old(pl.content[..]), curTid, pid)
    ensures status == (if old(pl.Find(pid)).Some? then old(pl.Find(pid)).value.exitStatus else -1)
    ensures old(pl.Find(pid)).Some? ==>
              forall i :: 0 <= i < PLIST_MAX_LENGTH ==>
                pl.content[i] == Swept(AfterExit(old(pl.content[i]), i, pid))
    ensures old(pl.Find(pid)).None? ==>
              forall i :: 0 <= i < PLIST_MAX_LENGTH ==> pl.content[i] == Swept(old(pl.content[i]))
    ensures forall i :: 0 <= i < PLIST_MAX_LENGTH && pl.content[i].Some? ==> pl.content[i].value.parentAlive
    ensures closed == Occupied(old(ft.content[2..]))
    ensures forall i :: 0 <= i < FLIST_MAX_LENGTH ==> ft.content[i].None?
  {
    pid, status := MarkExited(pl, curTid);
    SweepOrphans(pl);
    closed := CloseAll(ft);
  }

  /** After cleanup a child of the dead process is never left in the
      directory: it had its parent cleared and was swept. */
  lemma CleanupRemovesChildren(r: Option<Process>, i: int, pid: int)
    requires r.Some? && r.value.pidParent == pid
    ensures Swept(AfterExit(r, i, pid)).None?
  {
  }

  /** The exit system call: process_exit is called with no argument, so the
      status recorded is whatever the callee receives (`received`), not
      the `status` passed to exit; then the thread exits, which runs the
      cleanup. */
  method SysExit(pl: ProcessList, ft: FileTable, curTid: nat, status: int, received: int)
    returns (pid: int, printed: int, closed: seq<File>)
    requires pl.Valid() && ft.Valid()
    modifies pl, pl.content, ft, ft.content
    ensures pl.Valid() && ft.Valid()
    ensures ProcOfTid(old(pl.content[..]), curTid, pid)
    ensures printed == (if old(pl.Find(pid)).Some? then received else -1)
    ensures closed == Occupied(old(ft.content[2..]))
  {
    pid := ProcessExit(pl, curTid, received);
    ghost var mid := pl.content[..];
    assert forall j :: 0 <= j < PLIST_MAX_LENGTH ==> (HasTid(mid[j], curTid) <==> HasTid(old(pl.content[j]), curTid));
    assert ProcOfTid(mid, curTid, pid);
    var pid2;
    pid2, printed, closed := ProcessCleanup(pl, ft, curTid);
    ProcOfTidUnique(mid, curTid, pid, pid2);
  }

  /** The fields of parameters_to_start_process that carry the result back
      to the parent, and whether the child up-ed sema_start_p, the only
      thing that lets the parent continue. */
  datatype Handshake = Handshake(childLoadSuccess: bool, pidNew: int, signalled: bool)

  /** start_process, from the point the loader has answered (`loaded`):
      on success the child looks up its parent's pid, builds its record
      (`allocOk` says whether the allocation succeeds) and inserts it; on a
      failed load it reports failure.  As written, a failed record
      allocation exits the thread without signalling the parent. */
  method StartProcess(pl: ProcessList, tid: nat, name: string, parentTid: nat, loaded: bool, allocOk: bool)
    returns (parent: int, hs: Handshake)
    requires pl.Valid()
    modifies pl, pl.content
    ensures pl.Valid()
    ensures ProcOfTid(old(pl.content[..]), parentTid, parent)
    ensures !(loaded && allocOk) ==>
              && pl.content[..] == old(pl.content[..])
              && pl.numOpenSpaces == old(pl.numOpenSpaces) && pl.openSlot == old(pl.openSlot)
    ensures !loaded ==> hs == Handshake(false, -1, true)
    ensures loaded && !allocOk ==> hs == Handshake(true, -1, false)
    ensures loaded && allocOk ==> hs.childLoadSuccess && hs.signalled
    ensures loaded && allocOk ==> (hs.pidNew == -1 <==> old(pl.numOpenSpaces) == 0)
    ensures loaded && allocOk && hs.pidNew != -1 ==>
              && 0 <= hs.pidNew < PLIST_MAX_LENGTH && old(pl.content[hs.pidNew]).None?
              && pl.content[..] == old(pl.content[..])[hs.pidNew := ProcessCreate(tid, name, parent, true)]
  {
    hs := Handshake(false, -1, false);
    parent := pl.GetProcFromTid(parentTid);
    if loaded {
      hs := hs.(childLoadSuccess := true);
      var p := ProcessCreate(tid, name, parent, allocOk);
      if p != None {
        var pidNew := pl.Insert(p.value);
        hs := hs.(pidNew := pidNew);
      } else {
        return;
      }
    }
    if !loaded {
      hs := hs.(childLoadSuccess := false, signalled := true);
      return;
    }
    hs := hs.(signalled := true);
  }

  /** The same with the allocation failure reported to the parent as a
      load failure before the thread exits. */
  method StartProcessCorrected(pl: ProcessList, tid: nat, name: string, parentTid: nat, loaded: bool, allocOk: bool)
    returns (parent: int, hs: Handshake)
    requires pl.Valid()
    modifies pl, pl.content
    ensures pl.Valid()
    ensures hs.signalled
    ensures ProcOfTid(old(pl.content[..]), parentTid, parent)
    ensures !(loaded && allocOk) ==>
              && hs == Handshake(false, -1, true)
              && pl.content[..] == old(pl.content[..])
              && pl.numOpenSpaces == old(pl.numOpenSpaces) && pl.openSlot == old(pl.openSlot)
    ensures loaded && allocOk ==> hs.childLoadSuccess
    ensures loaded && allocOk ==> (hs.pidNew == -1 <==> old(pl.numOpenSpaces) == 0)
    ensures loaded && allocOk && hs.pidNew != -1 ==>
              && 0 <= hs.pidNew < PLIST_MAX_LENGTH && old(pl.content[hs.pidNew]).None?
              && pl.content[..] == old(pl.content[..])[hs.pidNew := ProcessCreate(tid, name, parent, true)]
  {
    hs := Handshake(false, -1, false);
    parent := pl.GetProcFromTid(parentTid);
    if loaded {
      hs := hs.(childLoadSuccess := true);
      var p := ProcessCreate(tid, name, parent, allocOk);
      if p != None {
        var pidNew := pl.Insert(p.value);
        hs := hs.(pidNew := pidNew);
      } else {
        hs := hs.(childLoadSuccess := false, signalled := true);
        return;
      }
    }
    if !loaded {
      hs := hs.(childLoadSuccess := false, signalled := true);
      return;
    }
    hs := hs.(signalled := true);
  }

  /** process_execute's answer once start_process has run: None when the
      parent's sema_down on the handshake never returns. */
  function ProcessExecute(threadCreated: bool, hs: Handshake): (r: Option<int>)
    ensures r.None? <==> threadCreated && !hs.signalled
    ensures r.Some? && r.value != -1 ==> threadCreated && hs.childLoadSuccess && r.value == hs.pidNew
    ensures !threadCreated || (hs.signalled && !hs.childLoadSuccess) ==> r == Some(-1)
  {
    if !threadCreated then Some(-1)
    else if !hs.signalled then None
    else if hs.childLoadSuccess then Some(hs.pidNew)
    else Some(-1)
  }

  /** exec as written: the new pid when the thread starts, the program
      loads and its record is allocated and inserted; -1 when the thread
      cannot be created, the load fails or the directory is full; and no
      answer at all (the parent waits forever) when the record cannot be
      allocated. */
  method Exec(pl: ProcessList, tid: nat, name: string, parentTid: nat,
              threadCreated: bool, loaded: bool, allocOk: bool) returns (r: Option<int>)
    requires pl.Valid()
    modifies pl, pl.content
    ensures pl.Valid()
    ensures r.None? <==> threadCreated && loaded && !allocOk
    ensures r == Some(-1) <==> !threadCreated || !loaded || (allocOk && old(pl.numOpenSpaces) == 0)
    ensures r.Some? && r.value != -1 ==>
              0 <= r.value < PLIST_MAX_LENGTH && pl.content[r.value].Some? && pl.content[r.value].value.tid == tid
  {
    if !threadCreated {
      return Some(-1);
    }
    var parent, hs := StartProcess(pl, tid, name, parentTid, loaded, allocOk);
    r := ProcessExecute(threadCreated, hs);
  }

  /** The same over the corrected start_process: exec always answers. */
  method ExecCorrected(pl: ProcessList, tid: nat, name: string, parentTid: nat,
                       threadCreated: bool, loaded: bool, allocOk: bool) returns (r: Option<int>)
    requires pl.Valid()
    modifies pl, pl.content
    ensures pl.Valid()
    ensures r.Some?
    ensures r.value == -1 <==> !threadCreated || !loaded || !allocOk || old(pl.numOpenSpaces) == 0
    ensures r.value != -1 ==>
              0 <= r.value < PLIST_MAX_LENGTH && pl.content[r.value].Some? && pl.content[r.value].value.tid == tid
  {
    if !threadCreated {
      return Some(-1);
    }
    var parent, hs := StartProcessCorrected(pl, tid, name, parentTid, loaded, allocOk);
    r := ProcessExecute(threadCreated, hs);
  }

  /** The input that shows the hang: the thread starts and the program
      loads, but the record allocation fails. */
  lemma ExecHangsOnAllocationFailure()
    ensures ProcessExecute(true, Handshake(true, -1, false)).None?
  {
  }
}
