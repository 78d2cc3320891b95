/** The global process directory of userprog/plist.c: 255 optional
    process records indexed by pid, the number of empty slots, and a cursor
    `openSlot` that is -1 when the directory is full and otherwise names an
    empty slot. */
module PList {
  import opened Wrappers
  import opened Slots

  const PLIST_MAX_LENGTH: int := 255
  const NAME_LENGTH: int := 15

  /** struct process.  `pidParent` is an unsigned char, so it holds the
      parent pid reduced modulo 256.  The two semaphores of the record are
      kept as their counters: `waitGate` (sema_p_wait, up-ed once when the
      process dies) and `fieldGuard` (sema_p, the mutex over the fields). */
  datatype Process = Process(
    name: string,
    tid: nat,
    exitStatus: int,
    pidParent: nat,
    isAlive: bool,
    parentAlive: bool,
    waitGate: nat,
    fieldGuard: nat)

  /** The first blank-delimited word of `s`, cut to at most `n` characters. */
  function FirstWord(s: string, n: nat): (w: string)
    ensures |w| <= n && w <= s
    ensures ' ' !in w
    ensures |w| < n && |w| < |s| ==> s[|w|] == ' '
  {
    if s == [] || n == 0 || s[0] == ' ' then []
    else [s[0]] + FirstWord(s[1..], n - 1)
  }

  /** process_create: None when the allocation fails (`allocOk` false);
      otherwise a record alive, with a live parent, exit status -1, a
      closed wait gate and an open field guard. */
  function ProcessCreate(tid: nat, name: string, parent: int, allocOk: bool): (r: Option<Process>)
    ensures r.None? <==> !allocOk
    ensures r.Some? ==>
              && r.value.tid == tid
              && r.value.pidParent < 256 && (r.value.pidParent - parent) % 256 == 0
              && r.value.isAlive && r.value.parentAlive
              && r.value.exitStatus == -1
              && r.value.waitGate == 0 && r.value.fieldGuard == 1
              && |r.value.name| <= NAME_LENGTH && r.value.name <= name
  {
    if !allocOk then None
    else Some(Process(FirstWord(name, NAME_LENGTH), tid, -1, parent % 256, true, true, 0, 1))
  }

  /** A parent pid of -1 (no record for the parent) is stored as 255. */
  lemma UnknownParentIs255(tid: nat, name: string)
    ensures ProcessCreate(tid, name, -1, true).value.pidParent == 255
  {
  }

  class ProcessList {
    const content: array<Option<Process>>
    var numOpenSpaces: int
    var openSlot: int

    ghost predicate Valid()
      reads this, content
    {
      && content.Length == PLIST_MAX_LENGTH
      && numOpenSpaces == CountNone(content[..])
      && (openSlot == -1 <==> numOpenSpaces == 0)
      && (openSlot != -1 ==> 0 <= openSlot < PLIST_MAX_LENGTH && content[openSlot].None?)
    }

    /** plist_init: every slot NULL, all 255 places open, cursor at 0. */
    constructor Init()
      ensures Valid() && fresh(content)
      ensures forall i :: 0 <= i < content.Length ==> content[i].None?
      ensures numOpenSpaces == PLIST_MAX_LENGTH && openSlot == 0
    {
      content := new Option<Process>[PLIST_MAX_LENGTH];
      new;
      for i := 0 to PLIST_MAX_LENGTH
        invariant forall j :: 0 <= j < i ==> content[j].None?
      {
        content[i] := None;
      }
      numOpenSpaces := PLIST_MAX_LENGTH;
      openSlot := 0;
    }

    /** plist_insert: -1 on a full directory; otherwise `p` goes into the
        slot under the cursor, whose index is returned, and the cursor moves
        forward (wrapping at 255) to the next empty slot, or becomes -1 when
        that was the last one. */
    method Insert(p: Process) returns (k: int)
      requires Valid()
      modifies this, content
      ensures Valid()
      ensures old(numOpenSpaces) == 0 ==>
                && k == -1 && content[..] == old(content[..])
                && numOpenSpaces == 0 && openSlot == -1
      ensures old(numOpenSpaces) > 0 ==>
                && k == old(openSlot) && 0 <= k < PLIST_MAX_LENGTH
                && old(content[k]).None?
                && content[..] == old(content[..])[k := Some(p)]
                && numOpenSpaces == old(numOpenSpaces) - 1
      ensures old(numOpenSpaces) > 0 && openSlot != -1 ==>
                forall j :: (0 <= j < PLIST_MAX_LENGTH && ScannedBefore(k, openSlot, j)) ==> content[j].Some?
    {
      if 0 == numOpenSpaces {
        return -1;
      }
      var insertAt := openSlot;
      ghost var before := content[..];
      content[insertAt] := Some(p);
      assert content[..] == before[insertAt := Some(p)];
      CountNoneUpdate(before, insertAt, Some(p));
      numOpenSpaces := numOpenSpaces - 1;

      if 0 == numOpenSpaces {
        openSlot := -1;
        return insertAt;
      }

      ghost var e := SomeNone(content[..]);
      var slot := insertAt;
      while content[slot] != None
        invariant 0 <= slot < PLIST_MAX_LENGTH
        invariant forall j :: (0 <= j < PLIST_MAX_LENGTH && ScannedBefore(insertAt, slot, j)) ==>
                    content[j].Some?
        decreases if slot <= e then e - slot else e - slot + PLIST_MAX_LENGTH
      {
        slot := slot + 1;
        if slot == PLIST_MAX_LENGTH {
          slot := 0;
        }
      }
      openSlot := slot;
      return insertAt;
    }

    /** plist_find: out-of-range pids find nothing. */
    function Find(pid: int): (r: Option<Process>)
      reads this, content
      requires Valid()
      ensures r.Some? ==> 0 <= pid < PLIST_MAX_LENGTH && content[pid] == r
      ensures 0 <= pid < PLIST_MAX_LENGTH ==> r == content[pid]
      ensures (pid < 0 || pid >= PLIST_MAX_LENGTH) ==> r == None
    {
      if pid >= PLIST_MAX_LENGTH || pid < 0 then None else content[pid]
    }

    /** plist_remove: an occupied slot is cleared, becomes the cursor and
        its record is returned; otherwise nothing changes. */
    method Remove(pid: int) returns (v: Option<Process>)
      requires Valid()
      modifies this, content
      ensures Valid()
      ensures v == old(Find(pid))
      ensures v.Some? ==>
                && content[..] == old(content[..])[pid := None]
                && openSlot == pid && numOpenSpaces == old(numOpenSpaces) + 1
      ensures v.None? ==>
                && content[..] == old(content[..])
                && openSlot == old(openSlot) && numOpenSpaces == old(numOpenSpaces)
    {
      v := Find(pid);
      if v != None {
        ghost var before := content[..];
        content[pid] := None;
        assert content[..] == before[pid := None];
        CountNoneUpdate(before, pid, None);
        openSlot := pid;
        numOpenSpaces := numOpenSpaces + 1;
      }
    }

    /** plist_get_proc_from_tid: 255 for tid 1; otherwise the lowest pid
        whose record has that tid, or -1 when no record has it. */
    method GetProcFromTid(tid: nat) returns (pid: int)
      requires Valid()
      ensures ProcOfTid(content[..], tid, pid)
    {
      if 1 == tid {
        return PLIST_MAX_LENGTH;
      }
      for i := 0 to PLIST_MAX_LENGTH
        invariant forall j :: 0 <= j < i ==> !HasTid(content[j], tid)
      {
        if content[i] != None && content[i].value.tid == tid {
          return i;
        }
      }
      return -1;
    }

    /** plist_open_slot: the cursor, -1 exactly when the directory is full
        and otherwise an empty slot. */
    function OpenSlot(): (r: int)
      reads this, content
      requires Valid()
      ensures r == -1 <==> numOpenSpaces == 0
      ensures r != -1 ==> 0 <= r < PLIST_MAX_LENGTH && content[r].None?
    {
      openSlot
    }
  }

  predicate HasTid(r: Option<Process>, tid: nat)
  {
    r.Some? && r.value.tid == tid
  }

  /** What plist_get_proc_from_tid answers over the slots `s`: 255 for
      tid 1; otherwise the lowest pid whose record has that tid, or -1 when
      no record has it. */
  ghost predicate ProcOfTid(s: seq<Option<Process>>, tid: nat, pid: int)
  {
    if tid == 1 then pid == PLIST_MAX_LENGTH
    else if pid == -1 then forall j :: 0 <= j < |s| ==> !HasTid(s[j], tid)
    else 0 <= pid < |s| && HasTid(s[pid], tid) && forall j :: 0 <= j < pid ==> !HasTid(s[j], tid)
  }

  /** The answer is determined by the slots. */
  lemma ProcOfTidUnique(s: seq<Option<Process>>, tid: nat, a: int, b: int)
    requires ProcOfTid(s, tid, a) && ProcOfTid(s, tid, b)
    ensures a == b
  {
  }

  /** On a full directory, removing the record at `pid` and inserting a new
      one puts the new record at the same pid. */
  method RefillAfterRemove(pl: ProcessList, pid: int, p: Process) returns (k: int)
    requires pl.Valid() && pl.numOpenSpaces == 0
    requires 0 <= pid < PLIST_MAX_LENGTH
    modifies pl, pl.content
    ensures pl.Valid()
    ensures k == pid && pl.content[pid] == Some(p)
    ensures pl.numOpenSpaces == 0 && pl.openSlot == -1
  {
    assert pl.content[..][pid].Some?;
    var removed := pl.Remove(pid);
    k := pl.Insert(p);
  }
}
