/** The descriptor rules and the descriptor-table system calls of
    userprog/syscall.c.  The calls work on the current thread's table,
    which is passed in as `ft`; the file_pointer_insert/get/remove wrappers
    are exactly FileTable.Insert/Find/Remove on that table.  What the file
    system answers (a file's length or position, whether a create
    succeeded) is a parameter. */
module Syscall {
  import opened Wrappers
  import opened Slots
  import opened FList

  const STDIN_FILENO: int := 0
  const STDOUT_FILENO: int := 1
  const MAX_SIZE_FILENAME: int := 14

  /** enum fd_type, by its C values. */
  const READ: int := 0
  const WRITE: int := 1
  const SIZE: int := 2
  const SEEK: int := 3
  const TELL: int := 4
  const CLOSE: int := 5

  /** `(unsigned) -1`, what tell returns on a bad descriptor. */
  const UNSIGNED_MINUS_ONE: int := 0xFFFF_FFFF

  /** fd_is_valid: descriptor 0 only for reading, 1 only for writing,
      anything from 2 up for every operation, negatives never, and no
      descriptor for a type outside the enumeration. */
  function FdIsValid(fd: int, typ: int): (v: bool)
    ensures fd < 0 ==> !v
    ensures fd == STDIN_FILENO ==> (v <==> typ == READ)
    ensures fd == STDOUT_FILENO ==> (v <==> typ == WRITE)
    ensures fd >= 2 ==> (v <==> READ <= typ <= CLOSE)
  {
    if typ == READ then fd == 0 || fd > 1
    else if typ == WRITE then fd > 0
    else if typ == SIZE || typ == SEEK || typ == TELL || typ == CLOSE then fd > 1
    else false
  }

  /** A descriptor the table can hold is one every operation accepts. */
  lemma {:induction false} TableDescriptorsAreValid(ft: FileTable, fd: int, typ: int)
    requires ft.Valid() && ft.Find(fd).Some?
    requires READ <= typ <= CLOSE
    ensures FdIsValid(fd, typ)
  {
  }

  /** open: -1 when the file system found no file; -1 and the handle
      closed again when the table is full; otherwise the new descriptor,
      which is never 0 or 1. */
  method Open(ft: FileTable, file: Option<File>) returns (fd: int, closed: Option<File>)
    requires ft.Valid()
    modifies ft, ft.content
    ensures ft.Valid()
    ensures file.None? ==>
              fd == -1 && closed.None? && ft.content[..] == old(ft.content[..])
    ensures file.Some? && old(ft.numOpenPlaces) == 0 ==>
              fd == -1 && closed == file && ft.content[..] == old(ft.content[..])
    ensures file.Some? && old(ft.numOpenPlaces) > 0 ==>
              && 2 <= fd < FLIST_MAX_LENGTH && closed.None?
              && old(ft.content[fd]).None?
              && ft.content[..] == old(ft.content[..])[fd := file]
              && ft.numOpenPlaces == old(ft.numOpenPlaces) - 1
    ensures fd != -1 ==> ft.Find(fd) == file
  {
    closed := None;
    if file == None {
      return -1, None;
    }
    fd := ft.Insert(file.value);
    if fd == -1 {
      closed := file;
    }
  }

  /** close: a descriptor not valid for closing is ignored; otherwise its
      slot is removed and the file it held, if any, is closed. */
  method Close(ft: FileTable, fd: int) returns (closed: Option<File>)
    requires ft.Valid()
    modifies ft, ft.content
    ensures ft.Valid()
    ensures closed == (if FdIsValid(fd, CLOSE) then old(ft.Find(fd)) else None)
    ensures closed.Some? ==>
              && ft.content[..] == old(ft.content[..])[fd := None]
              && ft.numOpenPlaces == old(ft.numOpenPlaces) + 1
    ensures closed.None? ==>
              ft.content[..] == old(ft.content[..]) && ft.numOpenPlaces == old(ft.numOpenPlaces)
  {
    if !FdIsValid(fd, CLOSE) {
      return None;
    }
    closed := ft.Remove(fd);
  }

  /** After a successful close the descriptor finds nothing, so closing it
      again closes nothing. */
  method CloseTwice(ft: FileTable, fd: int) returns (first: Option<File>, second: Option<File>)
    requires ft.Valid()
    modifies ft, ft.content
    ensures ft.Valid()
    ensures first == (if FdIsValid(fd, CLOSE) then old(ft.Find(fd)) else None)
    ensures second.None?
  {
    first := Close(ft, fd);
    second := Close(ft, fd);
  }

  /** filesize: -1 for a bad or empty descriptor, else the length the file
      system reports. */
  function Filesize(ft: FileTable, fd: int, lengthOf: File -> int): (r: int)
    reads ft, ft.content
    requires ft.Valid()
    ensures (fd <= 1 || ft.Find(fd).None?) ==> r == -1
    ensures fd > 1 && ft.Find(fd).Some? ==> r == lengthOf(ft.Find(fd).value)
  {
    if !FdIsValid(fd, SIZE) then -1
    else
      var file := ft.Find(fd);
      if file == None then -1 else lengthOf(file.value)
  }

  /** seek: the file_seek call it makes, as the file and the position, or
      None when the descriptor is bad or empty.  A position past the end is
      clamped to the length. */
  function Seek(ft: FileTable, fd: int, position: nat, lengthOf: File -> nat): (r: Option<(File, nat)>)
    reads ft, ft.content
    requires ft.Valid()
    ensures r.None? <==> fd <= 1 || ft.Find(fd).None?
    ensures r.Some? ==>
              && r.value.0 == ft.Find(fd).value
              && r.value.1 <= lengthOf(r.value.0)
              && r.value.1 <= position
              && (r.value.1 == position || r.value.1 == lengthOf(r.value.0))
  {
    if !FdIsValid(fd, SEEK) then None
    else
      var file := ft.Find(fd);
      if file == None then None
      else
        var size: nat := Filesize(ft, fd, f => lengthOf(f));
        if position > size then Some((file.value, size)) else Some((file.value, position))
  }

  /** tell: the file position converted to unsigned, and (unsigned) -1 for
      a bad or empty descriptor. */
  function Tell(ft: FileTable, fd: int, positionOf: File -> int): (r: int)
    reads ft, ft.content
    requires ft.Valid()
    ensures 0 <= r <= UNSIGNED_MINUS_ONE
    ensures (fd <= 1 || ft.Find(fd).None?) ==> r == UNSIGNED_MINUS_ONE
    ensures fd > 1 && ft.Find(fd).Some? && 0 <= positionOf(ft.Find(fd).value) < UNSIGNED_MINUS_ONE ==>
              r == positionOf(ft.Find(fd).value)
  {
    if !FdIsValid(fd, TELL) then UNSIGNED_MINUS_ONE
    else
      var file := ft.Find(fd);
      if file == None then UNSIGNED_MINUS_ONE else positionOf(file.value) % 0x1_0000_0000
  }

  /** create: names longer than 14 characters are refused before the file
      system is asked; otherwise its answer `created` is returned. */
  function Create(name: string, created: bool): (r: bool)
    ensures |name| > MAX_SIZE_FILENAME ==> !r
    ensures |name| <= MAX_SIZE_FILENAME ==> r == created
  {
    if |name| > MAX_SIZE_FILENAME then false else created
  }

  /** The files of the occupied slots, in slot order. */
  function Occupied(s: seq<Option<File>>): (r: seq<File>)
    ensures |r| == |s| - CountNone(s)
    ensures forall f :: f in r ==> Some(f) in s
  {
    if s == [] then []
    else
      var rest := Occupied(s[1..]);
      assert forall f :: Some(f) in s[1..] ==> Some(f) in s;
      if s[0].Some? then [s[0].value] + rest else rest
  }

  lemma {:induction false} OccupiedAppend(s: seq<Option<File>>, t: seq<Option<File>>)
    ensures Occupied(s + t) == Occupied(s) + Occupied(t)
  {
    if s == [] {
      assert s + t == t;
    } else {
      assert (s + t)[1..] == s[1..] + t;
      OccupiedAppend(s[1..], t);
    }
  }

  /** flist_close_all: closes descriptors 2 .. 17 in turn, which closes
      every open file in descriptor order and leaves the table empty. */
  method CloseAll(ft: FileTable) returns (closed: seq<File>)
    requires ft.Valid()
    modifies ft, ft.content
    ensures ft.Valid() && ft.Packed()
    ensures closed == Occupied(old(ft.content[2..]))
    ensures forall i :: 0 <= i < FLIST_MAX_LENGTH ==> ft.content[i].None?
    ensures ft.numOpenPlaces == FLIST_MAX_LENGTH - 2
  {
    closed := [];
    ghost var start := ft.content[..];
    for i := 2 to FLIST_MAX_LENGTH
      invariant ft.Valid()
      invariant forall j :: 0 <= j < i ==> ft.content[j].None?
      invariant forall j :: i <= j < FLIST_MAX_LENGTH ==> ft.content[j] == start[j]
      invariant closed == Occupied(start[2..i])
    {
      closed := CloseNext(ft, i, start, closed);
    }
    assert start[2..] == start[2..FLIST_MAX_LENGTH];
  }

  /** One pass of flist_close_all: descriptor `i` is closed, every slot
      below it being empty already, and its file, if any, is appended to
      those closed so far. */
  method CloseNext(ft: FileTable, i: int, ghost start: seq<Option<File>>, closedBefore: seq<File>)
    returns (closed: seq<File>)
    requires ft.Valid() && 2 <= i < FLIST_MAX_LENGTH && |start| == FLIST_MAX_LENGTH
    requires forall j :: 0 <= j < i ==> ft.content[j].None?
    requires forall j :: i <= j < FLIST_MAX_LENGTH ==> ft.content[j] == start[j]
    requires closedBefore == Occupied(start[2..i])
    modifies ft, ft.content
    ensures ft.Valid()
    ensures forall j :: 0 <= j < i + 1 ==> ft.content[j].None?
    ensures forall j :: i + 1 <= j < FLIST_MAX_LENGTH ==> ft.content[j] == start[j]
    ensures closed == Occupied(start[2..i + 1])
  {
    ghost var pre := ft.content[..];
    var c := Close(ft, i);
    assert c == start[i];
    assert forall j :: 0 <= j < FLIST_MAX_LENGTH ==> ft.content[j] == (if j == i then None else pre[j]);
    ghost var prefix := start[2..i];
    SliceExtend(start, 2, i);
    OccupiedAppend(prefix, [start[i]]);
    assert [start[i]][1..] == [];
    assert Occupied([start[i]]) == (if c.Some? then [c.value] else []);
    closed := closedBefore;
    if c != None {
      closed := closed + [c.value];
    }
  }
}
