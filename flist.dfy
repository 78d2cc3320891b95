/** The per-process file-descriptor table of userprog/flist.c: a fixed
    array of 18 optional open files, indexed by descriptor, whose first two
    slots (standard input and output) are reserved and never hold a file,
    together with a count of the free non-reserved slots. */
module FList {
  import opened Wrappers
  import opened Slots

  const FLIST_MAX_LENGTH: int := 18

  /** A kernel open-file handle (`struct file *`); its contents belong to
      the file system, which is not part of this model. */
  datatype File = File(handle: nat)

  class FileTable {
    const content: array<Option<File>>
    var numOpenPlaces: int

    ghost predicate Valid()
      reads this, content
    {
      && content.Length == FLIST_MAX_LENGTH
      && content[0].None? && content[1].None?
      && numOpenPlaces == CountNone(content[2..])
    }

    /** The shape a table has when it was filled from empty and never
        had a descriptor closed: descriptors 2 .. 17 - numOpenPlaces are
        taken and the rest are free. */
    ghost predicate Packed()
      reads this, content
      requires Valid()
    {
      forall j :: 2 <= j < FLIST_MAX_LENGTH ==>
        (content[j].Some? <==> j < FLIST_MAX_LENGTH - numOpenPlaces)
    }

    /** flist_init: every slot NULL; 16 places open since two are reserved. */
    constructor Init()
      ensures Valid() && fresh(content)
      ensures forall i :: 0 <= i < content.Length ==> content[i].None?
      ensures numOpenPlaces == FLIST_MAX_LENGTH - 2
      ensures Packed()
    {
      content := new Option<File>[FLIST_MAX_LENGTH];
      new;
      for i := 0 to FLIST_MAX_LENGTH
        invariant forall j :: 0 <= j < i ==> content[j].None?
      {
        content[i] := None;
      }
      numOpenPlaces := FLIST_MAX_LENGTH - 2;
    }

    /** flist_insert: -1 on a full table; otherwise the first free slot at
        or after 18 - numOpenPlaces, wrapping to 2, now holding `v`. */
    method Insert(v: File) returns (k: int)
      requires Valid()
      modifies this, content
      ensures Valid()
      ensures old(numOpenPlaces) == 0 ==>
                k == -1 && content[..] == old(content[..]) && numOpenPlaces == 0
      ensures old(numOpenPlaces) > 0 ==>
                && 2 <= k < FLIST_MAX_LENGTH
                && old(content[k]).None?
                && content[..] == old(content[..])[k := Some(v)]
                && numOpenPlaces == old(numOpenPlaces) - 1
      ensures old(numOpenPlaces) > 0 ==>
                forall j :: (2 <= j < FLIST_MAX_LENGTH &&
                  ScannedBefore(FLIST_MAX_LENGTH - old(numOpenPlaces), k, j)) ==> old(content[j]).Some?
      ensures old(Packed()) ==> Packed() && (k == -1 || k == FLIST_MAX_LENGTH - old(numOpenPlaces))
    {
      if 0 == numOpenPlaces {
        return -1;
      }
      var start := FLIST_MAX_LENGTH - numOpenPlaces;
      var insertAt := start;
      ghost var e := SomeNone(content[2..]);
      e := e + 2;
      while content[insertAt] != None
        invariant 2 <= insertAt < FLIST_MAX_LENGTH
        invariant 2 <= e < FLIST_MAX_LENGTH && content[e].None?
        invariant forall j :: (2 <= j < FLIST_MAX_LENGTH && ScannedBefore(start, insertAt, j)) ==>
                    content[j].Some?
        decreases if insertAt <= e then e - insertAt else e - insertAt + 16
      {
        insertAt := insertAt + 1;
        if FLIST_MAX_LENGTH == insertAt {
          insertAt := 2;
        }
      }
      if Packed() {
        assert content[start].None?;
        assert !ScannedBefore(start, insertAt, start) ==> insertAt == start;
      }
      Occupy(insertAt, v);
      k := insertAt;
    }

    /** Puts `v` into the free non-reserved slot `k`, which takes one
        open place. */
    method Occupy(k: int, v: File)
      requires Valid() && 2 <= k < FLIST_MAX_LENGTH && content[k].None?
      modifies this, content
      ensures Valid()
      ensures content[..] == old(content[..])[k := Some(v)]
      ensures numOpenPlaces == old(numOpenPlaces) - 1
    {
      ghost var before := content[2..];
      content[k] := Some(v);
      assert content[2..] == before[k - 2 := Some(v)];
      CountNoneUpdate(before, k - 2, Some(v));
      numOpenPlaces := numOpenPlaces - 1;
    }

    /** flist_find: out-of-range keys find nothing, and the reserved
        descriptors 0 and 1 never map to a file. */
    function Find(k: int): (r: Option<File>)
      reads this, content
      requires Valid()
      ensures r.Some? ==> 2 <= k < FLIST_MAX_LENGTH && content[k] == r
      ensures 0 <= k < FLIST_MAX_LENGTH ==> r == content[k]
      ensures (k < 0 || k >= FLIST_MAX_LENGTH) ==> r == None
    {
      if k >= FLIST_MAX_LENGTH || k < 0 then None else content[k]
    }

    /** flist_remove: an occupied slot is cleared and its file returned;
        otherwise NULL is returned and nothing changes. */
    method Remove(k: int) returns (v: Option<File>)
      requires Valid()
      modifies this, content
      ensures Valid()
      ensures v == old(Find(k))
      ensures v.Some? ==>
                content[..] == old(content[..])[k := None] && numOpenPlaces == old(numOpenPlaces) + 1
      ensures v.None? ==>
                content[..] == old(content[..]) && numOpenPlaces == old(numOpenPlaces)
    {
      v := Find(k);
      if v != None {
        Vacate(k);
      }
    }

    /** Clears the occupied slot `k`, which frees one place. */
    method Vacate(k: int)
      requires Valid() && 2 <= k < FLIST_MAX_LENGTH && content[k].Some?
      modifies this, content
      ensures Valid()
      ensures content[..] == old(content[..])[k := None]
      ensures numOpenPlaces == old(numOpenPlaces) + 1
    {
      ghost var before := content[2..];
      content[k] := None;
      assert content[2..] == before[k - 2 := None];
      CountNoneUpdate(before, k - 2, None);
      numOpenPlaces := numOpenPlaces + 1;
    }

    /** flist_for_each: the callback is applied to every non-reserved
        slot in order, empty ones included; the result is the sequence of
        the arguments it receives. */
    method ForEach(aux: int) returns (calls: seq<(int, Option<File>, int)>)
      requires Valid()
      ensures |calls| == FLIST_MAX_LENGTH - 2
      ensures forall j :: 0 <= j < |calls| ==> calls[j] == (j + 2, content[j + 2], aux)
    {
      calls := [];
      for i := 2 to FLIST_MAX_LENGTH
        invariant |calls| == i - 2
        invariant forall j :: 0 <= j < |calls| ==> calls[j] == (j + 2, content[j + 2], aux)
      {
        calls := calls + [(i, content[i], aux)];
      }
    }

    /** flist_remove_if: clears exactly the occupied non-reserved slots
        whose file satisfies `pred`, counting each as a newly open place. */
    method RemoveIf(pred: (int, File, int) -> bool, aux: int)
      requires Valid()
      modifies this, content
      ensures Valid()
      ensures forall i :: 0 <= i < FLIST_MAX_LENGTH ==>
                content[i] == (if old(content[i]).Some? && pred(i, old(content[i]).value, aux)
                               then None else old(content[i]))
    {
      for i := 2 to FLIST_MAX_LENGTH
        invariant Valid()
        invariant forall j :: 0 <= j < i ==>
                    content[j] == (if old(content[j]).Some? && pred(j, old(content[j]).value, aux)
                                   then None else old(content[j]))
        invariant forall j :: i <= j < FLIST_MAX_LENGTH ==> content[j] == old(content[j])
      {
        if content[i] != None && pred(i, content[i].value, aux) {
          ghost var pre := content[..];
          Vacate(i);
          assert forall j :: 0 <= j < FLIST_MAX_LENGTH ==> content[j] == (if j == i then None else pre[j]);
        }
      }
    }
  }

  /** From a freshly initialised table, descriptors are handed out in
      order 2, 3, 4 ...: after n inserts the next one returns 2 + n. */
  method FillFromEmpty(files: seq<File>) returns (ft: FileTable, fds: seq<int>)
    requires |files| <= FLIST_MAX_LENGTH - 2
    ensures fresh(ft) && fresh(ft.content) && ft.Valid()
    ensures |fds| == |files| && forall i :: 0 <= i < |fds| ==> fds[i] == i + 2
    ensures forall i :: 0 <= i < |files| ==> ft.content[i + 2] == Some(files[i])
  {
    ft := new FileTable.Init();
    fds := [];
    for n := 0 to |files|
      invariant ft.Valid() && ft.Packed() && fresh(ft.content)
      invariant ft.numOpenPlaces == FLIST_MAX_LENGTH - 2 - n
      invariant |fds| == n && forall i :: 0 <= i < n ==> fds[i] == i + 2
      invariant forall i :: 0 <= i < n ==> ft.content[i + 2] == Some(files[i])
    {
      var k := ft.Insert(files[n]);
      fds := fds + [k];
    }
  }
}
