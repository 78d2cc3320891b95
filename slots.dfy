/** Counting the empty (NULL) slots of a fixed-capacity slot arena; both
    the process directory and the file-descriptor table keep such a count
    up to date by hand. */
module Slots {
  import opened Wrappers

  function CountNone<T>(s: seq<Option<T>>): (n: nat)
    ensures n <= |s|
    ensures n == 0 <==> forall i :: 0 <= i < |s| ==> s[i].Some?
    ensures n == |s| <==> forall i :: 0 <= i < |s| ==> s[i].None?
  {
    if s == [] then 0
    else
      var rest := CountNone(s[1..]);
      assert forall i :: 1 <= i < |s| ==> s[i] == s[1..][i - 1];
      (if s[0].None? then 1 else 0) + rest
  }

  /** Whether slot j is visited before slot k by a scan that starts at
      `start`, runs up the array and wraps round to its first usable slot
      (0 in the process directory, 2 in the descriptor table). */
  predicate ScannedBefore(start: int, k: int, j: int)
  {
    if start <= k then start <= j < k else start <= j || j < k
  }

  /** Overwriting one slot changes the count by what left and what came. */
  lemma {:induction false} CountNoneUpdate<T>(s: seq<Option<T>>, i: int, v: Option<T>)
    requires 0 <= i < |s|
    ensures CountNone(s[i := v]) ==
            CountNone(s) - (if s[i].None? then 1 else 0) + (if v.None? then 1 else 0)
  {
    if i > 0 {
      assert s[i := v][1..] == s[1..][i - 1 := v];
      CountNoneUpdate(s[1..], i - 1, v);
    }
  }

  /** A positive count means some slot is empty. */
  lemma SomeNone<T>(s: seq<Option<T>>) returns (i: int)
    requires CountNone(s) > 0
    ensures 0 <= i < |s| && s[i].None?
  {
    i :| 0 <= i < |s| && s[i].None?;
  }

  /** The count of a sequence split in two is the sum of the counts. */
  lemma {:induction false} CountNoneAppend<T>(s: seq<Option<T>>, t: seq<Option<T>>)
    ensures CountNone(s + t) == CountNone(s) + CountNone(t)
  {
    if s != [] {
      assert (s + t)[1..] == s[1..] + t;
      CountNoneAppend(s[1..], t);
    } else {
      assert s + t == t;
    }
  }

  /** Extending a slice by one slot appends that slot. */
  lemma SliceExtend<T>(s: seq<T>, a: int, b: int)
    requires 0 <= a <= b < |s|
    ensures s[a..b + 1] == s[a..b] + [s[b]]
  {
  }
}
