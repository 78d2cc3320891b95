/** The three ordered operations of the kernel's doubly linked list library
    that the synchronisation code relies on, over sequences.  Every
    comparator the kernel passes them has the shape `key(a) > key(b)`
    (priority_compare, cond_priority_compare, lock_priority_compare), so
    each operation takes the key instead of the comparator:
    - InsertOrdered: list_insert_ordered, which inserts before the first
      element e for which less(new, e) holds;
    - Sort: list_sort, a stable sort into "less-first" order, which for a
      `>` comparator is descending order;
    - ListMax: list_max, which keeps the first element m and replaces it by
      each later e for which less(m, e) holds; with a `>` comparator that is
      the first element of SMALLEST key. */
module OrderedLists {

  ghost predicate SortedDesc<T>(s: seq<T>, key: T -> int)
  {
    forall i, j :: 0 <= i < j < |s| ==> key(s[i]) >= key(s[j])
  }

  function InsertOrdered<T>(x: T, s: seq<T>, key: T -> int): (r: seq<T>)
    ensures multiset(r) == multiset(s) + multiset{x}
  {
    if s == [] then [x]
    else if key(x) > key(s[0]) then [x] + s
    else
      assert s == [s[0]] + s[1..];
      [s[0]] + InsertOrdered(x, s[1..], key)
  }

  /** Inserting into a descending list keeps it descending. */
  lemma {:induction false} InsertOrderedSorted<T>(x: T, s: seq<T>, key: T -> int)
    requires SortedDesc(s, key)
    ensures SortedDesc(InsertOrdered(x, s, key), key)
  {
    if s == [] {
    } else if key(x) > key(s[0]) {
      HeadBoundsAll(s, key);
      ConsSorted(x, s, key);
    } else {
      var tail := InsertOrdered(x, s[1..], key);
      InsertOrderedSorted(x, s[1..], key);
      HeadBoundsAll(s, key);
      forall y | y in tail ensures key(s[0]) >= key(y) {
        assert y in multiset(tail);
        if y != x {
          assert y in multiset(s[1..]);
        }
      }
      ConsSorted(s[0], tail, key);
    }
  }

  /** The head of a descending list has the largest key. */
  lemma HeadBoundsAll<T>(s: seq<T>, key: T -> int)
    requires s != [] && SortedDesc(s, key)
    ensures forall y :: y in multiset(s[1..]) ==> key(s[0]) >= key(y)
  {
    forall y | y in multiset(s[1..]) ensures key(s[0]) >= key(y) {
      var j :| 0 <= j < |s[1..]| && s[1..][j] == y;
      assert s[j + 1] == y;
    }
  }

  /** Putting an element no smaller than the rest in front of a
      descending list gives a descending list. */
  lemma ConsSorted<T>(h: T, t: seq<T>, key: T -> int)
    requires SortedDesc(t, key)
    requires forall y :: y in t ==> key(h) >= key(y)
    ensures SortedDesc([h] + t, key)
  {
    var r := [h] + t;
    forall i, j | 0 <= i < j < |r| ensures key(r[i]) >= key(r[j]) {
      if i > 0 {
        assert r[i] == t[i - 1] && r[j] == t[j - 1];
      } else {
        assert r[j] == t[j - 1];
      }
    }
  }

  function Sort<T>(s: seq<T>, key: T -> int): (r: seq<T>)
    ensures multiset(r) == multiset(s)
    ensures SortedDesc(r, key)
  {
    if s == [] then []
    else
      assert s == s[..|s| - 1] + [s[|s| - 1]];
      var sorted := Sort(s[..|s| - 1], key);
      InsertOrderedSorted(s[|s| - 1], sorted, key);
      InsertOrdered(s[|s| - 1], sorted, key)
  }

  function ListMax<T>(s: seq<T>, key: T -> int): (m: T)
    requires s != []
  {
    ScanMax(s[0], s[1..], key)
  }

  /** The loop of list_max: `max` is the element kept so far. */
  function ScanMax<T>(max: T, rest: seq<T>, key: T -> int): (m: T)
    ensures m == max || m in rest
    ensures key(m) <= key(max)
    ensures forall y :: y in rest ==> key(m) <= key(y)
  {
    if rest == [] then max
    else ScanMax(if key(max) > key(rest[0]) then rest[0] else max, rest[1..], key)
  }

  /** What list_max with a `>` comparator returns: an element of the list
      whose key is the smallest, not the largest. */
  lemma ListMaxIsMinimum<T>(s: seq<T>, key: T -> int)
    requires s != []
    ensures ListMax(s, key) in s
    ensures forall y :: y in s ==> key(ListMax(s, key)) <= key(y)
  {
    assert s == [s[0]] + s[1..];
  }

  /** The front of a descending sort has the largest key of the list. */
  lemma SortFrontIsMaximum<T>(s: seq<T>, key: T -> int)
    requires s != []
    ensures Sort(s, key) != [] && Sort(s, key)[0] in s
    ensures forall y :: y in s ==> key(Sort(s, key)[0]) >= key(y)
  {
    var r := Sort(s, key);
    assert |r| == |multiset(r)| == |multiset(s)| == |s|;
    assert r[0] in multiset(r);
    forall y | y in s ensures key(r[0]) >= key(y) {
      assert y in multiset(r);
      var j :| 0 <= j < |r| && r[j] == y;
    }
  }

  /** Popping the front of a descending list leaves a descending list that
      holds everything else. */
  lemma PopFront<T>(s: seq<T>, key: T -> int)
    requires s != [] && SortedDesc(s, key)
    ensures SortedDesc(s[1..], key)
    ensures multiset(s[1..]) + multiset{s[0]} == multiset(s)
  {
    assert s == [s[0]] + s[1..];
  }

  function RemoveFirst<T(==)>(s: seq<T>, x: T): (r: seq<T>)
    ensures multiset(r) == multiset(s) - multiset{x}
    ensures x !in s ==> r == s
    ensures forall y :: y in r ==> y in s
  {
    if s == [] then []
    else if s[0] == x then
      assert s == [s[0]] + s[1..];
      s[1..]
    else
      assert s == [s[0]] + s[1..];
      [s[0]] + RemoveFirst(s[1..], x)
  }
}
