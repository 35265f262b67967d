/** stdlib.c: sort, a heapsort in place with 1-based heap indexes, and binary_search. */
module HeapSort {

  /** What the callers of sort promise of a strcmp-type comparison. */
  ghost predicate TotalPreorder<T(!new)>(cmp: (T, T) -> int) {
    && (forall x, y :: cmp(x, y) < 0 <==> cmp(y, x) > 0)
    && (forall x, y, z :: cmp(x, y) <= 0 && cmp(y, z) <= 0 ==> cmp(x, z) <= 0)
  }

  ghost predicate Sorted<T>(s: seq<T>, cmp: (T, T) -> int) {
    forall i, j :: 0 <= i < j < |s| ==> cmp(s[i], s[j]) <= 0
  }

  /** Element `j` is not above its parent. */
  ghost predicate Under<T>(s: seq<T>, cmp: (T, T) -> int, j: nat)
    requires 2 <= j <= |s|
  {
    cmp(s[j - 1], s[j / 2 - 1]) <= 0
  }

  /** Element `j` is not above its grandparent. */
  ghost predicate UnderGrand<T>(s: seq<T>, cmp: (T, T) -> int, j: nat)
    requires 4 <= j <= |s|
  {
    cmp(s[j - 1], s[j / 4 - 1]) <= 0
  }

  /** The first `n` elements are a heap as far as the parents from `lo` on go. */
  ghost predicate Heap<T>(s: seq<T>, cmp: (T, T) -> int, lo: nat, n: nat) {
    n <= |s| && forall j :: 2 <= j <= n && j / 2 >= lo ==> Under(s, cmp, j)
  }

  /** The same, but for the children of `i`, which are still below the parent of `i`. */
  ghost predicate Floating<T>(s: seq<T>, cmp: (T, T) -> int, lo: nat, n: nat, i: nat) {
    && n <= |s|
    && (forall j :: 2 <= j <= n && j / 2 >= lo && j / 2 != i ==> Under(s, cmp, j))
    && (forall j :: 4 <= j <= n && j / 2 == i && i / 2 >= lo ==> UnderGrand(s, cmp, j))
  }

  function Swapped<T>(s: seq<T>, i: nat, j: nat): (r: seq<T>)
    requires 1 <= i <= |s| && 1 <= j <= |s|
    ensures |r| == |s|
  {
    s[i - 1 := s[j - 1]][j - 1 := s[i - 1]]
  }

  lemma SwapPermutes<T>(s: seq<T>, i: nat, j: nat)
    requires 1 <= i <= |s| && 1 <= j <= |s|
    ensures multiset(Swapped(s, i, j)) == multiset(s)
  {
  }

  /** The element heapify compares: the largest of `i` and its children. */
  ghost predicate IsMax<T>(s: seq<T>, cmp: (T, T) -> int, n: nat, i: nat, max: nat) {
    && n <= |s| && 1 <= i <= n && 1 <= max <= n && (max == i || max / 2 == i)
    && cmp(s[i - 1], s[max - 1]) <= 0
    && (2 * i <= n ==> cmp(s[2 * i - 1], s[max - 1]) <= 0)
    && (2 * i + 1 <= n ==> cmp(s[2 * i], s[max - 1]) <= 0)
  }

  /** Nothing left to float down. */
  lemma Settled<T(!new)>(s: seq<T>, cmp: (T, T) -> int, lo: nat, n: nat, i: nat)
    requires Floating(s, cmp, lo, n, i) && IsMax(s, cmp, n, i, i)
    ensures Heap(s, cmp, lo, n)
  {
    forall j | 2 <= j <= n && j / 2 >= lo ensures Under(s, cmp, j) {
      if j / 2 == i {
        assert j == 2 * i || j == 2 * i + 1;
      }
    }
  }

  /** One step down keeps the rest a heap. */
  lemma FloatDown<T(!new)>(s: seq<T>, cmp: (T, T) -> int, lo: nat, n: nat, i: nat, max: nat)
    requires TotalPreorder(cmp) && lo >= 1 && Floating(s, cmp, lo, n, i) && i >= lo
    requires IsMax(s, cmp, n, i, max) && max != i
    ensures Floating(Swapped(s, i, max), cmp, lo, n, max)
  {
    hide Under, UnderGrand, TotalPreorder;
    var t := Swapped(s, i, max);
    forall j | 2 <= j <= n && j / 2 >= lo && j / 2 != max ensures Under(t, cmp, j) {
      if j / 2 == i {
        ChildUnder(s, cmp, n, i, max, j);
      } else {
        OtherUnder(s, cmp, lo, n, i, max, j);
      }
    }
    forall j | 4 <= j <= n && j / 2 == max && max / 2 >= lo ensures UnderGrand(t, cmp, j) {
      GrandUnder(s, cmp, lo, n, i, max, j);
    }
  }

  /** The two children of `i` after the swap. */
  lemma ChildUnder<T(!new)>(s: seq<T>, cmp: (T, T) -> int, n: nat, i: nat, max: nat, j: nat)
    requires IsMax(s, cmp, n, i, max) && max != i && 2 <= j <= n && j / 2 == i
    ensures Under(Swapped(s, i, max), cmp, j)
  {
    assert j == 2 * i || j == 2 * i + 1;
  }

  lemma OtherUnder<T(!new)>(s: seq<T>, cmp: (T, T) -> int, lo: nat, n: nat, i: nat, max: nat, j: nat)
    requires lo >= 1 && Floating(s, cmp, lo, n, i) && IsMax(s, cmp, n, i, max) && max != i
    requires 2 <= j <= n && j / 2 >= lo && j / 2 != max && j / 2 != i
    ensures Under(Swapped(s, i, max), cmp, j)
  {
    if j == i {
      assert UnderGrand(s, cmp, max);
    } else {
      assert Under(s, cmp, j);
    }
  }

  /** What was under `max` is under it in its new place. */
  lemma GrandUnder<T(!new)>(s: seq<T>, cmp: (T, T) -> int, lo: nat, n: nat, i: nat, max: nat, j: nat)
    requires lo >= 1 && Floating(s, cmp, lo, n, i) && IsMax(s, cmp, n, i, max) && max != i
    requires 4 <= j <= n && j / 2 == max && i >= lo
    ensures UnderGrand(Swapped(s, i, max), cmp, j)
  {
    assert Under(s, cmp, j);
    assert j / 4 == i;
  }

  // ---------- In place ----------

  /** do_swap. */
  method Swap<T>(a: array<T>, i: nat, j: nat)
    requires 1 <= i <= a.Length && 1 <= j <= a.Length
    modifies a
    ensures a[..] == Swapped(old(a[..]), i, j)
  {
    a[i - 1], a[j - 1] := a[j - 1], a[i - 1];
  }

  /** The first `n` elements of `t` come from those of `s`, and the others are as they were. */
  ghost predicate Shuffled<T>(s: seq<T>, t: seq<T>, n: nat) {
    && n <= |s| == |t| && multiset(s) == multiset(t)
    && (forall k :: 0 <= k < n ==> t[k] in s[..n])
    && (forall k :: n <= k < |s| ==> t[k] == s[k])
  }

  lemma ShuffledSwap<T>(s: seq<T>, t: seq<T>, n: nat, i: nat, j: nat)
    requires Shuffled(s, t, n) && 1 <= i <= n && 1 <= j <= n
    ensures Shuffled(s, Swapped(t, i, j), n)
  {
    SwapPermutes(t, i, j);
  }

  /** heapify. */
  method Heapify<T(!new)>(a: array<T>, start: nat, n: nat, cmp: (T, T) -> int)
    requires TotalPreorder(cmp) && 1 <= start <= n <= a.Length
    requires Heap(a[..], cmp, start + 1, n)
    modifies a
    ensures Heap(a[..], cmp, start, n)
    ensures Shuffled(old(a[..]), a[..], n)
  {
    hide Heap, Floating, Shuffled, TotalPreorder;
    ghost var s := a[..];
    var i := start;
    StartFloating(s, cmp, start, n);
    ShuffledSelf(s, n);
    while true
      invariant start <= i <= n
      invariant Floating(a[..], cmp, start, n, i)
      invariant Shuffled(s, a[..], n)
      decreases n - i
    {
      var max := Largest(a, i, n, cmp);
      if max == i {
        Settled(a[..], cmp, start, n, i);
        break;
      }
      FloatDown(a[..], cmp, start, n, i, max);
      ShuffledSwap(s, a[..], n, i, max);
      Swap(a, i, max);
      i := max;
    }
  }

  /** The larger of an element and its children. */
  method Largest<T(!new)>(a: array<T>, i: nat, n: nat, cmp: (T, T) -> int) returns (max: nat)
    requires TotalPreorder(cmp) && 1 <= i <= n <= a.Length
    ensures i <= max <= n && IsMax(a[..], cmp, n, i, max)
  {
    var left, right := 2 * i, 2 * i + 1;
    max := i;
    if left <= n && cmp(a[left - 1], a[max - 1]) > 0 {
      max := left;
    }
    if right <= n && cmp(a[right - 1], a[max - 1]) > 0 {
      max := right;
    }
    assert cmp(a[i - 1], a[i - 1]) <= 0;
  }

  lemma StartFloating<T>(s: seq<T>, cmp: (T, T) -> int, start: nat, n: nat)
    requires 1 <= start <= n && Heap(s, cmp, start + 1, n)
    ensures Floating(s, cmp, start, n, start)
  {
  }

  lemma ShuffledSelf<T>(s: seq<T>, n: nat)
    requires n <= |s|
    ensures Shuffled(s, s, n)
  {
    assert forall k :: 0 <= k < n ==> s[k] == s[..n][k];
  }

  /** The root of a heap is its largest element. */
  lemma {:induction false} RootIsMax<T(!new)>(s: seq<T>, cmp: (T, T) -> int, n: nat, j: nat)
    requires TotalPreorder(cmp) && Heap(s, cmp, 1, n) && 1 <= j <= n
    ensures cmp(s[j - 1], s[0]) <= 0
  {
    if j == 1 {
      assert !(cmp(s[0], s[0]) > 0);
    } else {
      RootIsMax(s, cmp, n, j / 2);
      assert Under(s, cmp, j);
    }
  }

  /** The elements from `i` on are in their final places. */
  ghost predicate Placed<T>(s: seq<T>, cmp: (T, T) -> int, i: nat) {
    forall k, m :: 0 <= k < m < |s| && m >= i ==> cmp(s[k], s[m]) <= 0
  }

  /** Moving the root behind the heap puts it in its final place. */
  lemma PlaceRoot<T(!new)>(s: seq<T>, cmp: (T, T) -> int, i: nat)
    requires TotalPreorder(cmp) && 2 <= i <= |s| && Heap(s, cmp, 1, i) && Placed(s, cmp, i)
    ensures Placed(Swapped(s, 1, i), cmp, i - 1)
    ensures Heap(Swapped(s, 1, i), cmp, 2, i - 1)
  {
    var t := Swapped(s, 1, i);
    assert Heap(t, cmp, 2, i - 1) by {
      forall j | 2 <= j <= i - 1 && j / 2 >= 2 ensures Under(t, cmp, j) {
        assert Under(s, cmp, j);
      }
    }
    hide Heap, TotalPreorder;
    forall k, m | 0 <= k < m < |t| && m >= i - 1 ensures cmp(t[k], t[m]) <= 0 {
      if m == i - 1 {
        RootIsMax(s, cmp, i, if k == 0 then i else k + 1);
      }
    }
  }

  lemma PlacedShuffled<T(!new)>(s: seq<T>, t: seq<T>, cmp: (T, T) -> int, i: nat)
    requires Placed(s, cmp, i) && Shuffled(s, t, i)
    ensures Placed(t, cmp, i)
  {
    forall k, m | 0 <= k < m < |t| && m >= i ensures cmp(t[k], t[m]) <= 0 {
      if k < i {
        var k' :| 0 <= k' < i && s[..i][k'] == t[k];
        assert cmp(s[k'], s[m]) <= 0;
      }
    }
  }

  /** sort. */
  method Sort<T(!new)>(a: array<T>, cmp: (T, T) -> int)
    requires TotalPreorder(cmp)
    modifies a
    ensures Sorted(a[..], cmp)
    ensures multiset(a[..]) == multiset(old(a[..]))
  {
    hide Heap, TotalPreorder, Placed;
    var n, i := a.Length, a.Length / 2;
    NoParents(a[..], cmp, n);
    while i > 0
      invariant 0 <= i <= n / 2
      invariant Heap(a[..], cmp, i + 1, n)
      invariant multiset(a[..]) == multiset(old(a[..]))
    {
      Heapify(a, i, n, cmp);
      i := i - 1;
    }
    i := n;
    AllPlaced(a[..], cmp);
    while i > 1
      invariant 0 <= i <= n
      invariant Heap(a[..], cmp, 1, i) && Placed(a[..], cmp, i)
      invariant multiset(a[..]) == multiset(old(a[..]))
    {
      PlaceRoot(a[..], cmp, i);
      SwapPermutes(a[..], 1, i);
      Swap(a, 1, i);
      ghost var s := a[..];
      Heapify(a, 1, i - 1, cmp);
      PlacedShuffled(s, a[..], cmp, i - 1);
      i := i - 1;
    }
    PlacedIsSorted(a[..], cmp, i);
  }

  lemma NoParents<T>(s: seq<T>, cmp: (T, T) -> int, n: nat)
    requires n <= |s|
    ensures Heap(s, cmp, n / 2 + 1, n)
  {
  }

  lemma AllPlaced<T>(s: seq<T>, cmp: (T, T) -> int)
    ensures Placed(s, cmp, |s|)
  {
  }

  lemma PlacedIsSorted<T>(s: seq<T>, cmp: (T, T) -> int, i: nat)
    requires Placed(s, cmp, i) && i <= 1
    ensures Sorted(s, cmp)
  {
  }

  /** binary_search: an element equal to the key, or -1 exactly when there is none. */
  method BinarySearch<T(!new)>(key: T, s: seq<T>, cmp: (T, T) -> int) returns (r: int)
    requires TotalPreorder(cmp) && Sorted(s, cmp)
    ensures r == -1 || (0 <= r < |s| && cmp(key, s[r]) == 0)
    ensures r == -1 <==> forall i :: 0 <= i < |s| ==> cmp(key, s[i]) != 0
  {
    hide TotalPreorder;
    var first, last := 0, |s|;
    while first < last
      invariant 0 <= first <= last <= |s|
      invariant forall i :: 0 <= i < first ==> cmp(key, s[i]) > 0
      invariant forall i :: last <= i < |s| ==> cmp(key, s[i]) < 0
    {
      var middle := first + (last - first) / 2;
      var c := cmp(key, s[middle]);
      if c < 0 {
        forall i | middle <= i < |s| ensures cmp(key, s[i]) < 0 {
          Before(cmp, key, s[middle], s[i]);
        }
        last := middle;
      } else if c > 0 {
        forall i | 0 <= i <= middle ensures cmp(key, s[i]) > 0 {
          After(cmp, key, s[middle], s[i]);
        }
        first := middle + 1;
      } else {
        return middle;
      }
    }
    r := -1;
  }

  lemma Before<T(!new)>(cmp: (T, T) -> int, key: T, x: T, y: T)
    requires TotalPreorder(cmp) && cmp(key, x) < 0 && (x == y || cmp(x, y) <= 0)
    ensures cmp(key, y) < 0
  {
  }

  lemma After<T(!new)>(cmp: (T, T) -> int, key: T, x: T, y: T)
    requires TotalPreorder(cmp) && cmp(key, x) > 0 && (x == y || cmp(y, x) <= 0)
    ensures cmp(key, y) > 0
  {
  }

  ghost predicate HasMatch<T>(s: seq<T>, cmp: (T, T) -> int, key: T) {
    exists i :: 0 <= i < |s| && cmp(key, s[i]) == 0
  }

  /** Sorting and then searching finds a match exactly when the array had one to begin with. */
  method SortAndFind<T(!new)>(a: array<T>, key: T, cmp: (T, T) -> int) returns (r: int)
    requires TotalPreorder(cmp)
    modifies a
    ensures r >= 0 <==> HasMatch(old(a[..]), cmp, key)
    ensures r >= 0 ==> r < a.Length && cmp(key, a[r]) == 0
    ensures Sorted(a[..], cmp) && multiset(a[..]) == multiset(old(a[..]))
  {
    hide TotalPreorder, Sorted;
    ghost var s := a[..];
    Sort(a, cmp);
    r := BinarySearch(key, a[..], cmp);
    if HasMatch(s, cmp, key) {
      SameMatches(s, a[..], cmp, key);
    }
    if HasMatch(a[..], cmp, key) {
      SameMatches(a[..], s, cmp, key);
    }
  }

  lemma SameMatches<T>(s: seq<T>, t: seq<T>, cmp: (T, T) -> int, key: T)
    requires multiset(s) == multiset(t) && HasMatch(s, cmp, key)
    ensures HasMatch(t, cmp, key)
  {
    var i :| 0 <= i < |s| && cmp(key, s[i]) == 0;
    assert s[i] in multiset(t);
  }
}
