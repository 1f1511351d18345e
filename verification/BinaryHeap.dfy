/** The binary heap of libds/heap.c as functions on the contents of its vector, with what they keep:
    the heap order, the elements, and the order in which they come out. */
module BinaryHeap {
  import opened Ordering
  import opened Vectors

  function Parent(i: nat): nat
    requires i > 0
  {
    (i - 1) / 2
  }

  /** The larger of element `i` and, if there is one, element `j`. */
  function Larger<T>(cmp: (T, T) -> int, s: seq<T>, i: nat, j: nat): nat
    requires i < |s|
  {
    if j < |s| && cmp(s[j], s[i]) > 0 then j else i
  }

  function LargestOf<T>(cmp: (T, T) -> int, s: seq<T>, i: nat): (k: nat)
    requires i < |s|
    ensures k < |s| && (k == i || (k > 0 && Parent(k) == i))
  {
    Larger(cmp, s, Larger(cmp, s, i, 2 * i + 1), 2 * i + 2)
  }

  /** `heapify`: element `i` sinks below its larger children. */
  function Sunk<T>(cmp: (T, T) -> int, s: seq<T>, i: nat): (t: seq<T>)
    requires i < |s|
    ensures multiset(t) == multiset(s) && |t| == |s|
    decreases |s| - i
  {
    var k := LargestOf(cmp, s, i);
    if k == i then s else Sunk(cmp, Swapped(s, i, k), k)
  }

  /** The loop of `build_heap` from `i` down. */
  function Built<T>(cmp: (T, T) -> int, s: seq<T>, i: int): (t: seq<T>)
    requires i < |s|
    ensures multiset(t) == multiset(s) && |t| == |s|
    decreases i
  {
    if i < 0 then s else Built(cmp, Sunk(cmp, s, i), i - 1)
  }

  /** The loop of `heap_insert`: element `i` rises over every ancestor that is not larger. */
  function Raised<T>(cmp: (T, T) -> int, s: seq<T>, i: nat): (t: seq<T>)
    requires i < |s|
    ensures multiset(t) == multiset(s) && |t| == |s|
    decreases i
  {
    if i == 0 || cmp(s[Parent(i)], s[i]) > 0 then s else Raised(cmp, Swapped(s, Parent(i), i), Parent(i))
  }

  /** `heap_remove` on a non-empty heap. */
  function Removed<T>(cmp: (T, T) -> int, s: seq<T>): (t: seq<T>)
    requires s != []
    ensures |t| == |s| - 1
  {
    var rest := Swapped(s, 0, |s| - 1)[..|s| - 1];
    if rest == [] then [] else Sunk(cmp, rest, 0)
  }

  lemma RemovedIs<T>(cmp: (T, T) -> int, s: seq<T>)
    requires s != []
    ensures var rest := Swapped(s, 0, |s| - 1)[..|s| - 1];
      Removed(cmp, s) == if |rest| == 0 then [] else Sunk(cmp, rest, 0)
  {
  }

  // ----- the heap order -----

  ghost predicate Ordered<T>(cmp: (T, T) -> int, s: seq<T>, k: nat) {
    0 < k < |s| ==> cmp(s[Parent(k)], s[k]) >= 0
  }

  /** The children of the nodes from `lo` on are in order. */
  ghost predicate HeapFrom<T>(cmp: (T, T) -> int, s: seq<T>, lo: nat) {
    forall k: nat :: k > 0 && Parent(k) >= lo ==> Ordered(cmp, s, k)
  }

  ghost predicate MaxHeap<T>(cmp: (T, T) -> int, s: seq<T>) {
    HeapFrom(cmp, s, 0)
  }

  /** The same except for the children of `i`, which are still in order with the parent of `i`. */
  ghost predicate HeapExceptBelow<T>(cmp: (T, T) -> int, s: seq<T>, lo: nat, i: nat)
    requires i < |s|
  {
    && (forall k: nat :: k > 0 && Parent(k) >= lo && Parent(k) != i ==> Ordered(cmp, s, k))
    && (forall k: nat :: 0 < k < |s| && Parent(k) == i && i > 0 && Parent(i) >= lo ==> cmp(s[Parent(i)], s[k]) >= 0)
  }

  /** A heap except that `i` may be larger than its parent. */
  ghost predicate HeapExceptAbove<T>(cmp: (T, T) -> int, s: seq<T>, i: nat)
    requires i < |s|
  {
    && (forall k: nat :: k > 0 && k != i ==> Ordered(cmp, s, k))
    && (forall k: nat :: 0 < k < |s| && Parent(k) == i && i > 0 ==> cmp(s[Parent(i)], s[k]) >= 0)
  }

  /** Of an element and its children the first one that no other exceeds. */
  lemma LargestOfThree<T(!new)>(cmp: (T, T) -> int, s: seq<T>, i: nat)
    requires TotalPreorder(cmp) && i < |s|
    ensures var k := LargestOf(cmp, s, i);
      && (k != i ==> cmp(s[k], s[i]) >= 0)
      && (forall m: nat :: 0 < m < |s| && Parent(m) == i ==> cmp(s[k], s[m]) >= 0)
      && (forall m: nat :: m < k && (m == i || (m > 0 && Parent(m) == i)) ==> cmp(s[k], s[m]) > 0)
  {
    var k := LargestOf(cmp, s, i);
    assert cmp(s[k], s[k]) >= 0;
    forall m: nat | 0 < m < |s| && Parent(m) == i
      ensures cmp(s[k], s[m]) >= 0
    {
      assert m == 2 * i + 1 || m == 2 * i + 2;
    }
  }

  lemma SinkStep<T(!new)>(cmp: (T, T) -> int, s: seq<T>, lo: nat, i: nat)
    requires TotalPreorder(cmp) && lo <= i < |s| && HeapExceptBelow(cmp, s, lo, i)
    requires LargestOf(cmp, s, i) != i
    ensures var k := LargestOf(cmp, s, i); HeapExceptBelow(cmp, Swapped(s, i, k), lo, k)
  {
    hide LargestOf;
    LargestOfThree(cmp, s, i);
    var k := LargestOf(cmp, s, i);
    var t := Swapped(s, i, k);
    forall m: nat | m > 0 && Parent(m) >= lo && Parent(m) != k
      ensures Ordered(cmp, t, m)
    {
      assert Parent(m) != i ==> Ordered(cmp, s, m);
    }
    forall m: nat | 0 < m < |t| && Parent(m) == k
      ensures cmp(t[Parent(k)], t[m]) >= 0
    {
      assert Ordered(cmp, s, m);
    }
  }

  lemma {:induction false} SinkRestores<T(!new)>(cmp: (T, T) -> int, s: seq<T>, lo: nat, i: nat)
    requires TotalPreorder(cmp) && lo <= i < |s| && HeapExceptBelow(cmp, s, lo, i)
    ensures HeapFrom(cmp, Sunk(cmp, s, i), lo)
    decreases |s| - i
  {
    var k := LargestOf(cmp, s, i);
    if k == i {
      LargestOfThree(cmp, s, i);
    } else {
      SinkStep(cmp, s, lo, i);
      SinkRestores(cmp, Swapped(s, i, k), lo, k);
    }
  }

  /** `build_heap` makes a heap of anything. */
  lemma {:induction false} BuildMakesAHeap<T(!new)>(cmp: (T, T) -> int, s: seq<T>, i: int)
    requires TotalPreorder(cmp) && -1 <= i < |s| && HeapFrom(cmp, s, i + 1)
    ensures MaxHeap(cmp, Built(cmp, s, i))
    decreases i + 1
  {
    if i >= 0 {
      SinkRestores(cmp, s, i, i);
      BuildMakesAHeap(cmp, Sunk(cmp, s, i), i - 1);
    }
  }

  /** The second half of a sequence has no children. */
  lemma LeavesAreOrdered<T>(cmp: (T, T) -> int, s: seq<T>)
    ensures |s| >= 2 ==> HeapFrom(cmp, s, Parent(|s| - 1) + 1)
    ensures |s| < 2 ==> MaxHeap(cmp, s)
  {
  }

  lemma RaiseStep<T(!new)>(cmp: (T, T) -> int, s: seq<T>, i: nat)
    requires TotalPreorder(cmp) && 0 < i < |s| && HeapExceptAbove(cmp, s, i) && cmp(s[Parent(i)], s[i]) <= 0
    ensures HeapExceptAbove(cmp, Swapped(s, Parent(i), i), Parent(i))
  {
    var p := Parent(i);
    var t := Swapped(s, p, i);
    forall m: nat | m > 0 && m != p
      ensures Ordered(cmp, t, m)
    {
      assert m != i ==> Ordered(cmp, s, m);
    }
    forall m: nat | 0 < m < |t| && Parent(m) == p && p > 0
      ensures cmp(t[Parent(p)], t[m]) >= 0
    {
      assert Ordered(cmp, s, p) && (m != i ==> Ordered(cmp, s, m));
    }
  }

  lemma {:induction false} RaiseRestores<T(!new)>(cmp: (T, T) -> int, s: seq<T>, i: nat)
    requires TotalPreorder(cmp) && i < |s| && HeapExceptAbove(cmp, s, i)
    ensures MaxHeap(cmp, Raised(cmp, s, i))
    decreases i
  {
    if i > 0 && cmp(s[Parent(i)], s[i]) <= 0 {
      RaiseStep(cmp, s, i);
      RaiseRestores(cmp, Swapped(s, Parent(i), i), Parent(i));
    }
  }

  /** `heap_insert` keeps a heap and adds just the new element. */
  lemma {:induction false} InsertKeepsTheHeap<T(!new)>(cmp: (T, T) -> int, s: seq<T>, x: T)
    requires TotalPreorder(cmp) && MaxHeap(cmp, s)
    ensures var t := Raised(cmp, s + [x], |s|);
      MaxHeap(cmp, t) && multiset(t) == multiset(s) + multiset{x}
  {
    forall k: nat | k > 0 && k != |s|
      ensures Ordered(cmp, s + [x], k)
    {
      assert Ordered(cmp, s, k);
    }
    RaiseRestores(cmp, s + [x], |s|);
  }

  /** The element that rises comes to rest at the top or below a strictly larger one; what it passed
      compares less or equal and is one level lower, everything else is where it was. */
  lemma {:induction false} RisesOverEquals<T(!new)>(cmp: (T, T) -> int, s: seq<T>, i: nat) returns (k: nat)
    requires i < |s|
    ensures var t := Raised(cmp, s, i);
      && k <= i && t[k] == s[i] && (k > 0 ==> cmp(t[Parent(k)], s[i]) > 0)
      && (forall m: nat :: m < |s| && m != k ==>
            t[m] == s[m] || (0 < m <= i && t[m] == s[Parent(m)] && cmp(t[m], s[i]) <= 0))
      && (forall m: nat :: i < m < |s| ==> t[m] == s[m])
      && (k < i ==> t[i] == s[Parent(i)] && cmp(s[Parent(i)], s[i]) <= 0)
    decreases i
  {
    if i == 0 || cmp(s[Parent(i)], s[i]) > 0 {
      k := i;
    } else {
      var p, t := Parent(i), Raised(cmp, s, i);
      var u := Swapped(s, p, i);
      k := RisesOverEquals(cmp, u, p);
      forall m: nat | m < |s| && m != k
        ensures t[m] == s[m] || (0 < m <= i && t[m] == s[Parent(m)] && cmp(t[m], s[i]) <= 0)
      {
        assert m != i && m != p ==> u[m] == s[m];
        assert 0 < m <= p ==> u[Parent(m)] == s[Parent(m)];
      }
    }
  }

  /** Moving the last element to the front only disturbs the order below the front. */
  lemma LastToFront<T>(cmp: (T, T) -> int, s: seq<T>)
    requires MaxHeap(cmp, s) && s != []
    ensures var rest := Swapped(s, 0, |s| - 1)[..|s| - 1];
      && multiset(rest) == multiset(s) - multiset{s[0]}
      && (rest != [] ==> HeapExceptBelow(cmp, rest, 0, 0))
  {
    var t := Swapped(s, 0, |s| - 1);
    var rest := t[..|s| - 1];
    assert t == rest + [s[0]];
    forall k: nat | k > 0 && Parent(k) != 0
      ensures Ordered(cmp, rest, k)
    {
      assert Ordered(cmp, s, k);
    }
  }

  /** `heap_remove` keeps a heap and takes out just its first element. */
  lemma RemoveKeepsTheHeap<T(!new)>(cmp: (T, T) -> int, s: seq<T>)
    requires TotalPreorder(cmp) && MaxHeap(cmp, s) && s != []
    ensures MaxHeap(cmp, Removed(cmp, s)) && multiset(Removed(cmp, s)) == multiset(s) - multiset{s[0]}
  {
    LastToFront(cmp, s);
    hide Swapped, TotalPreorder, HeapExceptBelow, Sunk;
    var rest := Swapped(s, 0, |s| - 1)[..|s| - 1];
    if rest != [] {
      SinkRestores(cmp, rest, 0, 0);
    }
  }

  /** The first element of a heap is a largest one. */
  lemma {:induction false} FirstIsLargest<T(!new)>(cmp: (T, T) -> int, s: seq<T>, i: nat)
    requires TotalPreorder(cmp) && MaxHeap(cmp, s) && i < |s|
    ensures cmp(s[0], s[i]) >= 0
    decreases i
  {
    if i == 0 {
      assert cmp(s[0], s[0]) <= 0 <==> cmp(s[0], s[0]) >= 0;
    } else {
      FirstIsLargest(cmp, s, Parent(i));
      assert Ordered(cmp, s, i);
    }
  }

  /** Element 0, then what comes out of the heap after `heap_remove`, and so on. */
  function Drained<T>(cmp: (T, T) -> int, s: seq<T>): seq<T>
    decreases |s|
  {
    if s == [] then [] else [s[0]] + Drained(cmp, Removed(cmp, s))
  }

  ghost predicate NonIncreasing<T>(cmp: (T, T) -> int, s: seq<T>) {
    forall i, j :: 0 <= i < j < |s| ==> cmp(s[i], s[j]) >= 0
  }

  lemma FirstIsLargestOf<T(!new)>(cmp: (T, T) -> int, s: seq<T>, some: seq<T>)
    requires TotalPreorder(cmp) && MaxHeap(cmp, s) && s != [] && multiset(some) <= multiset(s)
    ensures forall j :: 0 <= j < |some| ==> cmp(s[0], some[j]) >= 0
  {
    hide MaxHeap;
    forall j | 0 <= j < |some|
      ensures cmp(s[0], some[j]) >= 0
    {
      assert some[j] in multiset(some) && some[j] in multiset(s);
      var k :| 0 <= k < |s| && s[k] == some[j];
      FirstIsLargest(cmp, s, k);
    }
  }

  lemma Empty<T>(cmp: (T, T) -> int, s: seq<T>)
    requires s == []
    ensures NonIncreasing(cmp, s)
  {
  }

  lemma Prepended<T>(cmp: (T, T) -> int, x: T, rest: seq<T>)
    requires NonIncreasing(cmp, rest) && forall j :: 0 <= j < |rest| ==> cmp(x, rest[j]) >= 0
    ensures NonIncreasing(cmp, [x] + rest)
    ensures multiset([x] + rest) == multiset{x} + multiset(rest)
  {
  }

  /** A heap gives back all its elements, the larger ones first. */
  lemma {:induction false} DrainSorts<T(!new)>(cmp: (T, T) -> int, s: seq<T>)
    requires TotalPreorder(cmp) && MaxHeap(cmp, s)
    ensures multiset(Drained(cmp, s)) == multiset(s)
    ensures NonIncreasing(cmp, Drained(cmp, s))
    decreases |s|
  {
    hide MaxHeap, TotalPreorder, Removed, NonIncreasing;
    if s == [] {
      Empty(cmp, Drained(cmp, s));
    } else {
      RemoveKeepsTheHeap(cmp, s);
      DrainSorts(cmp, Removed(cmp, s));
      var rest := Drained(cmp, Removed(cmp, s));
      FirstIsLargestOf(cmp, s, rest);
      Prepended(cmp, s[0], rest);
      assert multiset{s[0]} <= multiset(s);
    }
  }
}
