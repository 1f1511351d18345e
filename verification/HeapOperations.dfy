/** The operations of libds/heap.c, in place on their vector.  Indices are C ints, lengths are 64-bit. */
module HeapOperations {
  import opened Basics
  import opened Ordering
  import opened Vectors
  import opened BinaryHeap

  /** With fewer elements no child index leaves the 32-bit int. */
  const LENGTH_LIMIT := 0x4000_0000

  /** The value of a 64-bit unsigned expression. */
  function Wrap64(n: int): (w: nat)
    ensures 0 <= n < 0x1_0000_0000_0000_0000 ==> w == n
    ensures -0x1_0000_0000_0000_0000 <= n < 0 ==> w == n + 0x1_0000_0000_0000_0000
  {
    n % 0x1_0000_0000_0000_0000
  }

  /** Conversion of a 64-bit unsigned number to a 32-bit int. */
  function ToInt(n: int): (i: int)
    ensures -0x8000_0000 <= i < 0x8000_0000
  {
    var low := n % 0x1_0000_0000;
    if low < 0x8000_0000 then low else low - 0x1_0000_0000
  }

  /** `PARENT(length - 1)` as `build_heap` computes it: for lengths 0 and 1 the subtraction wraps
      around and the index becomes -1, for the others it is the parent of the last element. */
  lemma {:induction false} FirstToSink(length: nat)
    requires length < LENGTH_LIMIT
    ensures ToInt(Wrap64(length - 2) / 2) == if length < 2 then -1 else Parent(length - 1)
  {
  }

  class Heap<T(0,!new)> {
    const vec: Vector<T>
    const cmp: (T, T) -> int

    ghost predicate Valid()
      reads this, vec
    {
      vec.Valid() && vec.length < LENGTH_LIMIT
    }

    ghost function Contents(): seq<T>
      requires Valid()
      reads this, vec, vec.data
    {
      vec.Contents()
    }

    /** `create_heap`. */
    constructor (cmp: (T, T) -> int)
      ensures Valid() && fresh(vec) && fresh(vec.data) && Contents() == [] && this.cmp == cmp
    {
      var v := new Vector<T>();
      vec, this.cmp := v, cmp;
    }

    /** `cmpfunc(vec, j, i) > 0` guarded by `j < length`. */
    method LargerOf(i: nat, j: nat) returns (k: nat)
      requires Valid() && i < vec.length
      ensures k == Larger(cmp, Contents(), i, j) && k < vec.length && (k == i || k == j)
    {
      k := if j < vec.length && cmp(vec.data[j], vec.data[i]) > 0 then j else i;
    }

    /** `heapify`. */
    method Heapify(i: nat)
      requires Valid() && (i < vec.length || vec.length == 0)
      modifies vec.data
      ensures Contents() == if old(vec.length) == 0 then [] else Sunk(cmp, old(Contents()), i)
      decreases vec.length - i
    {
      hide Larger, Swapped;
      if vec.length == 0 {
        return;
      }
      assert 2 * i + 2 < 0x8000_0000;
      var largest := LargerOf(i, 2 * i + 1);
      largest := LargerOf(largest, 2 * i + 2);
      if largest != i {
        vec.Swap(i, largest);
        Heapify(largest);
      }
    }

    /** `build_heap`: whatever the vector holds becomes a heap of the same elements. */
    method Build()
      requires Valid() && TotalPreorder(cmp)
      modifies vec.data
      ensures MaxHeap(cmp, Contents()) && multiset(Contents()) == multiset(old(Contents()))
      ensures Contents() == if vec.length < 2 then old(Contents())
                            else Built(cmp, old(Contents()), Parent(vec.length - 1))
    {
      ghost var was := Contents();
      FirstToSink(vec.length);
      var i := ToInt(Wrap64(vec.length - 2) / 2);
      ghost var start := i;
      while i >= 0
        invariant -1 <= i <= start && |Contents()| == |was|
        invariant |was| >= 2 ==> Built(cmp, Contents(), i) == Built(cmp, was, start)
        invariant |was| < 2 ==> Contents() == was
      {
        Heapify(i);
        i := i - 1;
      }
      LeavesAreOrdered(cmp, was);
      if |was| >= 2 {
        BuildMakesAHeap(cmp, was, start);
      }
    }

    /** The loop of `heap_insert`. */
    method RaiseLast()
      requires vec.Valid() && vec.length > 0
      modifies vec.data
      ensures vec.Contents() == Raised(cmp, old(vec.Contents()), vec.length - 1)
    {
      hide Swapped;
      ghost var was := vec.Contents();
      var i: nat := vec.length - 1;
      while i > 0
        invariant i < vec.length
        invariant Raised(cmp, vec.Contents(), i) == Raised(cmp, was, |was| - 1)
        decreases i
      {
        if cmp(vec.data[Parent(i)], vec.data[i]) > 0 {
          break;
        }
        vec.Swap(Parent(i), i);
        i := Parent(i);
      }
    }

    /** `heap_insert`. */
    method Insert(x: T)
      requires Valid() && vec.length + 1 < LENGTH_LIMIT && TotalPreorder(cmp) && MaxHeap(cmp, Contents())
      modifies vec, vec.data
      ensures Valid() && (vec.data == old(vec.data) || fresh(vec.data))
      ensures MaxHeap(cmp, Contents()) && multiset(Contents()) == multiset(old(Contents())) + multiset{x}
      ensures Contents() == Raised(cmp, old(Contents()) + [x], old(vec.length))
    {
      hide MaxHeap, TotalPreorder, Raised;
      InsertKeepsTheHeap(cmp, Contents(), x);
      vec.Add(x);
      RaiseLast();
    }

    /** The last element takes the place of the first one. */
    method DropFirst()
      requires Valid()
      modifies vec, vec.data
      ensures Valid() && vec.data == old(vec.data)
      ensures old(vec.length) == 0 ==> Contents() == []
      ensures old(vec.length) > 0 ==>
        Contents() == Swapped(old(Contents()), 0, old(vec.length) - 1)[..old(vec.length) - 1]
    {
      hide Swapped, Wrap64;
      var last := Wrap64(vec.length - 1);
      vec.Swap(0, last);
      vec.Remove(last);
    }

    /** `heap_remove`: on an empty heap both indices wrap around and nothing happens. */
    method Remove()
      requires Valid() && TotalPreorder(cmp) && MaxHeap(cmp, Contents())
      modifies vec, vec.data
      ensures Valid() && vec.data == old(vec.data) && MaxHeap(cmp, Contents())
      ensures old(vec.length) == 0 ==> Contents() == []
      ensures old(vec.length) > 0 ==> Contents() == Removed(cmp, old(Contents()))
      ensures old(vec.length) > 0 ==> multiset(Contents()) == multiset(old(Contents())) - multiset{old(Contents()[0])}
    {
      hide MaxHeap, TotalPreorder, Sunk, Swapped, Removed;
      ghost var was := Contents();
      if was == [] {
        LeavesAreOrdered(cmp, was);
      } else {
        RemoveKeepsTheHeap(cmp, was);
        RemovedIs(cmp, was);
      }
      DropFirst();
      Heapify(0);
    }
  }
}
