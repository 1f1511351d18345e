/** Comparison functions in the style of `strcmp`: the sign of the result orders the arguments. */
module Ordering {

  ghost predicate TotalPreorder<T(!new)>(cmp: (T, T) -> int) {
    && (forall a, b :: cmp(a, b) <= 0 <==> cmp(b, a) >= 0)
    && (forall a, b, c :: cmp(a, b) <= 0 && cmp(b, c) <= 0 ==> cmp(a, c) <= 0)
  }

  ghost predicate Sorted<T>(cmp: (T, T) -> int, s: seq<T>) {
    forall i, j :: 0 <= i < j < |s| ==> cmp(s[i], s[j]) <= 0
  }

  ghost predicate InsertedAt<T>(cmp: (T, T) -> int, before: seq<T>, x: T, after: seq<T>, k: nat)
    requires k <= |before|
  {
    && after == before[..k] + [x] + before[k..]
    && (forall i :: 0 <= i < k ==> cmp(x, before[i]) >= 0)
    && (forall i :: k <= i < |before| ==> cmp(x, before[i]) < 0)
  }

  /** `after` is `before` with `x` put in behind every element that compares less or equal. */
  ghost predicate InsertedAfterEqual<T>(cmp: (T, T) -> int, before: seq<T>, x: T, after: seq<T>) {
    exists k :: 0 <= k <= |before| && InsertedAt(cmp, before, x, after, k)
  }

  lemma InsertedIsSorted<T(!new)>(cmp: (T, T) -> int, before: seq<T>, x: T, after: seq<T>)
    requires TotalPreorder(cmp) && Sorted(cmp, before)
    requires InsertedAfterEqual(cmp, before, x, after)
    ensures Sorted(cmp, after)
  {
    var k :| 0 <= k <= |before| && InsertedAt(cmp, before, x, after, k);
    forall i, j | 0 <= i < j < |after|
      ensures cmp(after[i], after[j]) <= 0
    {
      if i == k {
        assert after[j] == before[j - 1] && cmp(x, before[j - 1]) < 0;
      } else if j == k {
        assert after[i] == before[i] && cmp(x, before[i]) >= 0;
      } else {
        var i', j' := if i < k then i else i - 1, if j < k then j else j - 1;
        assert after[i] == before[i'] && after[j] == before[j'];
      }
    }
  }

  /** In a sorted sequence an element that compares with the middle compares with the half beyond. */
  lemma SortedAround<T(!new)>(cmp: (T, T) -> int, l: seq<T>, m: T, r: seq<T>, x: T)
    requires TotalPreorder(cmp) && Sorted(cmp, l + [m] + r)
    ensures cmp(x, m) >= 0 ==> forall e :: e in l ==> cmp(x, e) >= 0
    ensures cmp(x, m) > 0 ==> forall e :: e in l ==> cmp(x, e) > 0
    ensures cmp(x, m) < 0 ==> forall e :: e in r ==> cmp(x, e) < 0
  {
    var s := l + [m] + r;
    assert s[|l|] == m;
    forall i | 0 <= i < |l|
      ensures cmp(l[i], m) <= 0
    {
      assert s[i] == l[i];
    }
    forall i | 0 <= i < |r|
      ensures cmp(m, r[i]) <= 0
    {
      assert s[|l| + 1 + i] == r[i];
    }
  }

  lemma SortedMiddle<T>(cmp: (T, T) -> int, a: seq<T>, b: seq<T>, c: seq<T>)
    requires Sorted(cmp, a + b + c)
    ensures Sorted(cmp, b)
  {
    forall i, j | 0 <= i < j < |b|
      ensures cmp(b[i], b[j]) <= 0
    {
      assert (a + b + c)[|a| + i] == b[i] && (a + b + c)[|a| + j] == b[j];
    }
  }
}
