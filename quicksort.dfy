/** Hoare-partition quicksort over the index range [left, right] of an int array,
    as in Collection.Tests/SortImplementations/QuickSort.cs. */
module QuickSort {

  import opened Common

  /** The slice s[lo..hi] is in non-decreasing order. */
  ghost predicate SortedRange(s: seq<int>, lo: int, hi: int)
    requires 0 <= lo <= hi <= |s|
  {
    forall p, q :: lo <= p < q < hi ==> s[p] <= s[q]
  }

  /** t is s with at most the slice [lo, hi) rearranged: same length, same
      elements outside the slice, and the same multiset of elements (with the
      outside fixed, the slices hold the same multiset too: PermutedSlices). */
  ghost predicate PermutedRange(s: seq<int>, t: seq<int>, lo: int, hi: int)
  {
    && |s| == |t| && 0 <= lo <= hi <= |s|
    && (forall k :: 0 <= k < |s| && !(lo <= k < hi) ==> s[k] == t[k])
    && multiset(s) == multiset(t)
  }

  // ---------------------------------------------------------------------------
  // The pivot index
  // ---------------------------------------------------------------------------

  /** C#'s integer division by two, which truncates toward zero. */
  function HalfTowardZero(x: int): int
  {
    if x >= 0 then x / 2 else -((-x) / 2)
  }

  /** The pivot index `(left + right) / 2` as the source computes it, in 32-bit
      arithmetic. */
  function MidpointAsWritten(left: int, right: int): int
  {
    HalfTowardZero(Wrap32(left + right))
  }

  /** Whenever left + right fits in an int, the source's index is the exact midpoint. */
  lemma MidpointAsWrittenInRange(left: int, right: int)
    requires 0 <= left <= right && left + right <= IntMaxValue
    ensures MidpointAsWritten(left, right) == Midpoint(left, right)
  {
    assert Wrap32(left + right) == left + right;
  }

  /** For a range in the upper half of a (4-gigabyte) array the sum overflows and the
      source indexes the array at a negative position. */
  lemma MidpointAsWrittenOverflows()
    ensures MidpointAsWritten(0x4000_0000, 0x4000_0000) == -0x4000_0000
  {
    assert Wrap32(0x8000_0000) == -0x8000_0000;
  }

  /** The pivot index written without overflow; it is the exact midpoint and lies
      inside the range. */
  function Midpoint(left: int, right: int): (m: int)
    requires 0 <= left <= right
    ensures left <= m <= right
    ensures m == (left + right) / 2
    ensures right <= IntMaxValue ==> m <= IntMaxValue
  {
    left + (right - left) / 2
  }

  // ---------------------------------------------------------------------------
  // The algorithm
  // ---------------------------------------------------------------------------

  /** The swap `if (i <= j) { swap; i++; j--; }` inside the partition loop:
      the element at i (not below the pivot) and the one at j (not above it)
      trade places, which extends both bounded parts by one element; nothing
      else changes. */
  method SwapInward(a: array<int>, i: int, j: int, pivot: int, ghost left: int, ghost right: int)
    requires 0 <= left <= i <= j <= right < a.Length
    requires pivot <= a[i] && a[j] <= pivot
    requires forall k :: left <= k < i ==> a[k] <= pivot
    requires forall k :: j < k <= right ==> pivot <= a[k]
    modifies a
    ensures forall k :: left <= k <= i ==> a[k] <= pivot
    ensures forall k :: j <= k <= right ==> pivot <= a[k]
    ensures forall k :: 0 <= k < a.Length && k != i && k != j ==> a[k] == old(a[k])
    ensures multiset(a[..]) == multiset(old(a[..]))
  {
    a[i], a[j] := a[j], a[i];
  }

  /** `while (array[i] < pivot) i++;` started at i and stopped, at the latest, by the
      element at index stop, which is not below the pivot. */
  method ScanUp(a: array<int>, i: int, pivot: int, ghost left: int, ghost stop: int) returns (r: int)
    requires 0 <= left <= i <= stop < a.Length && pivot <= a[stop]
    requires forall k :: left <= k < i ==> a[k] <= pivot
    ensures i <= r <= stop && pivot <= a[r]
    ensures forall k :: left <= k < r ==> a[k] <= pivot
  {
    r := i;
    while a[r] < pivot
      invariant i <= r <= stop
      invariant forall k :: left <= k < r ==> a[k] <= pivot
      decreases stop - r
    {
      r := r + 1;
    }
  }

  /** `while (array[j] > pivot) j--;` started at j and stopped, at the latest, by the
      element at index stop, which is not above the pivot. */
  method ScanDown(a: array<int>, j: int, pivot: int, ghost right: int, ghost stop: int) returns (r: int)
    requires 0 <= stop <= j <= right < a.Length && a[stop] <= pivot
    requires forall k :: j < k <= right ==> pivot <= a[k]
    ensures stop <= r <= j && a[r] <= pivot
    ensures forall k :: r < k <= right ==> pivot <= a[k]
  {
    r := j;
    while pivot < a[r]
      invariant stop <= r <= j
      invariant forall k :: r < k <= right ==> pivot <= a[k]
      decreases r - stop
    {
      r := r - 1;
    }
  }

  /** The partition step of `Sort`: its `while (i <= j)` loop with the two scans
      and the swaps. On return every element left of i is at most the pivot,
      every element right of j is at least the pivot, both sub-ranges [left, j] and [i, right] are strictly smaller than
      [left, right], and only the range [left, right] has been rearranged. The
      middle element is the sentinel that keeps both scans inside the range. */
  method Partition(a: array<int>, left: int, right: int) returns (i: int, j: int, pivot: int)
    requires 0 <= left <= right < a.Length
    modifies a
    ensures pivot == old(a[Midpoint(left, right)])
    ensures left < i <= right + 1 && left - 1 <= j < right && j < i
    ensures forall k :: left <= k < i ==> a[k] <= pivot
    ensures forall k :: j < k <= right ==> pivot <= a[k]
    ensures PermutedRange(old(a[..]), a[..], left, right + 1)
  {
    i, j := left, right;
    var mid := Midpoint(left, right);
    pivot := a[mid];
    ghost var original := a[..];
    while i <= j
      invariant left <= i <= right + 1 && left - 1 <= j <= right
      invariant (i == left && j == right && a[mid] == pivot) || (left < i && j < right)
      invariant forall k :: left <= k < i ==> a[k] <= pivot
      invariant forall k :: j < k <= right ==> pivot <= a[k]
      invariant multiset(a[..]) == multiset(original)
      invariant forall k :: 0 <= k < a.Length && !(left <= k <= right) ==> a[k] == original[k]
      decreases j - i
    {
      // A ghost stop index for each scan: an element inside the range that ends it.
      ghost var first := i == left && j == right;
      ghost var upStop := if first then mid else j + 1;
      ghost var downStop := if first then mid else i - 1;
      i := ScanUp(a, i, pivot, left, upStop);
      j := ScanDown(a, j, pivot, right, downStop);
      if i <= j {
        SwapInward(a, i, j, pivot, left, right);
        i, j := i + 1, j - 1;
      }
    }
  }

  /** QuickSort.Sort(array, left, right): sorts the range [left, right] in place and
      leaves every element outside it where it was. */
  method Sort(a: array<int>, left: int, right: int)
    requires 0 <= left <= right < a.Length
    modifies a
    ensures SortedRange(a[..], left, right + 1)
    ensures PermutedRange(old(a[..]), a[..], left, right + 1)
    decreases right - left
  {
    ghost var original := a[..];
    var i, j, pivot := Partition(a, left, right);
    ghost var parted := a[..];
    if left < j {
      Sort(a, left, j);
    }
    ghost var leftDone := a[..];
    if i < right {
      Sort(a, i, right);
    }
    SortedAfterRecursion(original, parted, leftDone, a[..], left, right, i, j, pivot);
  }

  /** The proof step of QuickSort.Sort: a partitioned range whose two parts are then
      sorted in place (each only when it has more than one element) is sorted, and a
      rearrangement of the original range. */
  lemma SortedAfterRecursion(original: seq<int>, parted: seq<int>, leftDone: seq<int>,
                             done: seq<int>, left: int, right: int, i: int, j: int, pivot: int)
    requires 0 <= left <= right < |original|
    requires |parted| == |leftDone| == |done| == |original|
    requires left < i <= right + 1 && left - 1 <= j < right && j < i
    requires forall k :: left <= k < i ==> parted[k] <= pivot
    requires forall k :: j < k <= right ==> pivot <= parted[k]
    requires PermutedRange(original, parted, left, right + 1)
    requires left < j ==> SortedRange(leftDone, left, j + 1) && PermutedRange(parted, leftDone, left, j + 1)
    requires !(left < j) ==> leftDone == parted
    requires i < right ==> SortedRange(done, i, right + 1) && PermutedRange(leftDone, done, i, right + 1)
    requires !(i < right) ==> done == leftDone
    ensures SortedRange(done, left, right + 1)
    ensures PermutedRange(original, done, left, right + 1)
  {
    LeftPartSorted(parted, leftDone, left, right, i, j, pivot);
    RightPartSorted(leftDone, done, left, right, i, j, pivot);
    PermutedRangeTrans(original, parted, leftDone, left, right + 1);
    PermutedRangeTrans(original, leftDone, done, left, right + 1);
    JoinSorted(done, left, j, i, right, pivot);
  }

  /** After the recursive call on [left, j]: both bounds still hold, that part is sorted,
      and only the range was rearranged. */
  lemma LeftPartSorted(parted: seq<int>, leftDone: seq<int>, left: int, right: int,
                       i: int, j: int, pivot: int)
    requires 0 <= left <= right < |parted| && |leftDone| == |parted|
    requires left < i <= right + 1 && left - 1 <= j < right && j < i
    requires forall k :: left <= k < i ==> parted[k] <= pivot
    requires forall k :: j < k <= right ==> pivot <= parted[k]
    requires left < j ==> SortedRange(leftDone, left, j + 1) && PermutedRange(parted, leftDone, left, j + 1)
    requires !(left < j) ==> leftDone == parted
    ensures forall k :: left <= k < i ==> leftDone[k] <= pivot
    ensures forall k :: j < k <= right ==> pivot <= leftDone[k]
    ensures SortedRange(leftDone, left, j + 1)
    ensures PermutedRange(parted, leftDone, left, right + 1)
  {
    if left < j {
      PermutedKeepsUpperBound(parted, leftDone, left, j + 1, pivot);
    }
  }

  /** After the recursive call on [i, right]: the left part is untouched, the right part
      is sorted and keeps its bound. */
  lemma RightPartSorted(leftDone: seq<int>, done: seq<int>, left: int, right: int,
                        i: int, j: int, pivot: int)
    requires 0 <= left <= right < |leftDone| && |done| == |leftDone|
    requires left < i <= right + 1 && left - 1 <= j < right && j < i
    requires forall k :: left <= k < i ==> leftDone[k] <= pivot
    requires forall k :: j < k <= right ==> pivot <= leftDone[k]
    requires SortedRange(leftDone, left, j + 1)
    requires i < right ==> SortedRange(done, i, right + 1) && PermutedRange(leftDone, done, i, right + 1)
    requires !(i < right) ==> done == leftDone
    ensures forall k :: left <= k < i ==> done[k] <= pivot
    ensures forall k :: j < k <= right ==> pivot <= done[k]
    ensures SortedRange(done, left, j + 1) && SortedRange(done, i, right + 1)
    ensures PermutedRange(leftDone, done, left, right + 1)
  {
    if i < right {
      assert forall k :: i <= k < right + 1 ==> pivot <= leftDone[k];
      PermutedKeepsLowerBound(leftDone, done, i, right + 1, pivot);
      forall k | left <= k < i
        ensures done[k] == leftDone[k]
      {
      }
      forall p, q | left <= p < q < j + 1
        ensures done[p] <= done[q]
      {
        assert done[p] == leftDone[p] && done[q] == leftDone[q];
      }
    }
  }

  /** The tests' "already sorted input stays unchanged" (and with it the single-element
      case): a sorted rearrangement of a range is unique. */
  lemma {:induction false} SortedPermutationUnique(s: seq<int>, t: seq<int>)
    requires |s| == |t| && SortedRange(s, 0, |s|) && SortedRange(t, 0, |t|)
    requires multiset(s) == multiset(t)
    ensures s == t
  {
    if |s| > 0 {
      // The first elements agree: each is the minimum of the common multiset.
      assert s[0] in multiset(t) && t[0] in multiset(s);
      SortedHeadIsMin(s, t[0]);
      SortedHeadIsMin(t, s[0]);
      assert s[0] == t[0];
      MultisetOfTail(s);
      MultisetOfTail(t);
      SortedPermutationUnique(s[1..], t[1..]);
    }
  }

  /** How the tests observe an already sorted range: sorting it leaves the whole
      array unchanged. */
  lemma SortedRangeIsFixed(s: seq<int>, t: seq<int>, lo: int, hi: int)
    requires 0 <= lo <= hi <= |s| && SortedRange(s, lo, hi)
    requires PermutedRange(s, t, lo, hi) && SortedRange(t, lo, hi)
    ensures t == s
  {
    SortedSlice(s, lo, hi);
    SortedSlice(t, lo, hi);
    PermutedSlices(s, t, lo, hi);
    SortedPermutationUnique(s[lo..hi], t[lo..hi]);
    forall k | 0 <= k < |s| ensures s[k] == t[k] {
      if lo <= k < hi {
        assert s[k] == s[lo..hi][k - lo] && t[k] == t[lo..hi][k - lo];
      }
    }
  }

  // ---------------------------------------------------------------------------
  // Helper lemmas on sequences
  // ---------------------------------------------------------------------------

  /** Two sequences with the same multiset that agree outside [lo, hi) have the same
      multiset inside it. */
  lemma CancelOuter(a: multiset<int>, b: multiset<int>, c: multiset<int>, d: multiset<int>)
    requires a + b + d == a + c + d
    ensures b == c
  {
    forall x: int
      ensures b[x] == c[x]
    {
      assert (a + b + d)[x] == (a + c + d)[x];
    }
  }

  /** With the outside fixed, the rearranged slices hold the same multiset. */
  lemma PermutedSlices(s: seq<int>, t: seq<int>, lo: int, hi: int)
    requires PermutedRange(s, t, lo, hi)
    ensures multiset(s[lo..hi]) == multiset(t[lo..hi])
  {
    var before, inside, after := s[..lo], s[lo..hi], s[hi..];
    assert t[..lo] == before;
    assert t[hi..] == after;
    assert s == before + inside + after;
    assert t == before + t[lo..hi] + after;
    CancelOuter(multiset(before), multiset(inside), multiset(t[lo..hi]), multiset(after));
  }

  lemma PermutedRangeTrans(s: seq<int>, t: seq<int>, u: seq<int>, lo: int, hi: int)
    requires PermutedRange(s, t, lo, hi) && PermutedRange(t, u, lo, hi)
    ensures PermutedRange(s, u, lo, hi)
  {
  }

  lemma PermutedKeepsUpperBound(s: seq<int>, t: seq<int>, lo: int, hi: int, p: int)
    requires PermutedRange(s, t, lo, hi)
    requires forall k :: lo <= k < hi ==> s[k] <= p
    ensures forall k :: lo <= k < hi ==> t[k] <= p
  {
    PermutedSlices(s, t, lo, hi);
    forall k | lo <= k < hi ensures t[k] <= p {
      assert t[k] == t[lo..hi][k - lo];
      assert t[k] in multiset(s[lo..hi]);
      var m :| 0 <= m < hi - lo && s[lo..hi][m] == t[k];
      assert s[lo + m] == t[k];
    }
  }

  lemma PermutedKeepsLowerBound(s: seq<int>, t: seq<int>, lo: int, hi: int, p: int)
    requires PermutedRange(s, t, lo, hi)
    requires forall k :: lo <= k < hi ==> p <= s[k]
    ensures forall k :: lo <= k < hi ==> p <= t[k]
  {
    PermutedSlices(s, t, lo, hi);
    forall k | lo <= k < hi ensures p <= t[k] {
      assert t[k] == t[lo..hi][k - lo];
      assert t[k] in multiset(s[lo..hi]);
      var m :| 0 <= m < hi - lo && s[lo..hi][m] == t[k];
      assert s[lo + m] == t[k];
    }
  }

  /** A range split into a sorted left part of elements at most p, a middle of
      elements equal to p, and a sorted right part of elements at least p is sorted. */
  lemma JoinSorted(s: seq<int>, left: int, j: int, i: int, right: int, p: int)
    requires 0 <= left <= right < |s| && left - 1 <= j < i <= right + 1
    requires SortedRange(s, left, j + 1) && SortedRange(s, i, right + 1)
    requires forall k :: left <= k < i ==> s[k] <= p
    requires forall k :: j < k <= right ==> p <= s[k]
    ensures SortedRange(s, left, right + 1)
  {
  }

  lemma MultisetOfTail(s: seq<int>)
    requires |s| > 0
    ensures multiset(s[1..]) == multiset(s) - multiset{s[0]}
  {
    assert s == [s[0]] + s[1..];
  }

  lemma SortedHeadIsMin(s: seq<int>, x: int)
    requires |s| > 0 && SortedRange(s, 0, |s|) && x in multiset(s)
    ensures s[0] <= x
  {
    assert x in s;
  }

  lemma SortedSlice(s: seq<int>, lo: int, hi: int)
    requires 0 <= lo <= hi <= |s| && SortedRange(s, lo, hi)
    ensures SortedRange(s[lo..hi], 0, hi - lo)
  {
  }
}
