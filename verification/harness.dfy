/**
 The correctness part of `main`: every bounded selector is compared with
 kLargestSort by `testSameElements`, and the first exception ends the run.
 */
module Harness {
  import opened Ordering
  import opened Selection
  import opened Errors
  import opened KLargest
  import opened JavaInt

  /** Two collections hold the same elements exactly when their sorted copies are equal. */
  lemma SameElementsIffSameSort(a: seq<int>, b: seq<int>, sortedA: seq<int>, sortedB: seq<int>)
    requires AscendingPermutationOf(sortedA, a)
    requires AscendingPermutationOf(sortedB, b)
    ensures multiset(a) == multiset(b) <==> sortedA == sortedB
  {
    if multiset(a) == multiset(b) {
      SortedPermutationsEqual(sortedA, sortedB);
    }
  }

  /** `i` is the first position where the sorted copies `ex` and `ac` differ, holding `e` and `a`. */
  predicate IsFirstDifference(ex: seq<int>, ac: seq<int>, i: nat, e: int, a: int) {
    && i < |ex| == |ac|
    && ex[..i] == ac[..i]
    && ex[i] == e && ac[i] == a && e != a
  }

  /**
   testSameElements: rejects a size difference first, then sorts copies of
   both collections and reports the first position where they differ.
   */
  method TestSameElements(expected: seq<int>, actual: seq<int>) returns (r: Outcome)
    ensures r.Pass? <==> multiset(expected) == multiset(actual)
    ensures |expected| != |actual| ==> r == Fail(IllegalState(SizeMismatch(|expected|, |actual|)))
    ensures r.Fail? && |expected| == |actual| ==>
      && r.error.IllegalState?
      && r.error.mismatch.ElementMismatch?
      && forall ex, ac | AscendingPermutationOf(ex, expected) && AscendingPermutationOf(ac, actual) ::
           IsFirstDifference(ex, ac, r.error.mismatch.index, r.error.mismatch.expected, r.error.mismatch.actual)
  {
    if |expected| != |actual| {
      return Fail(IllegalState(SizeMismatch(|expected|, |actual|)));
    }
    var ex := SortAscending(expected);
    var ac := SortAscending(actual);
    SameElementsIffSameSort(expected, actual, ex, ac);
    var i := 0;
    while i < |ex|
      invariant 0 <= i <= |ex| == |ac|
      invariant ex[..i] == ac[..i]
    {
      if ex[i] != ac[i] {
        forall sortedExpected, sortedActual |
          AscendingPermutationOf(sortedExpected, expected) && AscendingPermutationOf(sortedActual, actual)
          ensures IsFirstDifference(sortedExpected, sortedActual, i, ex[i], ac[i])
        {
          SortedPermutationsEqual(sortedExpected, ex);
          SortedPermutationsEqual(sortedActual, ac);
        }
        return Fail(IllegalState(ElementMismatch(i, ex[i], ac[i])));
      }
      PrefixExtend(ex, i);
      PrefixExtend(ac, i);
      i := i + 1;
    }
    WholePrefix(ex, i);
    WholePrefix(ac, i);
    return Pass;
  }

  /**
   The four comparisons of `main` on an input list `s` and a count `k`. Each
   line evaluates kLargestSort before the selector under test, so its
   exceptions come first; kLargestSort is a function of its arguments, so it
   is evaluated once here.
   */
  method CheckSelectors(s: seq<int>, k: Int32) returns (r: Outcome)
    requires |s| <= MaxInt
    ensures 1 <= k as int <= |s| ==> r == Pass
    ensures k == 0 ==> r == Fail(IllegalArgument)
    ensures k < 0 && |s| - k as int <= MaxInt ==> r == Fail(IllegalArgument)
    ensures k < 0 && |s| - k as int > MaxInt ==> r == Fail(IndexOutOfBounds)
    ensures k as int > |s| ==> r == Fail(IndexOutOfBounds)
  {
    var expected := KLargestSort(s, k);
    if expected.Failure? {
      return Fail(expected.error);
    }
    var heap := KLargestHeap(s, k as int);
    if heap.Failure? {
      return Fail(heap.error);
    }
    TopKUnique(multiset(expected.value), multiset(heap.value), s, k as int);
    r := TestSameElements(expected.value, heap.value);
    if r.Fail? {
      return;
    }
    var heapIterator := KLargestHeapIterator(s, k as int);
    TopKUnique(multiset(expected.value), multiset(heapIterator.value), s, k as int);
    r := TestSameElements(expected.value, heapIterator.value);
    if r.Fail? {
      return;
    }
    var unsorted := KLargestListUnsorted(s, k as int);
    TopKUnique(multiset(expected.value), multiset(unsorted.value), s, k as int);
    r := TestSameElements(expected.value, unsorted.value);
    if r.Fail? {
      return;
    }
    var sorted := KLargestListSorted(s, k as int);
    TopKUnique(multiset(expected.value), multiset(sorted.value), s, k as int);
    r := TestSameElements(expected.value, sorted.value);
  }

  /**
   kLargestHeapIterator only hoists kLargestHeap's size check out of the
   loop: on every input and count the two fail together or return the same
   elements.
   */
  method HeapVariantsAgree(s: seq<int>, k: int) returns (heap: Result<seq<int>>, heapIterator: Result<seq<int>>)
    ensures heap.Failure? <==> heapIterator.Failure?
    ensures heap.Failure? ==> heap.error == heapIterator.error == IllegalArgument
    ensures heap.Success? ==> multiset(heap.value) == multiset(heapIterator.value)
  {
    heap := KLargestHeap(s, k);
    heapIterator := KLargestHeapIterator(s, k);
    if heap.Success? {
      TopKUnique(multiset(heap.value), multiset(heapIterator.value), s, k);
    }
  }

  /**
   The list selectors disagree with kLargestSort for a count of 0: on the
   one-element list [5] kLargestSort returns no element, kLargestListUnsorted
   and kLargestListSorted return [5], and testSameElements reports the size
   difference.
   */
  method ZeroCountCounterexample() returns (unsorted: Outcome, sorted: Outcome)
    ensures unsorted == Fail(IllegalState(SizeMismatch(0, 1)))
    ensures sorted == Fail(IllegalState(SizeMismatch(0, 1)))
  {
    var expected := KLargestSort([5], 0);
    var fromUnsorted := KLargestListUnsorted([5], 0);
    var fromSorted := KLargestListSorted([5], 0);
    unsorted := TestSameElements(expected.value, fromUnsorted.value);
    sorted := TestSameElements(expected.value, fromSorted.value);
  }

  /**
   The comparison of `main` for the guarded list selectors: they agree with
   kLargestSort for every count it accepts, 0 included.
   */
  method CheckGuardedListSelectors(s: seq<int>, k: Int32) returns (r: Outcome)
    requires |s| <= MaxInt
    ensures 0 <= k as int <= |s| ==> r == Pass
    ensures k < 0 && |s| - k as int <= MaxInt ==> r == Fail(IllegalArgument)
    ensures k < 0 && |s| - k as int > MaxInt ==> r == Fail(IndexOutOfBounds)
    ensures k as int > |s| ==> r == Fail(IndexOutOfBounds)
  {
    var expected := KLargestSort(s, k);
    if expected.Failure? {
      return Fail(expected.error);
    }
    var unsorted := KLargestListUnsortedGuarded(s, k as int);
    TopKUnique(multiset(expected.value), multiset(unsorted.value), s, k as int);
    r := TestSameElements(expected.value, unsorted.value);
    if r.Fail? {
      return;
    }
    var sorted := KLargestListSortedGuarded(s, k as int);
    r := TestSameElements(expected.value, sorted.value);
  }
}
