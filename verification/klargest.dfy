/**
 The five "k largest elements" selectors of `Main`.

 Every selector reads its input once, front to back; an iterator is modelled
 by the index `pos` of the next element to read. Each one returns either the
 selected elements or the exception the library raises. The list selectors
 keep the slot order the code produces; the order in which a
 `java.util.PriorityQueue` iterates its elements is not modelled, so the heap
 selectors' order is not part of their contracts.
 */
module KLargest {
  import opened Ordering
  import opened Selection
  import opened Errors
  import opened JavaInt
  import PQ = PriorityQueue

  /**
   kLargestSort: sorts a copy ascending and returns its last `k` elements.
   The start index `n - k` is computed in 32-bit arithmetic; `subList`
   rejects a start below 0 before a start past the end, so a `k` negative
   enough to wrap `n - k` around is reported as an index out of bounds.
   */
  function KLargestSort(s: seq<int>, k: Int32): (r: Result<seq<int>>)
    requires |s| <= MaxInt
    ensures k < 0 && |s| - k as int <= MaxInt ==> r == Failure(IllegalArgument)
    ensures k < 0 && |s| - k as int > MaxInt ==> r == Failure(IndexOutOfBounds)
    ensures k as int > |s| ==> r == Failure(IndexOutOfBounds)
    ensures 0 <= k as int <= |s| ==> r.Success?
    ensures r.Success? ==> |r.value| == k as int && Sorted(r.value) && TopK(multiset(r.value), s, k as int)
  {
    var sorted := SortAscending(s);
    var n := |sorted| as Int32;
    var from := Sub(n, k);
    if from < 0 then Failure(IndexOutOfBounds)
    else if from > n then Failure(IllegalArgument)
    else Success(TopSlice(s, k as int))
  }

  /**
   kLargestHeap: keeps at most `k` elements in a min-queue; once it is full,
   a new element evicts the head only when strictly greater than it.
   `new PriorityQueue<>(k)` rejects a capacity below 1.
   */
  method KLargestHeap(s: seq<int>, k: int) returns (r: Result<seq<int>>)
    ensures r.Failure? <==> k < 1
    ensures r.Failure? ==> r.error == IllegalArgument
    ensures r.Success? ==> |r.value| <= k && TopK(multiset(r.value), s, k)
  {
    if k < 1 {
      return Failure(IllegalArgument);
    }
    var q := PQ.Empty();
    var pos := 0;
    while pos < |s|
      invariant 0 <= pos <= |s|
      invariant TopK(PQ.Elements(q), s[..pos], k)
    {
      var v := s[pos];
      PrefixExtend(s, pos);
      HeapStepKeepsTopK(q, s[..pos], k, v);
      q := HeapStep(q, v, k);
      pos := pos + 1;
    }
    WholePrefix(s, pos);
    return Success(q.items);
  }

  /**
   One iteration of kLargestHeap's loop: a queue with room takes `v`; a full
   one hands it to `ReplaceIfGreater`.
   */
  function HeapStep(q: PQ.Queue, v: int, k: nat): (r: PQ.Queue)
    requires k >= 1
    ensures PQ.Size(q) < k ==> PQ.Elements(r) == PQ.Elements(q) + multiset{v}
    ensures PQ.Size(q) >= k && PQ.Peek(q) < v ==>
              PQ.Elements(r) == PQ.Elements(q) - multiset{PQ.Peek(q)} + multiset{v}
    ensures PQ.Size(q) >= k && v <= PQ.Peek(q) ==> r == q
  {
    if PQ.Size(q) < k then PQ.Offer(q, v) else ReplaceIfGreater(q, v)
  }

  /** The head comparison: the head is evicted for `v` only when strictly smaller. */
  function ReplaceIfGreater(q: PQ.Queue, v: int): (r: PQ.Queue)
    requires PQ.Size(q) > 0
    ensures PQ.Peek(q) < v ==> PQ.Elements(r) == PQ.Elements(q) - multiset{PQ.Peek(q)} + multiset{v}
    ensures v <= PQ.Peek(q) ==> r == q
    ensures PQ.Size(r) == PQ.Size(q)
  {
    if PQ.Peek(q) < v then PQ.Offer(PQ.Poll(q), v) else q
  }

  /** On a full queue that is a top-k choice of `p`, the head comparison yields a top-k choice of `p + [v]`. */
  lemma ReplaceKeepsTopK(q: PQ.Queue, p: seq<int>, k: nat, v: int)
    requires k >= 1
    requires PQ.Size(q) >= k
    requires TopK(PQ.Elements(q), p, k)
    ensures TopK(PQ.Elements(ReplaceIfGreater(q, v)), p + [v], k)
  {
    if PQ.Peek(q) < v {
      ReplaceStep(PQ.Elements(q), p, k, v, PQ.Peek(q));
    } else {
      DiscardStep(PQ.Elements(q), p, k, v);
    }
  }

  /** One loop iteration turns a top-k choice of `p` into a top-k choice of `p + [v]`. */
  lemma HeapStepKeepsTopK(q: PQ.Queue, p: seq<int>, k: nat, v: int)
    requires k >= 1
    requires TopK(PQ.Elements(q), p, k)
    ensures TopK(PQ.Elements(HeapStep(q, v, k)), p + [v], k)
  {
    if PQ.Size(q) < k {
      FillStep(PQ.Elements(q), p, k, v);
    } else {
      ReplaceKeepsTopK(q, p, k, v);
    }
  }

  /**
   kLargestHeapIterator: the same selection with the size check hoisted out
   of the loop. The queue is first filled with up to `k` elements, stopping
   early at the end of the input; only the head comparison runs afterwards.
   */
  method KLargestHeapIterator(s: seq<int>, k: int) returns (r: Result<seq<int>>)
    ensures r.Failure? <==> k < 1
    ensures r.Failure? ==> r.error == IllegalArgument
    ensures r.Success? ==> |r.value| <= k && TopK(multiset(r.value), s, k)
  {
    if k < 1 {
      return Failure(IllegalArgument);
    }
    var q := PQ.Empty();
    var pos := 0;
    var i := 0;
    while i < k && pos < |s|
      invariant 0 <= pos <= |s|
      invariant i == pos <= k
      invariant PQ.Elements(q) == multiset(s[..pos])
    {
      PrefixExtend(s, pos);
      q := PQ.Offer(q, s[pos]);
      pos := pos + 1;
      i := i + 1;
    }
    ShortPrefixIsTopK(s[..pos], k);
    q := IteratorScan(s, pos, q, k);
    return Success(q.items);
  }

  /**
   The second loop of kLargestHeapIterator: reads the rest of the input from
   `start` on, applying only the head comparison.
   */
  method IteratorScan(s: seq<int>, start: nat, initial: PQ.Queue, k: nat) returns (q: PQ.Queue)
    requires 1 <= k
    requires start <= |s|
    requires start < |s| ==> start >= k
    requires TopK(PQ.Elements(initial), s[..start], k)
    ensures TopK(PQ.Elements(q), s, k)
  {
    q := initial;
    var pos := start;
    while pos < |s|
      invariant start <= pos <= |s|
      invariant pos < |s| ==> pos >= k
      invariant TopK(PQ.Elements(q), s[..pos], k)
    {
      q := IteratorStep(q, s, pos, k);
      pos := pos + 1;
    }
    WholePrefix(s, pos);
  }

  /** One iteration of kLargestHeapIterator's second loop, on a queue already holding `k` elements. */
  method IteratorStep(q: PQ.Queue, s: seq<int>, pos: nat, k: nat) returns (next: PQ.Queue)
    requires k >= 1
    requires k <= pos < |s|
    requires TopK(PQ.Elements(q), s[..pos], k)
    ensures TopK(PQ.Elements(next), s[..pos + 1], k)
  {
    PrefixExtend(s, pos);
    ReplaceKeepsTopK(q, s[..pos], k, s[pos]);
    next := ReplaceIfGreater(q, s[pos]);
  }

  /**
   The number of elements the list selectors end up keeping from a long
   enough input: the first element is added before the capacity is
   consulted, so a capacity of 0 still keeps one.
   */
  function ListCapacity(k: nat): (c: nat)
    ensures c >= 1 && c >= k
    ensures k >= 1 ==> c == k
  {
    if k == 0 then 1 else k
  }

  /**
   `i` is the first position of a least element of `buf`: the strict `>`
   comparison only moves to a later index for a strictly smaller value.
   */
  predicate IsFirstMinimum(buf: seq<int>, i: int) {
    && 0 <= i < |buf|
    && (forall j :: 0 <= j < |buf| ==> buf[i] <= buf[j])
    && (forall j :: 0 <= j < i ==> buf[i] < buf[j])
  }

  /**
   The rescan of kLargestListUnsorted: scans indices 1 to k - 1 for the first
   least element. The bound is the capacity `k`, which is the buffer's size
   whenever a rescan happens (or 0, with a one-element buffer).
   */
  method FindMinIndex(buf: seq<int>, k: nat) returns (minIndex: nat)
    requires |buf| == ListCapacity(k)
    ensures IsFirstMinimum(buf, minIndex)
  {
    minIndex := 0;
    var i := 1;
    while i < k
      invariant 1 <= i <= |buf|
      invariant IsFirstMinimum(buf[..i], minIndex)
    {
      if buf[minIndex] > buf[i] {
        minIndex := i;
      }
      i := i + 1;
    }
    WholePrefix(buf, i);
  }

  /**
   kLargestListUnsorted: keeps the candidates in an unordered buffer together
   with the index of its first least element. A new element strictly greater
   than that least element overwrites it, and the index is recomputed.
   `new ArrayList<>(k)` rejects a negative capacity.
   */
  method KLargestListUnsorted(s: seq<int>, k: int) returns (r: Result<seq<int>>)
    ensures r.Failure? <==> k < 0
    ensures r.Failure? ==> r.error == IllegalArgument
    ensures r.Success? ==> TopK(multiset(r.value), s, ListCapacity(k))
    ensures r.Success? && k == 0 && |s| > 0 ==> |r.value| == 1
  {
    if k < 0 {
      return Failure(IllegalArgument);
    }
    var cap := ListCapacity(k);
    var buf: seq<int> := [];
    var minIndex := 0;
    var pos := 0;
    if pos < |s| {
      buf := buf + [s[pos]];
      pos := pos + 1;
    }
    var i := 1;
    while i < k && pos < |s|
      invariant 0 <= pos <= |s|
      invariant pos == i || (pos == 0 && |s| == 0)
      invariant pos <= cap
      invariant buf == s[..pos]
      invariant pos > 0 ==> IsFirstMinimum(buf, minIndex)
    {
      var v := s[pos];
      pos := pos + 1;
      if buf[minIndex] > v {
        minIndex := i;
      }
      buf := buf + [v];
      i := i + 1;
    }
    ShortPrefixIsTopK(s[..pos], cap);
    buf := UnsortedScan(s, pos, buf, minIndex, k);
    return Success(buf);
  }

  /**
   The second loop of kLargestListUnsorted: reads the rest of the input from
   `start` on into the full buffer, whose first least element is at
   `minIndex`.
   */
  method UnsortedScan(s: seq<int>, start: nat, initial: seq<int>, minIndex: nat, k: nat) returns (buf: seq<int>)
    requires start <= |s|
    requires start < |s| ==> start >= ListCapacity(k)
    requires TopK(multiset(initial), s[..start], ListCapacity(k))
    requires start > 0 ==> IsFirstMinimum(initial, minIndex)
    ensures TopK(multiset(buf), s, ListCapacity(k))
  {
    var cap := ListCapacity(k);
    buf := initial;
    var least := minIndex;
    var pos := start;
    while pos < |s|
      invariant start <= pos <= |s|
      invariant pos < |s| ==> pos >= cap
      invariant TopK(multiset(buf), s[..pos], cap)
      invariant pos > 0 ==> IsFirstMinimum(buf, least)
    {
      FullBuffer(buf, s[..pos], cap);
      var next, nextLeast := OfferToSlot(buf, least, s[pos], k);
      UnsortedScanStep(buf, least, next, s, pos, cap);
      buf, least := next, nextLeast;
      pos := pos + 1;
    }
    WholePrefix(s, pos);
  }

  /** A top-k choice of at least `k` elements holds exactly `k`. */
  lemma FullBuffer(buf: seq<int>, p: seq<int>, k: nat)
    requires TopK(multiset(buf), p, k)
    requires |p| >= k
    ensures |buf| == k
  {
  }

  /**
   The body of kLargestListUnsorted's second loop: a `v` strictly greater
   than the least slot overwrites it and the least slot is searched again.
   */
  method OfferToSlot(buf: seq<int>, least: nat, v: int, k: nat) returns (next: seq<int>, nextLeast: nat)
    requires |buf| == ListCapacity(k)
    requires IsFirstMinimum(buf, least)
    ensures buf[least] < v ==> next == buf[least := v]
    ensures buf[least] >= v ==> next == buf
    ensures IsFirstMinimum(next, nextLeast)
  {
    next, nextLeast := buf, least;
    if buf[least] < v {
      next := buf[least := v];
      nextLeast := FindMinIndex(next, k);
    }
  }

  /**
   One iteration of kLargestListUnsorted's second loop, on a full buffer
   whose first least element is at `i`: overwriting it with a strictly
   greater `s[pos]`, or discarding `s[pos]` otherwise, gives a buffer `next`
   that is a top-k choice of one more element of `s`.
   */
  lemma UnsortedScanStep(buf: seq<int>, i: nat, next: seq<int>, s: seq<int>, pos: nat, cap: nat)
    requires 1 <= cap <= pos < |s|
    requires TopK(multiset(buf), s[..pos], cap)
    requires IsFirstMinimum(buf, i)
    requires buf[i] < s[pos] ==> next == buf[i := s[pos]]
    requires buf[i] >= s[pos] ==> next == buf
    ensures TopK(multiset(next), s[..pos + 1], cap)
  {
    PrefixExtend(s, pos);
    assert |buf| == cap;
    if buf[i] < s[pos] {
      SlotReplace(buf, i, s[..pos], cap, s[pos]);
    } else {
      SlotDiscard(buf, i, s[..pos], cap, s[pos]);
    }
  }

  /** Overwriting the least slot with a larger `v` keeps the buffer a top-k choice. */
  lemma SlotReplace(buf: seq<int>, i: nat, p: seq<int>, cap: nat, v: int)
    requires TopK(multiset(buf), p, cap)
    requires |buf| == cap
    requires IsFirstMinimum(buf, i)
    requires buf[i] <= v
    ensures TopK(multiset(buf[i := v]), p + [v], cap)
  {
    ReplaceAt(buf, i, v);
    HeadOfMultiset(buf, i);
    ReplaceStep(multiset(buf), p, cap, v, buf[i]);
  }

  /** Discarding a `v` no larger than the least slot keeps the buffer a top-k choice. */
  lemma SlotDiscard(buf: seq<int>, i: nat, p: seq<int>, cap: nat, v: int)
    requires TopK(multiset(buf), p, cap)
    requires |buf| == cap
    requires IsFirstMinimum(buf, i)
    requires v <= buf[i]
    ensures TopK(multiset(buf), p + [v], cap)
  {
    HeadOfMultiset(buf, i);
    DiscardStep(multiset(buf), p, cap, v);
  }

  /** A least slot holds a least element of the buffer's multiset. */
  lemma HeadOfMultiset(buf: seq<int>, i: nat)
    requires IsFirstMinimum(buf, i)
    ensures IsMinimum(buf[i], multiset(buf))
  {
    forall y | y in multiset(buf)
      ensures buf[i] <= y
    {
      var j :| 0 <= j < |buf| && buf[j] == y;
    }
  }

  /** Overwriting one slot swaps one element of the multiset for another. */
  lemma ReplaceAt(buf: seq<int>, i: nat, v: int)
    requires i < |buf|
    ensures multiset(buf[i := v]) == multiset(buf) - multiset{buf[i]} + multiset{v}
  {
    assert buf == buf[..i] + [buf[i]] + buf[i + 1..];
    assert buf[i := v] == buf[..i] + [v] + buf[i + 1..];
  }

  /**
   The fill step of kLargestListSorted: appends `v` to the ascending buffer
   and slides it down past every predecessor that is not smaller than it.
   */
  method InsertionShift(buf: seq<int>, v: int) returns (r: seq<int>)
    requires Sorted(buf)
    ensures |r| == |buf| + 1
    ensures Sorted(r)
    ensures multiset(r) == multiset(buf) + multiset{v}
  {
    var i;
    r, i := ShiftDown(buf, v);
    PlaceInSorted(buf, i, v);
  }

  /**
   The loop of the fill step, on `buf + [v]`: `v` moves down one place for
   every predecessor that is not smaller than it and ends at position `i`.
   */
  method ShiftDown(buf: seq<int>, v: int) returns (r: seq<int>, i: nat)
    ensures i <= |buf|
    ensures r == buf[..i] + [v] + buf[i..]
    ensures i > 0 ==> buf[i - 1] < v
    ensures i < |buf| ==> v <= buf[i]
    ensures forall m :: i <= m < |buf| ==> v <= buf[m]
  {
    r := buf + [v];
    var j := |buf| - 1;
    assert r == buf[..j + 1] + [v] + buf[j + 1..];
    while j >= 0
      invariant -1 <= j < |buf|
      invariant r == buf[..j + 1] + [v] + buf[j + 1..]
      invariant j + 1 < |buf| ==> v <= buf[j + 1]
      invariant forall m :: j + 1 <= m < |buf| ==> v <= buf[m]
    {
      var t := r[j];
      if t < v {
        break;
      }
      SwapDown(buf, j, v);
      r := r[j + 1 := t];
      r := r[j := v];
      j := j - 1;
    }
    i := j + 1;
  }

  /** One shift of the fill step: `v` trades places with its predecessor `buf[j]`. */
  lemma SwapDown(buf: seq<int>, j: nat, v: int)
    requires j < |buf|
    ensures (buf[..j + 1] + [v] + buf[j + 1..])[j + 1 := buf[j]][j := v] == buf[..j] + [v] + buf[j..]
  {
    var r := (buf[..j + 1] + [v] + buf[j + 1..])[j + 1 := buf[j]][j := v];
    var e := buf[..j] + [v] + buf[j..];
    assert |r| == |e|;
    forall a | 0 <= a < |r|
      ensures r[a] == e[a]
    {
      if a < j {
        assert r[a] == buf[a];
      } else if a > j + 1 {
        assert r[a] == buf[a - 1];
      }
    }
  }

  /** One step of the replacement step: `v` trades places with its successor `buf[j]`. */
  lemma SwapUp(buf: seq<int>, j: nat, v: int)
    requires j < |buf|
    ensures (buf[..j] + [v] + buf[j..])[j + 1] == buf[j]
    ensures (buf[..j] + [v] + buf[j..])[j := buf[j]][j + 1 := v] == buf[..j + 1] + [v] + buf[j + 1..]
  {
    var r := (buf[..j] + [v] + buf[j..])[j := buf[j]][j + 1 := v];
    var e := buf[..j + 1] + [v] + buf[j + 1..];
    assert |r| == |e|;
    forall a | 0 <= a < |r|
      ensures r[a] == e[a]
    {
      if a < j {
        assert r[a] == buf[a];
      } else if a > j + 1 {
        assert r[a] == buf[a - 1];
      }
    }
  }

  /**
   Placing `v` at position `i` of an ascending sequence keeps it ascending
   when its new neighbours are no larger before it and no smaller after it.
   */
  lemma PlaceInSorted(buf: seq<int>, i: nat, v: int)
    requires Sorted(buf)
    requires i <= |buf|
    requires i == 0 || buf[i - 1] <= v
    requires i == |buf| || v <= buf[i]
    ensures Sorted(buf[..i] + [v] + buf[i..])
    ensures multiset(buf[..i] + [v] + buf[i..]) == multiset(buf) + multiset{v}
  {
    SortedPrefix(buf, i);
    SortedSuffix(buf, i);
    PlaceBetween(buf[..i], v, buf[i..]);
    InsertMultiset(buf, i, v);
  }

  /** Inserting `v` anywhere adds exactly one copy of it. */
  lemma InsertMultiset(buf: seq<int>, i: nat, v: int)
    requires i <= |buf|
    ensures multiset(buf[..i] + [v] + buf[i..]) == multiset(buf) + multiset{v}
  {
    assert buf == buf[..i] + buf[i..];
  }

  /** `v` fits between an ascending `x` that ends no higher and an ascending `y` that starts no lower. */
  lemma PlaceBetween(x: seq<int>, v: int, y: seq<int>)
    requires Sorted(x)
    requires Sorted(y)
    requires |x| == 0 || x[|x| - 1] <= v
    requires |y| == 0 || v <= y[0]
    ensures Sorted(x + [v] + y)
  {
    SortedConcat(x, [v]);
    SortedConcat(x + [v], y);
  }

  /**
   The replacement step of kLargestListSorted: overwrites the least element
   `buf[0]` with `v` and moves `v` up past every successor that is not
   greater than it, scanning indices 1 to k - 1.
   */
  method BubbleUp(buf: seq<int>, v: int, k: nat) returns (r: seq<int>)
    requires Sorted(buf)
    requires |buf| == ListCapacity(k)
    requires buf[0] <= v
    ensures |r| == |buf|
    ensures Sorted(r)
    ensures multiset(r) == multiset(buf) - multiset{buf[0]} + multiset{v}
  {
    var tail := buf[1..];
    var i;
    r, i := ShiftUp(tail, v, k);
    HeadAndTail(buf);
    PlaceInSorted(tail, i, v);
  }

  /**
   The loop of the replacement step, on `[v] + tail` (the buffer with its
   head overwritten): `v` moves up one place for every successor that is
   not greater than it and ends at position `i`.
   */
  method ShiftUp(tail: seq<int>, v: int, k: nat) returns (r: seq<int>, i: nat)
    requires |tail| + 1 == ListCapacity(k)
    ensures i <= |tail|
    ensures r == tail[..i] + [v] + tail[i..]
    ensures i > 0 ==> tail[i - 1] <= v
    ensures i < |tail| ==> v < tail[i]
    ensures NoneGreaterBefore(tail, i, v)
  {
    r := [v] + tail;
    var j := 1;
    assert r == tail[..j - 1] + [v] + tail[j - 1..];
    while j < k
      invariant 1 <= j <= |tail| + 1
      invariant r == tail[..j - 1] + [v] + tail[j - 1..]
      invariant j >= 2 ==> tail[j - 2] <= v
      invariant NoneGreaterBefore(tail, j - 1, v)
    {
      var t := r[j];
      if t > v {
        break;
      }
      SwapUp(tail, j - 1, v);
      r := r[j - 1 := t];
      r := r[j := v];
      j := j + 1;
    }
    i := j - 1;
  }

  /** No element of `s` before position `n` is greater than `v`. */
  predicate NoneGreaterBefore(s: seq<int>, n: int, v: int) {
    forall m :: 0 <= m < n && m < |s| ==> s[m] <= v
  }

  /**
   kLargestListSorted: keeps the candidates in a buffer sorted ascending. A
   new element smaller than `buf[0]` is discarded; any other replaces
   `buf[0]` and is bubbled into place. `new ArrayList<>(k)` rejects a
   negative capacity.
   */
  method KLargestListSorted(s: seq<int>, k: int) returns (r: Result<seq<int>>)
    ensures r.Failure? <==> k < 0
    ensures r.Failure? ==> r.error == IllegalArgument
    ensures r.Success? ==> Sorted(r.value) && TopK(multiset(r.value), s, ListCapacity(k))
    ensures r.Success? ==> r.value == TopSlice(s, Min(ListCapacity(k), |s|))
    ensures r.Success? && k == 0 && |s| > 0 ==> |r.value| == 1
  {
    if k < 0 {
      return Failure(IllegalArgument);
    }
    var cap := ListCapacity(k);
    var buf: seq<int> := [];
    var pos := 0;
    if pos < |s| {
      buf := buf + [s[pos]];
      pos := pos + 1;
    }
    var i := 1;
    while i < k && pos < |s|
      invariant 0 <= pos <= |s|
      invariant pos == i || (pos == 0 && |s| == 0)
      invariant pos <= cap
      invariant |buf| == pos
      invariant Sorted(buf)
      invariant multiset(buf) == multiset(s[..pos])
    {
      var v := s[pos];
      PrefixExtend(s, pos);
      pos := pos + 1;
      buf := InsertionShift(buf, v);
      i := i + 1;
    }
    ShortPrefixIsTopK(s[..pos], cap);
    buf := SortedScan(s, pos, buf, k);
    SortedTopKIsReference(buf, s, cap);
    return Success(buf);
  }

  /**
   The second loop of kLargestListSorted: reads the rest of the input from
   `start` on into the full ascending buffer.
   */
  method SortedScan(s: seq<int>, start: nat, initial: seq<int>, k: nat) returns (buf: seq<int>)
    requires start <= |s|
    requires start < |s| ==> start >= ListCapacity(k)
    requires Sorted(initial)
    requires TopK(multiset(initial), s[..start], ListCapacity(k))
    ensures Sorted(buf)
    ensures TopK(multiset(buf), s, ListCapacity(k))
  {
    var cap := ListCapacity(k);
    buf := initial;
    var pos := start;
    while pos < |s|
      invariant start <= pos <= |s|
      invariant pos < |s| ==> pos >= cap
      invariant Sorted(buf)
      invariant TopK(multiset(buf), s[..pos], cap)
    {
      var v := s[pos];
      SortedScanStep(buf, s, pos, cap);
      pos := pos + 1;
      if buf[0] > v {
        continue;
      }
      buf := BubbleUp(buf, v, k);
    }
    WholePrefix(s, pos);
  }

  /**
   One iteration of kLargestListSorted's second loop, on a full ascending
   buffer: discarding `s[pos]` when it is below the head, or trading the head
   for it otherwise, gives a top-k choice of one more element of `s`.
   */
  lemma SortedScanStep(buf: seq<int>, s: seq<int>, pos: nat, cap: nat)
    requires 1 <= cap <= pos < |s|
    requires Sorted(buf)
    requires TopK(multiset(buf), s[..pos], cap)
    ensures |buf| == cap
    ensures buf[0] > s[pos] ==> TopK(multiset(buf), s[..pos + 1], cap)
    ensures buf[0] <= s[pos] ==> TopK(multiset(buf) - multiset{buf[0]} + multiset{s[pos]}, s[..pos + 1], cap)
  {
    PrefixExtend(s, pos);
    assert |buf| == cap;
    if buf[0] > s[pos] {
      SlotDiscard(buf, 0, s[..pos], cap, s[pos]);
    } else {
      HeadIsMinimumOf(buf);
      ReplaceStep(multiset(buf), s[..pos], cap, s[pos], buf[0]);
    }
  }

  /** An ascending top-k choice is the reference answer itself, not just a permutation of it. */
  lemma SortedTopKIsReference(buf: seq<int>, s: seq<int>, k: nat)
    requires Sorted(buf)
    requires TopK(multiset(buf), s, k)
    ensures buf == TopSlice(s, Min(k, |s|))
  {
    var reference := TopSlice(s, Min(k, |s|));
    TopKUnique(multiset(buf), multiset(reference), s, k);
    SortedPermutationsEqual(buf, reference);
  }

  /** The first element of a non-empty ascending buffer is a least element. */
  lemma HeadIsMinimumOf(buf: seq<int>)
    requires Sorted(buf)
    requires |buf| > 0
    ensures IsMinimum(buf[0], multiset(buf))
  {
    forall y | y in multiset(buf)
      ensures buf[0] <= y
    {
      HeadIsMinimum(buf, y);
    }
  }

  /**
   kLargestListUnsorted with a guard for `k == 0`, returning the empty
   selection that kLargestSort returns there instead of the maximum.
   */
  method KLargestListUnsortedGuarded(s: seq<int>, k: int) returns (r: Result<seq<int>>)
    ensures r.Failure? <==> k < 0
    ensures r.Failure? ==> r.error == IllegalArgument
    ensures r.Success? ==> |r.value| == Min(k, |s|) && TopK(multiset(r.value), s, k)
  {
    if k == 0 {
      return Success([]);
    }
    r := KLargestListUnsorted(s, k);
  }

  /** kLargestListSorted with the same guard for `k == 0`. */
  method KLargestListSortedGuarded(s: seq<int>, k: int) returns (r: Result<seq<int>>)
    ensures r.Failure? <==> k < 0
    ensures r.Failure? ==> r.error == IllegalArgument
    ensures r.Success? ==> r.value == TopSlice(s, Min(k, |s|))
  {
    if k == 0 {
      return Success([]);
    }
    r := KLargestListSorted(s, k);
  }
}
