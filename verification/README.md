# k largest elements: a Dafny model

`klargesttest.Main` has five ways to select the `k` largest elements of a
collection. It also has a correctness harness that checks each bounded
selector against the sort-based one:

- **kLargestSort** sorts a copy and returns its last `k` elements.
- **kLargestHeap** keeps a min-priority-queue of at most `k` elements. Once
  the queue is full, a new element evicts the head only when it is strictly
  greater than the head.
- **kLargestHeapIterator** makes the same selection, but fills the queue in
  a first loop and only compares heads in a second loop.
- **kLargestListUnsorted** keeps an unordered buffer plus the index of its
  first least element. That index is rescanned after every replacement.
- **kLargestListSorted** keeps an ascending buffer. The fill step shifts a
  new element down into place; the replacement step overwrites the head
  and bubbles the new element up.
- **testSameElements** compares two collections by size, then element by
  element after sorting both. `main` applies it to each bounded selector
  against kLargestSort.

The model works on integers and describes every selection by its multiset
of elements. `Selection.TopK(m, s, k)` says that `m` holds `min(k, |s|)`
elements of `s`, and that no element left out is larger than an element
kept. `Selection.TopKUnique` shows that only one such multiset exists. That
is why, for every `1 <= k <= n`, all five selectors agree with kLargestSort
(`Harness.CheckSelectors`).

Each Java exception becomes an `Errors.Error` value, returned in a
`Result` or an `Outcome`:

- `IllegalArgument`: raised by `subList` when the start is past the end, by
  `new PriorityQueue<>(k)` when `k < 1`, and by `new ArrayList<>(k)` when
  `k < 0`.
- `IndexOutOfBounds`: raised by `subList` when the start is negative.
- `IllegalState`: raised by testSameElements. It carries the size or element
  mismatch it reports.

kLargestSort's Javadoc says it "gives the k largest elements"
(Main.java:17), and each of the other four says it "keeps the k largest
encountered elements" (Main.java:27, 43, 62, 95). Outside `1 <= k <= n`
the five selectors do not agree with each other, and the model follows the
code in each case:

- For `k = 0`, kLargestSort returns an empty result. The heap selectors
  throw `IllegalArgumentException`, because a queue cannot have capacity 0.
  The list selectors return the maximum, because they add the first element
  before looking at `k` (see Findings).
- For `k` larger than the input, kLargestSort throws
  `IndexOutOfBoundsException`. The other four selectors return every
  element, memory permitting (see "Left out").
- kLargestSort computes `n - k` in 32-bit arithmetic, so a very negative
  `k` wraps around and is reported as an index out of bounds rather than an
  illegal argument. `JavaInt.Int32` and `JavaInt.Sub` model that.

Module layout:

- `Ordering`: ascending order, and `Collections.sort` modelled as the
  unique ascending permutation.
- `Selection`: `TopK`, the reference answer, and the step lemmas every loop
  uses.
- `PriorityQueue`: the queue, described by its contents.
- `Errors` and `JavaInt`: exceptions and Java's `int`.
- `KLargest`: the five selectors.
- `Harness`: testSameElements and the checks in `main`.

## Model

| member | source | states |
|---|---|---|
| Ordering.Insert | src/klargesttest/Main.java:21 | inserting into an ascending sequence keeps it ascending and adds exactly one copy of the element |
| Ordering.SortAscending | src/klargesttest/Main.java:21 | the model of `Collections.sort`: the result is ascending and a permutation of the input |
| Ordering.SortedPermutationsEqual | src/klargesttest/Main.java:155-158 | two ascending sequences with the same elements are equal: whatever ascending permutation the sort returns, it is `SortAscending` of the input |
| Selection.TopSlice | src/klargesttest/Main.java:20-23 | the last `k` elements of the sorted input: `k` elements, ascending, a top-k choice of the input |
| Selection.SuffixOfSortedIsTopK | src/klargesttest/Main.java:20-23 | the last `k` elements of any ascending permutation of the input are a top-k choice |
| Selection.TopKUnique | src/klargesttest/Main.java:263-266 | two top-k choices of the same input have the same elements, which is why every selector can be compared with kLargestSort |
| Selection.TopKIsReference | src/klargesttest/Main.java:19-24 | a multiset is a top-k choice if and only if it holds the last `min(k, n)` elements of every ascending permutation of the input, which is what kLargestSort returns |
| Selection.SortedSuffixIsTopK | src/klargesttest/Main.java:20-23 | the last `min(k, n)` elements of any ascending permutation of the input are a top-k choice |
| Selection.ShortPrefixIsTopK | src/klargesttest/Main.java:48-50 | while no more than `k` elements have been read, holding all of them is the top-k choice |
| Selection.FillStep | src/klargesttest/Main.java:32-33 | adding a new element to a selection that has room keeps it a top-k choice of the longer prefix |
| Selection.ReplaceStep | src/klargesttest/Main.java:34-36 | in a full selection, swapping a least element for a new one that is not smaller keeps it a top-k choice |
| Selection.DiscardStep | src/klargesttest/Main.java:34 | in a full selection, dropping a new element no larger than every kept one keeps it a top-k choice |
| PriorityQueue.Empty | src/klargesttest/Main.java:30 | a new queue holds nothing |
| PriorityQueue.Size | src/klargesttest/Main.java:32 | `size()` is the number of elements held |
| PriorityQueue.MinOf | src/klargesttest/Main.java:34 | the value found is a least element of the queue's contents |
| PriorityQueue.RemoveFirst | src/klargesttest/Main.java:35 | removing one occurrence takes exactly one copy of the value out of the contents |
| PriorityQueue.Peek | src/klargesttest/Main.java:34 | `peek()` of a non-empty queue is a least element it holds |
| PriorityQueue.Poll | src/klargesttest/Main.java:35 | `poll()` removes one copy of the head and nothing else |
| PriorityQueue.Offer | src/klargesttest/Main.java:33 | `offer(v)` adds one copy of `v` and nothing else |
| JavaInt.Sub | src/klargesttest/Main.java:22-23 | Java's `int` subtraction: the exact difference when it fits, otherwise wrapped by 2^32 |
| KLargest.KLargestSort | src/klargesttest/Main.java:19-24 | the error for each range of `k`, the 32-bit wrap included; otherwise exactly `k` elements, ascending, forming the top-k choice |
| KLargest.KLargestHeap | src/klargesttest/Main.java:29-40 | fails exactly when `k < 1`; otherwise returns at most `k` elements forming the top-k choice |
| KLargest.HeapStep | src/klargesttest/Main.java:32-37 | a queue with fewer than `k` elements gains exactly `v`; a full one trades its head for `v` when the head is strictly smaller, and is left unchanged otherwise |
| KLargest.ReplaceIfGreater | src/klargesttest/Main.java:53-56 | the strict head test: when the head is smaller than `v`, one copy of the head leaves and `v` enters; otherwise the queue is unchanged; the size never changes |
| KLargest.HeapStepKeepsTopK | src/klargesttest/Main.java:32-37 | one iteration of the loop turns a top-k choice of the prefix read into one of the prefix plus the new element |
| KLargest.ReplaceKeepsTopK | src/klargesttest/Main.java:34-37 | the strict head comparison on a full queue keeps the queue a top-k choice |
| KLargest.KLargestHeapIterator | src/klargesttest/Main.java:45-59 | fails exactly when `k < 1`; otherwise returns at most `k` elements forming the top-k choice |
| KLargest.IteratorScan | src/klargesttest/Main.java:51-57 | the second loop turns a top-k choice of the first `start` elements into one of the whole input |
| KLargest.IteratorStep | src/klargesttest/Main.java:52-56 | one head comparison on a queue holding `k` elements extends the top-k choice by one element |
| KLargest.ListCapacity | src/klargesttest/Main.java:68-70 | the list selectors keep at least one element from a non-empty input, because the first is added before `k` is consulted; for `k >= 1` they keep `k` |
| KLargest.FindMinIndex | src/klargesttest/Main.java:83-88 | the rescan finds the first position of a least element of the buffer |
| KLargest.KLargestListUnsorted | src/klargesttest/Main.java:64-92 | fails exactly when `k < 0`; otherwise a top-k choice for the capacity `max(k, 1)`, so a single element when `k = 0` |
| KLargest.UnsortedScan | src/klargesttest/Main.java:78-90 | the second loop turns a top-k choice of the first `start` elements into one of the whole input |
| KLargest.OfferToSlot | src/klargesttest/Main.java:80-89 | a strictly greater element overwrites the least slot, and afterwards the index points at a first least element again |
| KLargest.UnsortedScanStep | src/klargesttest/Main.java:79-89 | overwriting or discarding at the least slot extends the top-k choice by one element |
| KLargest.SlotReplace | src/klargesttest/Main.java:80-81 | overwriting the least slot with a larger value keeps the buffer a top-k choice |
| KLargest.SlotDiscard | src/klargesttest/Main.java:80 | skipping a value no larger than the least slot keeps the buffer a top-k choice |
| KLargest.InsertionShift | src/klargesttest/Main.java:104-114 | the fill step keeps the buffer ascending and adds exactly the new element |
| KLargest.ShiftDown | src/klargesttest/Main.java:107-114 | the new element stops right after the last predecessor smaller than it: every element from its position on is no smaller than it, and the other elements stay in order around it |
| KLargest.PlaceInSorted | src/klargesttest/Main.java:107-114 | placing a value between a no-larger left neighbour and a no-smaller right neighbour keeps the sequence ascending |
| KLargest.BubbleUp | src/klargesttest/Main.java:121-130 | the replacement step keeps the buffer ascending and trades exactly its head for the new element |
| KLargest.ShiftUp | src/klargesttest/Main.java:123-130 | the new element stops right before the first successor greater than it: every element before its position is no greater than it, and the other elements stay in order around it |
| KLargest.KLargestListSorted | src/klargesttest/Main.java:97-133 | fails exactly when `k < 0`; otherwise returns the ascending top-k choice for capacity `max(k, 1)`, which equals the sort-based answer |
| KLargest.SortedScan | src/klargesttest/Main.java:116-131 | the second loop keeps the buffer ascending and turns a top-k choice of the first `start` elements into one of the whole input |
| KLargest.SortedScanStep | src/klargesttest/Main.java:117-130 | skipping a value below the head, or trading the head for it, extends the top-k choice by one element |
| KLargest.SortedTopKIsReference | src/klargesttest/Main.java:97-133 | an ascending top-k choice is exactly the sort-based answer, order included |
| KLargest.KLargestListUnsortedGuarded | src/klargesttest/Main.java:64-77 | with `k = 0` handled first, the unsorted list selector returns exactly `min(k, n)` elements forming the top-k choice |
| KLargest.KLargestListSortedGuarded | src/klargesttest/Main.java:97-105 | with `k = 0` handled first, the sorted list selector returns exactly the sort-based answer |
| Harness.SameElementsIffSameSort | src/klargesttest/Main.java:155-165 | two collections have the same elements if and only if their sorted copies are equal |
| Harness.TestSameElements | src/klargesttest/Main.java:151-166 | passes if and only if the collections hold the same elements; otherwise reports the size mismatch, or the first position where the sorted copies differ and the two values there |
| Harness.CheckSelectors | src/klargesttest/Main.java:263-266 | the four comparisons pass for every `1 <= k <= n`; for other `k`, the first exception thrown is the outcome |
| Harness.HeapVariantsAgree | src/klargesttest/Main.java:29-59 | kLargestHeap and kLargestHeapIterator fail together, with `IllegalArgument`, or return the same elements, on every input and count |
| Harness.ZeroCountCounterexample | src/klargesttest/Main.java:65-70 | with `k = 0` on `[5]`, both list selectors return one element where kLargestSort returns none |
| Harness.CheckGuardedListSelectors | src/klargesttest/Main.java:263-266 | the guarded list selectors agree with kLargestSort for every `0 <= k <= n` |

## Left out

- Performance testers and the timing part of `main` (Main.java:186-254 and
  267-289): these only time the selectors and print the results.
- `randomList` (Main.java:168-176): the seeded random input becomes the
  parameter `s` of `Harness.CheckSelectors`. `main`'s own call, with 1000
  elements and `k = 10`, falls under that method's first postcondition.
- `elapsedSeconds`, `format`, `illegalState` and `println`
  (Main.java:137-149, 178-182): floating-point timing and message
  formatting. A failed check is modelled by the `Mismatch` it reports,
  not by its message text.
- Generic element types: the model uses `int` with its usual order, which is
  how `main` uses the selectors (`Integer`). `compareTo` and `equals` are
  integer comparison and equality.
- Null collections and null elements: the `NullPointerException` they cause
  is not modelled.
- Running out of memory: `new PriorityQueue<>(k)` (Main.java:30, 46) and
  `new ArrayList<>(k)` (Main.java:65, 98) allocate room for `k` elements
  before reading any input. For a huge `k`, such as `Integer.MAX_VALUE`,
  Java throws `OutOfMemoryError` even on an empty list. The model has no
  memory bound, so there it returns the selection the loops compute.
- Collections with more than 2^31 - 1 elements: Java sizes are `int`, and
  `KLargest.KLargestSort` requires `|s| <= MaxInt`.
- KLargest.KLargestHeap: the queue is kept as its elements in arrival
  order. The binary-heap array of `java.util.PriorityQueue`, and so the
  iteration order of the returned queue, is not modelled. The contract is
  stated on the multiset of elements returned, not on their order.
- KLargest.KLargestHeapIterator: the same as for KLargestHeap; the contract
  is stated on the multiset of elements returned, not on their order.
- KLargest.KLargestListUnsorted: the buffer's order is the slot order the
  code produces. Its contract states the multiset and not the order,
  because the source promises no order.
- Harness.CheckSelectors: kLargestSort is evaluated once rather than once per
  line of `main`. It is a function of its arguments, so every line would
  get the same value.
- `java.util.Collections.sort` and `java.util.PriorityQueue` are library
  code. Each is modelled by what it promises: an ascending permutation, and
  a queue whose head is a least element.

## Findings

| source | as written | input that shows it | evidently intended | confidence | as-written member | corrected member |
|---|---|---|---|---|---|---|
| src/klargesttest/Main.java:68-70 | kLargestListUnsorted adds the first element before consulting `k`, so `k = 0` keeps one element (the maximum) | `list = [5]`, `k = 0`: kLargestSort returns `[]`, kLargestListUnsorted returns `[5]`, and testSameElements reports "expected size <0>, was <1>" | `k = 0` selects nothing, as kLargestSort does | high; follows from the proved contracts, not executed | Harness.ZeroCountCounterexample | KLargest.KLargestListUnsortedGuarded |
| src/klargesttest/Main.java:100-102 | kLargestListSorted adds the first element before consulting `k`, so `k = 0` keeps one element (the maximum) | `list = [5]`, `k = 0`: kLargestSort returns `[]`, kLargestListSorted returns `[5]`, and testSameElements reports "expected size <0>, was <1>" | `k = 0` selects nothing, as kLargestSort does | high; follows from the proved contracts, not executed | Harness.ZeroCountCounterexample | KLargest.KLargestListSortedGuarded |

