/**
 The min-priority-queue the heap selectors use, described by its contents.

 Only the behaviour the selectors observe is modelled: `Peek` yields a least
 element, `Poll` removes one copy of it, `Offer` adds an element. The binary
 heap layout behind them is library code and is not part of this model; here
 the elements are kept in arrival order and every contract is stated on
 `Elements`, the multiset the queue holds.
 */
module PriorityQueue {
  import opened Ordering

  datatype Queue = Queue(items: seq<int>)

  ghost function Elements(q: Queue): multiset<int> {
    multiset(q.items)
  }

  function Empty(): (q: Queue)
    ensures Elements(q) == multiset{}
  {
    Queue([])
  }

  function Size(q: Queue): (n: nat)
    ensures n == |Elements(q)|
  {
    |q.items|
  }

  /** A least element of a non-empty sequence. */
  function MinOf(s: seq<int>): (r: int)
    requires |s| > 0
    ensures IsMinimum(r, multiset(s))
  {
    if |s| == 1 then
      s[0]
    else
      assert s == [s[0]] + s[1..];
      var rest := MinOf(s[1..]);
      if s[0] <= rest then s[0] else rest
  }

  /** `s` with its first occurrence of `x` taken out. */
  function RemoveFirst(s: seq<int>, x: int): (r: seq<int>)
    requires x in s
    ensures multiset(r) == multiset(s) - multiset{x}
  {
    assert s == [s[0]] + s[1..];
    if s[0] == x then s[1..] else [s[0]] + RemoveFirst(s[1..], x)
  }

  /** The head of the queue: a least element it holds. */
  function Peek(q: Queue): (r: int)
    requires Size(q) > 0
    ensures IsMinimum(r, Elements(q))
  {
    MinOf(q.items)
  }

  /** Removes one copy of the head. */
  function Poll(q: Queue): (r: Queue)
    requires Size(q) > 0
    ensures Elements(r) == Elements(q) - multiset{Peek(q)}
    ensures Size(r) == Size(q) - 1
  {
    Queue(RemoveFirst(q.items, Peek(q)))
  }

  /** Adds one element. */
  function Offer(q: Queue, v: int): (r: Queue)
    ensures Elements(r) == Elements(q) + multiset{v}
  {
    Queue(q.items + [v])
  }
}
