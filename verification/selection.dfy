/**
 What it means to hold "the k largest elements" of a sequence, and the facts
 every bounded selector's loop relies on.

 A selection is described by its multiset of elements: the selectors return
 collections whose iteration order is not specified, and two selections agree
 exactly when their multisets do.
 */
module Selection {
  import opened Ordering

  function Min(a: int, b: int): int {
    if a <= b then a else b
  }

  /**
   `m` is a choice of the `k` largest elements of `s`: it has min(k, |s|)
   elements taken from `s`, and none of the elements left out is larger than
   any element taken.
   */
  ghost predicate TopK(m: multiset<int>, s: seq<int>, k: nat) {
    && |m| == Min(k, |s|)
    && m <= multiset(s)
    && forall x, y :: x in m && y in multiset(s) - m ==> y <= x
  }

  /** The reference answer: the last `k` elements of the ascending permutation of `s`. */
  function TopSlice(s: seq<int>, k: nat): (r: seq<int>)
    requires k <= |s|
    ensures |r| == k
    ensures Sorted(r)
    ensures TopK(multiset(r), s, k)
  {
    var sorted := SortAscending(s);
    SuffixOfSortedIsTopK(sorted, s, k);
    SortedSuffix(sorted, |s| - k);
    sorted[|s| - k..]
  }

  /** The last `k` elements of an ascending permutation of `s` are a top-k choice of `s`. */
  lemma SuffixOfSortedIsTopK(t: seq<int>, s: seq<int>, k: nat)
    requires Sorted(t)
    requires multiset(t) == multiset(s)
    requires |t| == |s|
    requires k <= |s|
    ensures TopK(multiset(t[|s| - k..]), s, k)
  {
    var i := |t| - k;
    assert t == t[..i] + t[i..];
    assert multiset(s) == multiset(t[..i]) + multiset(t[i..]);
    assert multiset(s) - multiset(t[i..]) == multiset(t[..i]);
    forall x, y | x in multiset(t[i..]) && y in multiset(t[..i])
      ensures y <= x
    {
      SortedSplit(t, i, x, y);
    }
  }

  /** In an ascending sequence, what lies before position `i` is no larger than what lies from `i` on. */
  lemma SortedSplit(t: seq<int>, i: nat, x: int, y: int)
    requires Sorted(t)
    requires i <= |t|
    requires x in multiset(t[i..])
    requires y in multiset(t[..i])
    ensures y <= x
  {
    var a :| 0 <= a < |t[i..]| && t[i..][a] == x;
    var b :| 0 <= b < |t[..i]| && t[..i][b] == y;
    assert t[b] <= t[i + a];
  }

  /** A sub-multiset as large as the whole is the whole. */
  lemma SubMultisetOfSameSize(a: multiset<int>, b: multiset<int>)
    requires a <= b
    requires |a| == |b|
    ensures a == b
  {
    assert b == a + (b - a);
    assert |b - a| == 0;
  }

  /**
   There is only one top-k multiset: ties can only be broken between equal
   values, which a multiset does not tell apart.
   */
  lemma TopKUnique(a: multiset<int>, b: multiset<int>, s: seq<int>, k: nat)
    requires TopK(a, s, k)
    requires TopK(b, s, k)
    ensures a == b
  {
    if a - b == multiset{} {
      EmptyDifferenceIsSubMultiset(a, b);
      SubMultisetOfSameSize(a, b);
    } else if b - a == multiset{} {
      EmptyDifferenceIsSubMultiset(b, a);
      SubMultisetOfSameSize(b, a);
    } else {
      NonEmptyHasElement(a - b);
      NonEmptyHasElement(b - a);
      var v :| v in a - b;
      var w :| w in b - a;
      // v was left out of b and w out of a, so each bounds the other.
      LeftOutIsNoLarger(a, s, k, v, w);
      LeftOutIsNoLarger(b, s, k, w, v);
      assert false;
    }
  }

  /** An element of `s` outside a top-k choice is no larger than any element in it. */
  lemma LeftOutIsNoLarger(m: multiset<int>, s: seq<int>, k: nat, x: int, y: int)
    requires TopK(m, s, k)
    requires x in m
    requires y in multiset(s) - m
    ensures y <= x
  {
  }

  lemma NonEmptyHasElement(m: multiset<int>)
    ensures m != multiset{} ==> exists x :: x in m
  {
    if forall x :: x !in m {
      assert m == multiset{};
    }
  }

  lemma EmptyDifferenceIsSubMultiset(a: multiset<int>, b: multiset<int>)
    requires a - b == multiset{}
    ensures a <= b
  {
    forall o
      ensures a[o] <= b[o]
    {
      assert (a - b)[o] == 0;
    }
  }

  /**
   A multiset is a top-k choice exactly when it holds the last min(k, |s|)
   elements of the ascending permutation of `s`, however that permutation
   was produced.
   */
  lemma TopKIsReference(m: multiset<int>, s: seq<int>, k: nat)
    ensures TopK(m, s, k) <==>
      forall t | AscendingPermutationOf(t, s) :: m == multiset(t[|t| - Min(k, |t|)..])
  {
    if TopK(m, s, k) {
      forall t | AscendingPermutationOf(t, s)
        ensures m == multiset(t[|t| - Min(k, |t|)..])
      {
        SortedSuffixIsTopK(t, s, k);
        TopKUnique(m, multiset(t[|t| - Min(k, |t|)..]), s, k);
      }
    } else {
      var sorted := SortAscending(s);
      assert AscendingPermutationOf(sorted, s);
      SortedSuffixIsTopK(sorted, s, k);
    }
  }

  /** The last min(k, |s|) elements of an ascending permutation of `s` are a top-k choice of `s`. */
  lemma SortedSuffixIsTopK(t: seq<int>, s: seq<int>, k: nat)
    requires AscendingPermutationOf(t, s)
    ensures TopK(multiset(t[|t| - Min(k, |t|)..]), s, k)
  {
    assert |t| == |multiset(t)| == |multiset(s)| == |s|;
    SuffixOfSortedIsTopK(t, s, Min(k, |s|));
  }

  /** Reading one more element extends the prefix read so far. */
  lemma PrefixExtend(s: seq<int>, i: nat)
    requires i < |s|
    ensures s[..i + 1] == s[..i] + [s[i]]
  {
  }

  /** The prefix read once the whole input has been read is the input. */
  lemma WholePrefix(s: seq<int>, n: nat)
    requires n == |s|
    ensures s[..n] == s
  {
  }

  /** A prefix no longer than `k` is its own top-k choice. */
  lemma ShortPrefixIsTopK(p: seq<int>, k: nat)
    requires |p| <= k
    ensures TopK(multiset(p), p, k)
  {
    assert multiset(p) - multiset(p) == multiset{};
  }

  /** Fill step: while fewer than `k` are held, a new element is simply added. */
  lemma FillStep(m: multiset<int>, p: seq<int>, k: nat, v: int)
    requires TopK(m, p, k)
    requires |m| < k
    ensures TopK(m + multiset{v}, p + [v], k)
  {
    SubMultisetOfSameSize(m, multiset(p));
    assert multiset(p + [v]) == multiset(p) + multiset{v};
    assert multiset(p + [v]) - (m + multiset{v}) == multiset{};
  }

  /**
   Replacement step: with `k` elements held, a new element that is at least
   their minimum `low` takes the place of one copy of `low`.
   */
  lemma ReplaceStep(m: multiset<int>, p: seq<int>, k: nat, v: int, low: int)
    requires TopK(m, p, k)
    requires |m| == k
    requires IsMinimum(low, m)
    requires low <= v
    ensures TopK(m - multiset{low} + multiset{v}, p + [v], k)
  {
    var m' := m - multiset{low} + multiset{v};
    var whole := multiset(p + [v]);
    assert whole == multiset(p) + multiset{v};
    assert |m'| == k;
    forall y | y in whole - m'
      ensures y <= low
    {
      if y != low {
        assert y in multiset(p) - m;
      }
    }
    forall x, y | x in m' && y in whole - m'
      ensures y <= x
    {
      if x != v {
        assert x in m;
      }
    }
  }

  /** Discard step: with `k` elements held, an element no larger than all of them changes nothing. */
  lemma DiscardStep(m: multiset<int>, p: seq<int>, k: nat, v: int)
    requires TopK(m, p, k)
    requires |m| >= k
    requires forall x :: x in m ==> v <= x
    ensures TopK(m, p + [v], k)
  {
    var whole := multiset(p + [v]);
    assert whole == multiset(p) + multiset{v};
    forall x, y | x in m && y in whole - m
      ensures y <= x
    {
      if y != v {
        assert y in multiset(p) - m;
      }
    }
  }
}
