/**
 Ascending order on integers and the sort the selectors rely on.

 `Collections.sort` is library code; it is modelled by what it promises: an
 ascending permutation of its input (`AscendingPermutationOf`).
 `SortAscending` computes one such permutation, and `SortedPermutationsEqual`
 shows there is no other, so whatever the library returns is exactly
 `SortAscending` of the input.
 */
module Ordering {

  /** Every element is no greater than any element after it. */
  predicate Sorted(s: seq<int>) {
    forall a, b :: 0 <= a < b < |s| ==> s[a] <= s[b]
  }

  /** `t` is an ascending permutation of `s`: what `Collections.sort` makes of a copy of `s`. */
  predicate AscendingPermutationOf(t: seq<int>, s: seq<int>) {
    Sorted(t) && multiset(t) == multiset(s)
  }

  /** `x` is a least element of the non-empty multiset `m`. */
  ghost predicate IsMinimum(x: int, m: multiset<int>) {
    x in m && forall y :: y in m ==> x <= y
  }

  /** Prepending a lower bound of an ascending sequence keeps it ascending. */
  lemma PrependLowerBound(x: int, s: seq<int>)
    requires Sorted(s)
    requires forall y :: y in s ==> x <= y
    ensures Sorted([x] + s)
  {
    var r := [x] + s;
    forall a, b | 0 <= a < b < |r|
      ensures r[a] <= r[b]
    {
      assert r[b] == s[b - 1];
      if a > 0 {
        assert r[a] == s[a - 1];
      } else {
        assert s[b - 1] in s;
      }
    }
  }

  /** Places `x` in front of the first element of `s` that is not smaller than it. */
  function Insert(x: int, s: seq<int>): (r: seq<int>)
    requires Sorted(s)
    ensures Sorted(r)
    ensures multiset(r) == multiset(s) + multiset{x}
  {
    if |s| == 0 || x <= s[0] then
      assert forall y :: y in s ==> x <= y by {
        forall y | y in s
          ensures x <= y
        {
          var j :| 0 <= j < |s| && s[j] == y;
          assert s[0] <= s[j];
        }
      }
      PrependLowerBound(x, s);
      [x] + s
    else
      var rest := Insert(x, s[1..]);
      assert forall y :: y in rest ==> s[0] <= y by {
        forall y | y in rest
          ensures s[0] <= y
        {
          assert y in multiset(rest);
          if y != x {
            assert y in multiset(s[1..]);
            var j :| 0 <= j < |s[1..]| && s[1..][j] == y;
            assert s[0] <= s[j + 1];
          }
        }
      }
      PrependLowerBound(s[0], rest);
      assert s == [s[0]] + s[1..];
      [s[0]] + rest
  }

  /** An ascending permutation of `s`: the model of `Collections.sort`. */
  function SortAscending(s: seq<int>): (r: seq<int>)
    ensures Sorted(r)
    ensures multiset(r) == multiset(s)
    ensures |r| == |s|
  {
    if |s| == 0 then
      []
    else
      assert s == [s[0]] + s[1..];
      Insert(s[0], SortAscending(s[1..]))
  }

  /** The first element of a non-empty ascending sequence is its minimum. */
  lemma HeadIsMinimum(s: seq<int>, y: int)
    requires Sorted(s)
    requires y in multiset(s)
    ensures s[0] <= y
  {
    var j :| 0 <= j < |s| && s[j] == y;
    assert s[0] <= s[j];
  }

  /** A non-empty sequence splits into its head and its tail. */
  lemma HeadAndTail(s: seq<int>)
    requires |s| > 0
    ensures multiset(s[1..]) == multiset(s) - multiset{s[0]}
    ensures Sorted(s) ==> Sorted(s[1..])
  {
    assert s == [s[0]] + s[1..];
  }

  /** Ascending sequences with the same elements start with the same element. */
  lemma HeadsAgree(a: seq<int>, b: seq<int>)
    requires Sorted(a)
    requires Sorted(b)
    requires |a| > 0 && |b| > 0
    requires multiset(a) == multiset(b)
    ensures a[0] == b[0]
  {
    assert a[0] in multiset(a) && b[0] in multiset(b);
    HeadIsMinimum(b, a[0]);
    HeadIsMinimum(a, b[0]);
  }

  /** Every suffix of an ascending sequence is ascending. */
  lemma SortedSuffix(s: seq<int>, i: nat)
    requires Sorted(s)
    requires i <= |s|
    ensures Sorted(s[i..])
  {
    forall a, b | 0 <= a < b < |s[i..]|
      ensures s[i..][a] <= s[i..][b]
    {
      assert s[i..][a] == s[i + a] && s[i..][b] == s[i + b];
    }
  }

  /** Every prefix of an ascending sequence is ascending. */
  lemma SortedPrefix(s: seq<int>, i: nat)
    requires Sorted(s)
    requires i <= |s|
    ensures Sorted(s[..i])
  {
    forall a, b | 0 <= a < b < i
      ensures s[..i][a] <= s[..i][b]
    {
      assert s[..i][a] == s[a] && s[..i][b] == s[b];
    }
  }

  /** Joining two ascending sequences keeps them ascending when the first ends no higher than the second starts. */
  lemma SortedConcat(x: seq<int>, y: seq<int>)
    requires Sorted(x)
    requires Sorted(y)
    requires |x| > 0 && |y| > 0 ==> x[|x| - 1] <= y[0]
    ensures Sorted(x + y)
  {
    var r := x + y;
    forall a, b | 0 <= a < b < |r|
      ensures r[a] <= r[b]
    {
      if b < |x| {
        assert r[a] == x[a] && r[b] == x[b];
      } else if a >= |x| {
        assert r[a] == y[a - |x|] && r[b] == y[b - |x|];
      } else {
        assert r[a] == x[a] <= x[|x| - 1];
        assert r[b] == y[b - |x|] >= y[0];
      }
    }
  }

  /** Two ascending sequences with the same elements are the same sequence. */
  lemma {:induction false} SortedPermutationsEqual(a: seq<int>, b: seq<int>)
    requires Sorted(a)
    requires Sorted(b)
    requires multiset(a) == multiset(b)
    ensures a == b
    decreases |a|
  {
    assert |a| == |multiset(a)| == |multiset(b)| == |b|;
    if |a| > 0 {
      HeadsAgree(a, b);
      HeadAndTail(a);
      HeadAndTail(b);
      SortedPermutationsEqual(a[1..], b[1..]);
    }
  }
}
