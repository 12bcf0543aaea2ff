/**
  What it means for `do_sort` to have sorted a prefix of C `int`s, and an
  independent reference sort (insertion sort) to compare it with.
 */
module SortSpec {
  import opened Int32
  import opened SeqFacts

  /** Non-decreasing in the signed order of C `int`. */
  predicate Sorted(s: seq<Int>)
  {
    forall p, q :: 0 <= p < q < |s| ==> s[p] <= s[q]
  }

  /** `x` is at most every element of `s`. */
  predicate IsLowerBound(x: Int, s: seq<Int>)
  {
    forall k :: 0 <= k < |s| ==> x <= s[k]
  }

  /** A lower bound of a sequence bounds every rearrangement of it. */
  lemma LowerBoundOfPermutation(x: Int, s: seq<Int>, t: seq<Int>)
    requires IsLowerBound(x, s)
    requires multiset(s) == multiset(t)
    ensures IsLowerBound(x, t)
  {
    forall k | 0 <= k < |t|
      ensures x <= t[k]
    {
      SameElements(s, t, k);
    }
  }

  /** `x` inserted into the sorted `s` before the first element not below it. */
  function Insert(x: Int, s: seq<Int>): (r: seq<Int>)
    requires Sorted(s)
    ensures Sorted(r)
    ensures multiset(r) == multiset(s) + multiset{x}
    decreases |s|
  {
    if |s| == 0 then [x]
    else if x <= s[0] then [x] + s
    else
      var rest := Insert(x, s[1..]);
      assert IsLowerBound(s[0], s[1..] + [x]);
      LowerBoundOfPermutation(s[0], s[1..] + [x], rest);
      assert s == [s[0]] + s[1..];
      [s[0]] + rest
  }

  /** The reference sort: insert the elements one at a time, last first. */
  function InsertionSort(s: seq<Int>): (r: seq<Int>)
    ensures Sorted(r)
    ensures multiset(r) == multiset(s)
    decreases |s|
  {
    if |s| == 0 then []
    else
      assert s == [s[0]] + s[1..];
      Insert(s[0], InsertionSort(s[1..]))
  }

  /** A sorted arrangement of a multiset of C `int`s is unique: any two
      sorted sequences with the same elements are equal. */
  lemma {:induction false} SortedPermutationUnique(x: seq<Int>, y: seq<Int>)
    requires Sorted(x) && Sorted(y)
    requires multiset(x) == multiset(y)
    ensures x == y
    decreases |x|
  {
    assert |x| == |multiset(x)| == |multiset(y)| == |y|;
    if |x| > 0 {
      assert x[0] in multiset(y);
      assert y[0] in multiset(x);
      assert x[0] == y[0];
      assert x == [x[0]] + x[1..];
      assert y == [y[0]] + y[1..];
      assert multiset(x[1..]) == multiset(x) - multiset{x[0]};
      assert multiset(y[1..]) == multiset(y) - multiset{y[0]};
      SortedPermutationUnique(x[1..], y[1..]);
    }
  }
}
