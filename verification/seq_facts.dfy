/**
  Facts about sequences that hold whatever the element type, kept apart so
  that the sorting proofs can cite them without unfolding any arithmetic.
 */
module SeqFacts {

  /** If two sequences agree outside `[lo, hi)` and hold the same elements
      overall, they hold the same elements inside `[lo, hi)`. */
  lemma MiddleMultiset<T>(s: seq<T>, t: seq<T>, lo: nat, hi: nat)
    requires lo <= hi <= |s| == |t|
    requires multiset(s) == multiset(t)
    requires s[..lo] == t[..lo] && s[hi..] == t[hi..]
    ensures multiset(s[lo..hi]) == multiset(t[lo..hi])
  {
    assert s == s[..lo] + s[lo..hi] + s[hi..];
    assert t == t[..lo] + t[lo..hi] + t[hi..];
    assert multiset(s) == multiset(s[..lo]) + multiset(s[lo..hi]) + multiset(s[hi..]);
    assert multiset(t) == multiset(t[..lo]) + multiset(t[lo..hi]) + multiset(t[hi..]);
    assert multiset(s[lo..hi]) == multiset(s) - multiset(s[..lo]) - multiset(s[hi..]);
    assert multiset(t[lo..hi]) == multiset(t) - multiset(t[..lo]) - multiset(t[hi..]);
  }

  /** Every element of `t` occurs in `s` when they hold the same elements. */
  lemma SameElements<T>(s: seq<T>, t: seq<T>, k: nat)
    requires multiset(s) == multiset(t) && k < |t|
    ensures t[k] in s
  {
    assert t[k] in multiset(t);
  }

  /** `s` back to front. */
  function Reversed<T>(s: seq<T>): (r: seq<T>)
    ensures |r| == |s|
  {
    if |s| == 0 then [] else Reversed(s[1..]) + [s[0]]
  }

  /** Position `p` of the reversal holds position `|s| - 1 - p` of `s`. */
  lemma {:induction false} ReversedIndex<T>(s: seq<T>, p: nat)
    requires p < |s|
    ensures Reversed(s)[p] == s[|s| - 1 - p]
  {
    if p < |s| - 1 {
      ReversedIndex(s[1..], p);
    }
  }

  /** Reversal only reorders. */
  lemma {:induction false} ReversedMultiset<T>(s: seq<T>)
    ensures multiset(Reversed(s)) == multiset(s)
  {
    if |s| > 0 {
      ReversedMultiset(s[1..]);
      assert s == [s[0]] + s[1..];
    }
  }

  /** Overwriting a cell with a different value changes the contents. */
  lemma UpdateChangesMultiset<T>(s: seq<T>, i: nat, v: T)
    requires i < |s| && s[i] != v
    ensures multiset(s[i := v]) != multiset(s)
  {
    var a := s[i];
    assert multiset(s[i := v]) == multiset(s) - multiset{a} + multiset{v};
    assert multiset(s[i := v])[a] + 1 == multiset(s)[a];
  }
}
