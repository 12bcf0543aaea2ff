/**
  The sorting demonstration `riscv-example.c`: `main` reads a count `n` and
  then `n` integers into the global buffer `buf`, last slot first; `do_sort`
  sorts the prefix `buf[0..n)` in place with an exchange sort whose swap is
  the exclusive-or idiom; `main` then prints that prefix.

  The `int` array is a `seq<Int>`; a method takes the array's contents and
  returns its contents after the call. Console input is the sequence of
  values `scanf` manages to parse; console output is the sequence of values
  printed.
 */
module RiscvExample {
  import opened Int32
  import opened SwapIdiom
  import opened SortSpec
  import opened SeqFacts

  /** `MAX_N`, the capacity of `buf`. */
  const MaxN: nat := 100

  /** How many leading cells a loop counting `i` up from 0 while `i < n` visits. */
  function Extent(n: int): nat
  {
    if n < 0 then 0 else n
  }

  /** The body of the inner loop of `do_sort`: when cell `i` holds a larger
      value than cell `j`, the exclusive-or idiom swaps the two cells.
      Afterwards the pair is in order, nothing else moved, and a pair that
      was already in order (in particular an equal pair) is left alone. */
  function CompareExchange(s: seq<Int>, i: nat, j: nat): (r: seq<Int>)
    requires i < j < |s|
    ensures |r| == |s|
    ensures r[i] <= r[j]
    ensures (r[i] == s[i] && r[j] == s[j]) || (r[i] == s[j] && r[j] == s[i])
    ensures forall k :: 0 <= k < |s| && k != i && k != j ==> r[k] == s[k]
    ensures s[i] <= s[j] ==> r == s
    ensures multiset(r) == multiset(s)
  {
    if s[i] > s[j] then
      XorSwapExchanges(s, i, j);
      XorSwap(s, i, j)
    else
      s
  }

  /** One pass of the inner loop of `do_sort` for a fixed `i < n`
      (`j` runs from `i + 1` up to `n - 1`): it brings a minimum of `a[i..n)` to
      cell `i`, only rearranging cells `i..n)`. */
  method InnerPass(a: seq<Int>, i: nat, n: nat) returns (b: seq<Int>)
    requires i < n <= |a|
    ensures |b| == |a|
    ensures b[..i] == a[..i] && b[n..] == a[n..]
    ensures multiset(b[i..n]) == multiset(a[i..n])
    ensures multiset(b) == multiset(a)
    ensures b[i] in a[i..n] && IsLowerBound(b[i], a[i..n])
    ensures IsLowerBound(b[i], b[i..n])
  {
    b := a;
    var j := i + 1;
    while j < n
      invariant i + 1 <= j <= n
      invariant |b| == |a|
      invariant multiset(b) == multiset(a)
      invariant forall k :: 0 <= k < |a| && (k < i || n <= k) ==> b[k] == a[k]
      invariant forall q :: i < q < j ==> b[i] <= b[q]
    {
      b := CompareExchange(b, i, j);
      j := j + 1;
    }
    assert b[..i] == a[..i];
    assert b[n..] == a[n..];
    MiddleMultiset(b, a, i, n);
    assert IsLowerBound(b[i], b[i..n]);
    SameElements(a[i..n], b[i..n], 0);
    LowerBoundOfPermutation(b[i], b[i..n], a[i..n]);
  }

  /** The outer-loop invariant of `do_sort` after `i` iterations: each of
      the cells `0..i)` is at most every cell after it in `0..m)`; so
      `a[0..i)` is sorted and below everything in `a[i..m)`. */
  predicate SettledBefore(b: seq<Int>, i: nat, m: nat)
    requires i <= m <= |b|
  {
    forall p, q :: 0 <= p < i && p < q < m ==> b[p] <= b[q]
  }

  /** One outer iteration keeps the invariant: the inner pass only
      rearranges `i..m)`, which every settled cell bounds, and puts a
      minimum of that range at `i`. */
  lemma OuterStepSettles(b: seq<Int>, c: seq<Int>, i: nat, m: nat)
    requires i < m <= |b| == |c|
    requires SettledBefore(b, i, m)
    requires c[..i] == b[..i]
    requires multiset(c[i..m]) == multiset(b[i..m])
    requires IsLowerBound(c[i], c[i..m])
    ensures SettledBefore(c, i + 1, m)
  {
    forall p | 0 <= p < i
      ensures IsLowerBound(c[p], c[i..m])
    {
      assert c[p] == c[..i][p] == b[..i][p] == b[p];
      assert IsLowerBound(b[p], b[i..m]);
      LowerBoundOfPermutation(b[p], b[i..m], c[i..m]);
    }
    forall p, q | 0 <= p < i + 1 && p < q < m
      ensures c[p] <= c[q]
    {
      if p < i {
        if q < i {
          assert c[p] == b[p] && c[q] == c[..i][q] == b[q];
        } else {
          assert c[q] == c[i..m][q - i];
        }
      } else {
        assert c[q] == c[i..m][q - i];
      }
    }
  }

  /** When the outer loop of `do_sort` ends, what the invariant and the
      untouched suffix give about the whole call. */
  lemma DoSortFinishes(a: seq<Int>, b: seq<Int>, m: nat)
    requires m <= |a| == |b|
    requires multiset(b) == multiset(a)
    requires forall k :: m <= k < |a| ==> b[k] == a[k]
    requires SettledBefore(b, m, m)
    ensures Sorted(b[..m])
    ensures multiset(b[..m]) == multiset(a[..m])
    ensures b[m..] == a[m..]
    ensures b[..m] == InsertionSort(a[..m])
    ensures m <= 1 ==> b == a
  {
    assert b[m..] == a[m..];
    MiddleMultiset(b, a, 0, m);
    assert b[..m] == b[0..m] && a[..m] == a[0..m];
    SortedPermutationUnique(b[..m], InsertionSort(a[..m]));
    if m == 1 {
      assert b[..1] == [b[0]] && a[..1] == [a[0]];
      assert b[0] in multiset(a[..1]);
      assert b == b[..1] + b[1..] && a == a[..1] + a[1..];
    } else if m == 0 {
      assert b == b[0..] && a == a[0..];
    }
  }

  /** `do_sort(a, n)`: afterwards `a[0..n)` is in non-decreasing order and
      holds the same values as before, and no cell at or beyond `n` changed.
      For `n <= 0` both loops are empty. */
  method DoSort(a: seq<Int>, n: int) returns (b: seq<Int>)
    requires n <= |a|
    ensures |b| == |a|
    ensures Sorted(b[..Extent(n)])
    ensures multiset(b[..Extent(n)]) == multiset(a[..Extent(n)])
    ensures b[Extent(n)..] == a[Extent(n)..]
    ensures b[..Extent(n)] == InsertionSort(a[..Extent(n)])
    ensures n <= 1 ==> b == a
  {
    var m := Extent(n);
    b := a;
    var i := 0;
    while i < n
      invariant 0 <= i <= m
      invariant |b| == |a|
      invariant multiset(b) == multiset(a)
      invariant forall k :: m <= k < |a| ==> b[k] == a[k]
      invariant SettledBefore(b, i, m)
    {
      var c := InnerPass(b, i, m);
      OuterStepSettles(b, c, i, m);
      b := c;
      i := i + 1;
    }
    DoSortFinishes(a, b, m);
  }

  /** The cell of `buf` that the `k`-th value read (counting from 0) lands
      in: `main` counts `t` down from `n` and reads into `buf[t]` after
      each decrement. */
  function ReadSlot(n: int, k: nat): int
  {
    n - 1 - k
  }

  /** Whether the input loop of `main` runs its round `k` (counting from 0).
      That round tests `t == n - k`, and every earlier round tested a larger
      value: for `n >= 0` the test first fails at round `n`; for `n < 0` it
      never fails. */
  predicate RoundRuns(n: int, k: nat)
  {
    n < 0 || k < n
  }

  /** Every cell the input loop of `main` writes lies inside `buf` exactly
      when `0 <= n <= MAX_N`; `main` checks neither bound. A negative `n`
      writes `buf[n - 1]`, before the buffer, in its very first round; an
      `n` above `MAX_N` writes `buf[n - 1]`, past its end. */
  lemma ReadSlotsInBounds(n: int)
    ensures (forall k: nat :: RoundRuns(n, k) ==> 0 <= ReadSlot(n, k) < MaxN)
        <==> 0 <= n <= MaxN
    ensures n < 0 ==> RoundRuns(n, 0) && ReadSlot(n, 0) < 0
    ensures n > MaxN ==> RoundRuns(n, 0) && ReadSlot(n, 0) >= MaxN
  {
  }

  /** The input loop of `main`: `t` starts at `n`; each round tests `t`,
      decrements it and reads one value into `buf[t]`.
      `input` holds the values `scanf` parses, in order; once it is
      exhausted every further `scanf` fails and leaves its cell as it was.
      A negative `n` writes before `buf` in the first round and an `n` above
      `MAX_N` writes past its end, so the model requires `0 <= n <= MAX_N`. */
  method ReadValues(buf: seq<Int>, input: seq<Int>, n: int) returns (r: seq<Int>)
    requires |buf| == MaxN
    requires 0 <= n <= MaxN
    ensures |r| == MaxN
    ensures forall k: nat :: k < n ==>
      r[ReadSlot(n, k)] == if k < |input| then input[k] else buf[ReadSlot(n, k)]
    ensures r[n..] == buf[n..]
  {
    r := buf;
    var t := n;
    var k := 0;
    while t != 0
      invariant 0 <= t <= n
      invariant k == n - t
      invariant |r| == MaxN
      invariant forall k': nat :: k' < k ==>
        r[ReadSlot(n, k')] == if k' < |input| then input[k'] else buf[ReadSlot(n, k')]
      invariant forall c :: 0 <= c < t || n <= c < MaxN ==> r[c] == buf[c]
    {
      t := t - 1;
      if k < |input| {
        r := r[t := input[k]];
      }
      k := k + 1;
    }
    assert r[n..] == buf[n..];
  }

  /** The values the `n` reads of `main` deliver, in reading order: the
      parsed input, then zeros for reads that find the input exhausted
      (their cells keep the zero of static storage). */
  function Delivered(input: seq<Int>, n: nat): (d: seq<Int>)
    ensures |d| == n
    ensures forall k :: 0 <= k < n ==> d[k] == if k < |input| then input[k] else 0
  {
    if n <= |input| then input[..n] else input + seq(n - |input|, _ => 0)
  }

  /** After the input loop the prefix `buf[0..n)` holds the delivered values
      back to front. */
  lemma ReadReverses(buf: seq<Int>, input: seq<Int>, n: nat, r: seq<Int>)
    requires |buf| == |r| == MaxN && n <= MaxN
    requires forall c :: 0 <= c < MaxN ==> buf[c] == 0
    requires forall k: nat :: k < n ==>
      r[ReadSlot(n, k)] == if k < |input| then input[k] else buf[ReadSlot(n, k)]
    ensures r[..n] == Reversed(Delivered(input, n))
  {
    var d := Delivered(input, n);
    forall p | 0 <= p < n
      ensures r[..n][p] == Reversed(d)[p]
    {
      ReversedIndex(d, p);
      var k: nat := n - 1 - p;
      assert ReadSlot(n, k) == p;
    }
  }

  /** The whole program: `buf` starts as static storage (all zero), is
      filled by the input loop, sorted by `do_sort`, and `buf[0..n)` is
      printed. The output is the delivered values in non-decreasing order;
      since a sorted arrangement is unique, reading back to front does not
      affect it. */
  method SortProgram(n: int, input: seq<Int>) returns (output: seq<Int>)
    requires 0 <= n <= MaxN
    ensures |output| == n
    ensures Sorted(output)
    ensures multiset(output) == multiset(Delivered(input, n))
  {
    var buf := seq(MaxN, _ => 0);
    buf := ReadValues(buf, input, n);
    ReadReverses(seq(MaxN, _ => 0), input, n, buf);
    buf := DoSort(buf, n);
    output := buf[..n];
    ReversedMultiset(Delivered(input, n));
  }
}
