/**
  The exclusive-or swap of `do_sort`: three compound assignments that
  replace cell `i` by its exclusive-or with cell `j`, then cell `j` by its
  exclusive-or with cell `i`, then cell `i` by its exclusive-or with cell `j`
  again. Each statement reads the cells it names as they stand after the previous
  statement. When `i` and `j` name two different cells, the state of the
  pair after each statement is tracked by `XorSwapPair`; when they name the
  same cell every statement xors that cell with itself, tracked by `XorSwapAliased`.
 */
module SwapIdiom {
  import opened Int32
  import opened SeqFacts

  /** The contents `(a[i], a[j])` of two distinct cells after the three
      statements, starting from `(x, y)`: the values are exchanged. */
  function XorSwapPair(x: Int, y: Int): (p: (Int, Int))
    ensures p.0 == y && p.1 == x
  {
    var i1 := Xor(x, y);    // first statement: cell i
    var j1 := Xor(y, i1);   // second statement: cell j
    var i2 := Xor(i1, j1);  // third statement: cell i
    XorCancels(x, y);
    XorCancels(y, x);
    assert j1 == x;
    assert i2 == Xor(Xor(y, x), x) == y;
    (i2, j1)
  }

  /** The contents of a cell `a[i]` after the three statements when `j == i`:
      the first statement already clears it. */
  function XorSwapAliased(x: Int): (c: Int)
    ensures c == 0
  {
    var c1 := Xor(x, x);
    var c2 := Xor(c1, c1);
    XorCancels(x, x);
    XorCancels(c1, c1);
    XorCancels(c2, c2);
    Xor(c2, c2)
  }

  /** The array after the three statements on cells `i` and `j`. */
  function XorSwap(s: seq<Int>, i: nat, j: nat): (r: seq<Int>)
    requires i < |s| && j < |s|
    ensures |r| == |s|
    ensures forall k :: 0 <= k < |s| && k != i && k != j ==> r[k] == s[k]
    ensures i != j ==> r[i] == s[j] && r[j] == s[i]
    ensures i == j ==> r[i] == 0
  {
    if i == j then
      s[i := XorSwapAliased(s[i])]
    else
      var p := XorSwapPair(s[i], s[j]);
      s[i := p.0][j := p.1]
  }

  /** On two distinct cells the idiom is exactly an exchange of the two
      values, so it neither loses nor invents an element. */
  lemma XorSwapExchanges(s: seq<Int>, i: nat, j: nat)
    requires i < |s| && j < |s| && i != j
    ensures XorSwap(s, i, j) == s[i := s[j]][j := s[i]]
    ensures multiset(XorSwap(s, i, j)) == multiset(s)
  {
  }

  /** The idiom keeps the contents of the array exactly when the two
      indices differ or the one aliased cell already holds zero: this is why
      `do_sort` relies on `j` starting at `i + 1`. */
  lemma XorSwapPreservesIff(s: seq<Int>, i: nat, j: nat)
    requires i < |s| && j < |s|
    ensures multiset(XorSwap(s, i, j)) == multiset(s) <==> (i != j || s[i] == 0)
  {
    if i != j {
      XorSwapExchanges(s, i, j);
    } else {
      var r := XorSwap(s, i, j);
      assert r == s[i := 0];
      if s[i] == 0 {
        assert r == s;
      } else {
        UpdateChangesMultiset(s, i, 0);
      }
    }
  }
}
