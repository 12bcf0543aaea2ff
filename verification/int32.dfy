/**
  The C `int` of the demonstration program: a 32-bit two's-complement integer.

  A cell holds a signed value (`Int`). The comparison `a[i] > a[j]` of
  `do_sort` is the ordinary order on those values; the compound assignment
  `^=` acts on their 32-bit two's-complement patterns (`Bits`), bit by bit.
 */
module Int32 {

  const MinInt: int := -0x8000_0000
  const MaxInt: int := 0x7FFF_FFFF
  /** Number of bits in a C `int`. */
  const Width: nat := 32
  /** Number of distinct 32-bit patterns. */
  const Modulus: int := 0x1_0000_0000

  /** A value a C `int` can hold. */
  type Int = x: int | MinInt <= x <= MaxInt

  /** A 32-bit pattern, read as an unsigned number. */
  type Bits = u: int | 0 <= u < Modulus

  function Pow2(n: nat): (r: nat)
    ensures r > 0
  {
    if n == 0 then 1 else 2 * Pow2(n - 1)
  }

  lemma Pow2Width()
    ensures Pow2(Width) == Modulus
  {
    assert Pow2(8) == 0x100;
    assert Pow2(16) == 0x1_0000;
    assert Pow2(24) == 0x100_0000;
  }

  /** The two's-complement pattern of `x`: the one pattern congruent to `x`
      modulo 2^32. */
  function ToBits(x: Int): (u: Bits)
    ensures u % Modulus == x % Modulus
  {
    if x >= 0 then x else x + Modulus
  }

  /** The signed value whose pattern is `u`. */
  function FromBits(u: Bits): (x: Int)
    ensures ToBits(x) == u
  {
    if u <= MaxInt then u else u - Modulus
  }

  /** Each value has exactly one pattern and back. */
  lemma FromToBits(x: Int)
    ensures FromBits(ToBits(x)) == x
  {
  }

  /** Bit `k` (0 = least significant) of the non-negative number `a`. */
  function Bit(a: nat, k: nat): (b: nat)
    ensures b < 2
  {
    if k == 0 then a % 2 else Bit(a / 2, k - 1)
  }

  /** The low `n` bits of `a` exclusive-or the low `n` bits of `b`, built
      from the least significant bit up. */
  function XorBits(a: nat, b: nat, n: nat): (r: nat)
    ensures r < Pow2(n)
  {
    if n == 0 then 0
    else (if a % 2 == b % 2 then 0 else 1) + 2 * XorBits(a / 2, b / 2, n - 1)
  }

  /** Bit by bit, `XorBits` is exclusive-or on the low `n` bits and zero
      above them. */
  lemma {:induction false} XorBitsBit(a: nat, b: nat, n: nat, k: nat)
    ensures Bit(XorBits(a, b, n), k) == if k < n && Bit(a, k) != Bit(b, k) then 1 else 0
  {
    var r := XorBits(a, b, n);
    if n == 0 {
      ZeroBit(k);
    } else if k == 0 {
    } else {
      assert r / 2 == XorBits(a / 2, b / 2, n - 1);
      XorBitsBit(a / 2, b / 2, n - 1, k - 1);
    }
  }

  /** Every bit of zero is clear. */
  lemma {:induction false} ZeroBit(k: nat)
    ensures Bit(0, k) == 0
  {
    if k > 0 {
      ZeroBit(k - 1);
    }
  }

  /** Exclusive-or with the same operand twice is the identity on numbers
      that fit in `n` bits. */
  lemma {:induction false} XorBitsCancel(a: nat, b: nat, n: nat)
    requires a < Pow2(n)
    ensures XorBits(XorBits(a, b, n), b, n) == a
  {
    if n > 0 {
      var r := XorBits(a, b, n);
      assert r % 2 == (if a % 2 == b % 2 then 0 else 1);
      assert r / 2 == XorBits(a / 2, b / 2, n - 1);
      XorBitsCancel(a / 2, b / 2, n - 1);
    }
  }

  lemma {:induction false} XorBitsCommutes(a: nat, b: nat, n: nat)
    ensures XorBits(a, b, n) == XorBits(b, a, n)
  {
    if n > 0 {
      XorBitsCommutes(a / 2, b / 2, n - 1);
    }
  }

  lemma {:induction false} XorBitsSelf(a: nat, n: nat)
    ensures XorBits(a, a, n) == 0
  {
    if n > 0 {
      XorBitsSelf(a / 2, n - 1);
    }
  }

  /** C's `x ^ y` on two `int`s: exclusive-or of the 32-bit patterns. */
  function Xor(x: Int, y: Int): (r: Int)
    ensures ToBits(r) == XorBits(ToBits(x), ToBits(y), Width)
  {
    Pow2Width();
    FromBits(XorBits(ToBits(x), ToBits(y), Width))
  }

  /** The three algebraic facts the exclusive-or swap rests on. */
  lemma XorCancels(x: Int, y: Int)
    ensures Xor(Xor(x, y), y) == x
    ensures Xor(y, Xor(x, y)) == x
    ensures Xor(x, y) == Xor(y, x)
    ensures Xor(x, x) == 0
  {
    Pow2Width();
    var u, v := ToBits(x), ToBits(y);
    XorBitsCancel(u, v, Width);
    XorBitsCommutes(u, v, Width);
    XorBitsCommutes(XorBits(u, v, Width), v, Width);
    XorBitsSelf(u, Width);
    FromToBits(x);
  }
}
