/** Python's integer bit operations on unbounded integers: `<<`, `>>`, `& 1`
    and `^`. Python integers behave as infinite two's-complement bit strings,
    so `x >> 1` is floor division by two, which is what Dafny's Euclidean `/`
    computes for a positive divisor. */
module Bits {

  function Pow2(n: nat): (r: nat)
    ensures r >= 1
  {
    if n == 0 then 1 else 2 * Pow2(n - 1)
  }

  /** Python `x >> p`. An arithmetic shift keeps the sign; `ShrIsDiv` gives its
      exact value. */
  function Shr(x: int, p: nat): (r: int)
    ensures r < 0 <==> x < 0
    decreases p
  {
    if p == 0 then x else Shr(x / 2, p - 1)
  }

  /** Python `x << s`: the `s` low bits are zero and the rest spell `x`. */
  function Shl(x: int, s: nat): (r: int)
    ensures r % Pow2(s) == 0
    ensures r / Pow2(s) == x
  {
    DivModUnique(x * Pow2(s), Pow2(s), x, 0);
    x * Pow2(s)
  }

  /** Python `x >> p & 1`: bit `p` of `x`, counting from the least significant bit. */
  function Bit(x: int, p: nat): (b: int)
    ensures b == 0 || b == 1
  {
    Shr(x, p) % 2
  }

  function Abs(x: int): nat
  {
    if x < 0 then -x else x
  }

  /** Halving moves every integer other than 0 and -1 closer to zero. */
  lemma HalfShrinks(x: int)
    ensures Abs(x / 2) <= Abs(x)
    ensures x != 0 && x != -1 ==> Abs(x / 2) < Abs(x)
  {
  }

  /** Python `x ^ y`: bitwise exclusive or of two infinite two's-complement
      bit strings. 0 and -1 are the two strings with no bit left to split off.
      The sign bit of the result is the exclusive or of the two sign bits. */
  function Xor(x: int, y: int): (r: int)
    ensures r < 0 <==> ((x < 0) != (y < 0))
    decreases Abs(x) + Abs(y)
  {
    if (x == 0 || x == -1) && (y == 0 || y == -1) then
      (if x == y then 0 else -1)
    else
      HalfShrinks(x);
      HalfShrinks(y);
      2 * Xor(x / 2, y / 2) + (x % 2 + y % 2) % 2
  }

  /** Euclidean division is determined by any quotient/remainder pair. */
  lemma DivModUnique(x: int, d: int, q: int, r: int)
    requires d > 0 && 0 <= r < d && x == d * q + r
    ensures x / d == q && x % d == r
  {
    var q', r' := x / d, x % d;
    assert d * (q - q') == r' - r;
    MulStrictBound(d, q - q');
  }

  /** The only multiple of `d` strictly between `-d` and `d` is zero. */
  lemma MulStrictBound(d: int, k: int)
    requires d > 0 && -d < d * k < d
    ensures k == 0
  {
  }

  lemma DivHalf(x: int, m: nat)
    requires m > 0
    ensures (x / 2) / m == x / (2 * m)
  {
    var q := x / 2;
    var a := q / m;
    var b := q % m;
    assert x == 2 * q + x % 2;
    assert q == m * a + b;
    assert x == (2 * m) * a + (2 * b + x % 2);
    DivModUnique(x, 2 * m, a, 2 * b + x % 2);
  }

  /** Shifting right by `p` is floor division by 2^p. */
  lemma {:induction false} ShrIsDiv(x: int, p: nat)
    ensures Shr(x, p) == x / Pow2(p)
    decreases p
  {
    if p > 0 {
      ShrIsDiv(x / 2, p - 1);
      DivHalf(x, Pow2(p - 1));
    }
  }

  /** Bit `p + 1` of `x` is bit `p` of `x >> 1`. */
  lemma BitHalf(x: int, p: nat)
    ensures Bit(x, p + 1) == Bit(x / 2, p)
  {
  }

  /** For `p >= s`, bit `p` of `v << s` is bit `p - s` of `v`: a left shift moves
      every bit up by exactly `s` places. */
  lemma {:induction false} ShlShrBits(v: int, s: nat, p: nat)
    requires p >= s
    ensures Shr(Shl(v, s), p) == Shr(v, p - s)
    ensures Bit(Shl(v, s), p) == Bit(v, p - s)
  {
    if s > 0 {
      assert Shl(v, s) == 2 * Shl(v, s - 1);
      assert Shl(v, s) / 2 == Shl(v, s - 1);
      ShlShrBits(v, s - 1, p - 1);
    }
  }

  /** Bit `s + j` of `x == v << s` is bit `j` of `v`. */
  lemma ShlBit(x: int, v: int, s: nat, j: nat)
    requires x == Shl(v, s)
    ensures Bit(x, s + j) == Bit(v, j)
  {
    ShlShrBits(v, s, s + j);
  }

  /** `(v << s) >> s == v`: the left shift loses nothing. */
  lemma ShlShrRoundTrip(v: int, s: nat)
    ensures Shr(Shl(v, s), s) == v
  {
    ShlShrBits(v, s, s);
  }

  /** The `s` lowest bits of `v << s` are zero. */
  lemma {:induction false} ShlLowBitsZero(v: int, s: nat, p: nat)
    requires p < s
    ensures Bit(Shl(v, s), p) == 0
  {
    if p == 0 {
      assert Shl(v, s) == 2 * Shl(v, s - 1);
    } else {
      assert Shl(v, s) == 2 * Shl(v, s - 1);
      assert Shl(v, s) / 2 == Shl(v, s - 1);
      ShlLowBitsZero(v, s - 1, p - 1);
    }
  }

  /** Splitting off the lowest bit of `x ^ y`. */
  lemma XorHalf(x: int, y: int)
    ensures Xor(x, y) / 2 == Xor(x / 2, y / 2)
    ensures Xor(x, y) % 2 == (x % 2 + y % 2) % 2
  {
  }

  /** Bit `p` of `x ^ y` is the exclusive or of bit `p` of `x` and of `y`. */
  lemma {:induction false} XorBit(x: int, y: int, p: nat)
    ensures Bit(Xor(x, y), p) == (Bit(x, p) + Bit(y, p)) % 2
    decreases p
  {
    XorHalf(x, y);
    if p > 0 {
      BitHalf(Xor(x, y), p - 1);
      BitHalf(x, p - 1);
      BitHalf(y, p - 1);
      XorBit(x / 2, y / 2, p - 1);
    }
  }

  /** `x ^ x == 0`. */
  lemma {:induction false} XorSelf(x: int)
    ensures Xor(x, x) == 0
    decreases Abs(x)
  {
    if x != 0 && x != -1 {
      HalfShrinks(x);
      XorSelf(x / 2);
    }
  }

  /** Every bit of zero is zero. */
  lemma {:induction false} BitZero(p: nat)
    ensures Bit(0, p) == 0
  {
    if p > 0 {
      BitHalf(0, p - 1);
      BitZero(p - 1);
    }
  }
}
