/** Facts about integer multiplication, division and remainder that the solver does not find
    on its own when the divisor is a variable. */
module Arith {

  /** Multiplication by a non-negative factor keeps order. */
  lemma {:induction false} MulMono(a: nat, b: nat, c: nat)
    requires a <= b
    ensures a * c <= b * c
    decreases c
  {
    if c > 0 {
      MulMono(a, b, c - 1);
      assert a * c == a * (c - 1) + a;
      assert b * c == b * (c - 1) + b;
    }
  }

  /** A non-zero multiple of `n` is at least `n` away from zero. */
  lemma MultipleAwayFromZero(d: int, n: int)
    requires d != 0 && n >= 0
    ensures d * n >= n || d * n <= -n
  {
    if d > 0 {
      MulMono(1, d, n);
    } else {
      MulMono(1, -d, n);
      assert d * n == -((-d) * n);
    }
  }

  /** Quotient and remainder are the only `q`, `r` with `a == q * n + r` and `0 <= r < n`. */
  lemma DivModUnique(a: int, n: int, q: int, r: int)
    requires n > 0 && a == q * n + r && 0 <= r < n
    ensures a / n == q && a % n == r
  {
    var q0, r0 := a / n, a % n;
    assert a == q0 * n + r0;
    if q != q0 {
      assert (q - q0) * n == r0 - r;
      MultipleAwayFromZero(q - q0, n);
      assert false;
    }
  }

  /** A product below `den * len` divided by `den` is below `len`. */
  lemma DivBelow(x: nat, den: nat, len: nat)
    requires den > 0 && x < den * len
    ensures x / den < len
  {
    var q := x / den;
    assert q * den <= x;
    if q >= len {
      MulMono(len, q, den);
      assert false;
    }
  }
}
