/** Integer facts shared by both algorithms: the floor square root that stands in for
    the floating-point `sqrt` of the programs, and small lemmas about products and
    divisibility. */
module Arithmetic {

  /** The truncated square root: the largest r with r * r <= n. */
  function FloorSqrt(n: nat): (r: nat)
    ensures r * r <= n < (r + 1) * (r + 1)
    ensures r <= n
  {
    if n < 4 then
      (if n == 0 then 0 else 1)
    else
      var h := FloorSqrt(n / 4);
      FloorSqrtStep(n, h);
      if (2 * h + 1) * (2 * h + 1) <= n then 2 * h + 1 else 2 * h
  }

  /** The step of FloorSqrt: from the root h of n / 4, 2h or 2h + 1 is the root of n. */
  lemma FloorSqrtStep(n: nat, h: nat)
    requires n >= 4
    requires h * h <= n / 4 < (h + 1) * (h + 1)
    ensures (2 * h) * (2 * h) <= n < (2 * h + 2) * (2 * h + 2)
    ensures 2 * h + 1 <= n
  {
    var m := n / 4;
    assert 4 * m <= n < 4 * m + 4;
    var sq := h * h;
    var sq1 := (h + 1) * (h + 1);
    assert (2 * h) * (2 * h) == 4 * sq;
    assert (2 * h + 2) * (2 * h + 2) == 4 * sq1;
    assert m + 1 <= sq1;
    assert h <= sq by { if h > 0 { MulMonotone(1, h, h); } }
  }

  /** The programs' correction of the square root, `if s * s < n { s += 1 }`, applied to
      the floor root r of n, gives an s with n <= s * s and (s - 1) * (s - 1) < n. */
  lemma CorrectedRoot(n: nat, r: nat, s: nat)
    requires n > 0 && r * r <= n < (r + 1) * (r + 1)
    requires s == if r * r < n then r + 1 else r
    ensures n <= s * s
    ensures s > 0 && (s - 1) * (s - 1) < n
  {
    if r * r < n {
      assert s - 1 == r;
    } else {
      assert r > 0;
      var t: nat := r - 1;
      assert r * r == t * t + 2 * t + 1;
      assert s - 1 == t;
    }
  }

  /** Past the corrected root s of n, every i has n < i * i. */
  lemma PastRoot(n: nat, s: nat, i: nat)
    requires n <= s * s && s < i
    ensures n < i * i
  {
    SquareMonotone(s + 1, i);
    assert (s + 1) * (s + 1) == s * s + 2 * s + 1;
  }

  /** Multiplying by c preserves <=. */
  lemma {:induction false} MulMonotone(a: nat, b: nat, c: nat)
    requires a <= b
    ensures c * a <= c * b && a * c <= b * c
  {
    if c > 0 {
      MulMonotone(a, b, c - 1);
      assert c * a == (c - 1) * a + a;
      assert c * b == (c - 1) * b + b;
    }
  }

  /** Cancelling a factor c from a strict inequality c * a < c * b. */
  lemma MulCancelLess(a: nat, b: nat, c: nat)
    requires c * a < c * b
    ensures a < b
  {
    if b <= a {
      MulMonotone(b, a, c);
      assert false;
    }
  }

  lemma SquareMonotone(a: nat, b: nat)
    requires a <= b
    ensures a * a <= b * b
  {
    MulMonotone(a, b, a);
    MulMonotone(a, b, b);
  }

  /** A number whose square is below b * b is below b. */
  lemma SquareBelow(a: nat, b: nat)
    requires a * a < b * b
    ensures a < b
  {
    if a >= b {
      SquareMonotone(b, a);
      assert false;
    }
  }

  /** Below `bound * bound`, the floor square root is below `bound`. */
  lemma FloorSqrtBelow(n: nat, bound: nat)
    requires n < bound * bound
    ensures FloorSqrt(n) < bound
  {
    var r := FloorSqrt(n);
    SquareBelow(r, bound);
  }

  lemma MulAtLeast(c: nat, k: nat)
    requires k >= 1
    ensures c * k >= c
  {
    MulMonotone(1, k, c);
  }

  /** A number of the form 2m + 1 is odd. */
  lemma OddForm(x: int, m: int)
    requires x == 2 * m + 1
    ensures x % 2 == 1
  {
    DivModUnique(x, 2, m, 1);
  }

  /** Quotient and remainder are unique. */
  lemma DivModUnique(a: int, c: int, q: int, r: int)
    requires c > 0 && 0 <= r < c && a == c * q + r
    ensures a / c == q && a % c == r
  {
    var q0, r0 := a / c, a % c;
    assert a == c * q0 + r0;
    assert c * (q - q0) == r0 - r;
    if q > q0 {
      MulAtLeast(c, q - q0);
      assert false;
    } else if q < q0 {
      MulAtLeast(c, q0 - q);
      assert false;
    }
  }

  lemma MulModZero(c: nat, m: nat)
    requires c > 0
    ensures (c * m) % c == 0 && (c * m) / c == m
  {
    DivModUnique(c * m, c, m, 0);
  }

  /** A multiple of c is c times its quotient. */
  lemma DivExact(a: nat, c: nat)
    requires c > 0 && a % c == 0
    ensures a == c * (a / c)
  {
  }

  /** If c divides b and b divides a, then c divides a. */
  lemma DividesTransitive(a: nat, b: nat, c: nat)
    requires b > 0 && c > 0
    requires a % b == 0 && b % c == 0
    ensures a % c == 0
  {
    var x := a / b;
    var y := b / c;
    DivExact(a, b);
    DivExact(b, c);
    assert a == c * (y * x);
    MulModZero(c, y * x);
  }
}
