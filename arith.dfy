/** Facts about natural-number multiplication, division and remainder that
    the row-major addressing relies on. */
module Arith {

  lemma {:induction false} MulMonotone(a: nat, b: nat, c: nat)
    requires a <= b
    ensures a * c <= b * c
  {
    if a < b {
      MulMonotone(a, b - 1, c);
      assert b * c == (b - 1) * c + c;
    }
  }

  lemma ProductZero(a: nat, b: nat)
    ensures a * b == 0 <==> a == 0 || b == 0
  {
    if a > 0 && b > 0 {
      MulMonotone(1, a, b);
    }
  }

  /** `nz` layers of `nx * ny` points hold `nx * ny * nz` points. */
  lemma LayersVolume(nx: nat, ny: nat, nz: nat)
    ensures nz * nx * ny == nx * ny * nz
  {
    assert nz * nx * ny == nz * (nx * ny);
  }

  /** Division by `n` recovers quotient and remainder. */
  lemma DivModUnique(q: nat, r: nat, n: nat)
    requires n > 0 && r < n
    ensures (q * n + r) / n == q && (q * n + r) % n == r
  {
    var x := q * n + r;
    var p := x / n;
    assert x == p * n + x % n;
    if p > q {
      assert (q + 1) * n == q * n + n;
      MulMonotone(q + 1, p, n);
    } else if p < q {
      assert (p + 1) * n == p * n + n;
      MulMonotone(p + 1, q, n);
    }
  }

  /** Dividing by `a * b` is dividing by `a`, then by `b`. */
  lemma DivDivMul(x: nat, a: nat, b: nat)
    requires a > 0 && b > 0
    ensures a * b > 0
    ensures x / (a * b) == (x / a) / b
    ensures (x / a) % b == (x % (a * b)) / a
  {
    MixedRadix(x, a, b, a * b, (x / a) / b, (x / a) % b, x % a);
  }

  /** Splitting `x` by `a` into `x / a` and `r1`, then `x / a` by `b` into
      `q` and `r2`, gives its quotient `q` by `m == a * b` and the
      remainder `r2 * a + r1`, whose quotient by `a` is `r2`. */
  lemma MixedRadix(x: nat, a: nat, b: nat, m: nat, q: nat, r2: nat, r1: nat)
    requires a > 0 && b > 0 && m == a * b
    requires q == (x / a) / b && r2 == (x / a) % b && r1 == x % a
    ensures m > 0 && x / m == q && x % m == r2 * a + r1 && (x % m) / a == r2
  {
    MulMonotone(1, a, b);
    RegroupDigits(x, a, b, q, r2, r1);
    DigitBound(a, b, r2, r1);
    DivModOf(x, q, r2 * a + r1, m);
    DivModOf(r2 * a + r1, r2, r1, a);
  }

  /** `x` is `q` times `n` plus `r`, so `q` and `r` are its quotient and
      remainder by `n`. */
  lemma DivModOf(x: nat, q: nat, r: nat, n: nat)
    requires n > 0 && r < n && x == q * n + r
    ensures x / n == q && x % n == r
  {
    DivModUnique(q, r, n);
  }

  /** Two mixed-radix digits regroup into one remainder modulo `a * b`. */
  lemma RegroupDigits(x: nat, a: nat, b: nat, q: nat, r2: nat, r1: nat)
    requires a > 0 && b > 0
    requires q == (x / a) / b && r2 == (x / a) % b && r1 == x % a
    ensures x == q * (a * b) + (r2 * a + r1)
  {
    assert x / a == q * b + r2;
    assert x == (x / a) * a + r1;
    assert (q * b + r2) * a == q * (a * b) + r2 * a;
  }

  /** The low digits `r2, r1` of radices `b, a` stay below `a * b`. */
  lemma DigitBound(a: nat, b: nat, r2: nat, r1: nat)
    requires r2 < b && r1 < a
    ensures r2 * a + r1 < a * b
  {
    MulMonotone(r2, b - 1, a);
    assert (b - 1) * a == a * b - a;
  }

  lemma QuotientPositive(x: nat, n: nat)
    requires n > 0
    ensures x / n > 0 <==> x >= n
    ensures x % n < n
  {
    assert x == (x / n) * n + x % n;
    if x / n > 0 {
      MulMonotone(1, x / n, n);
    }
  }

  /** `k` layers of `nx * ny` are `k - 1` layers and one more. */
  lemma NextLayer(k: nat, nx: nat, ny: nat)
    requires k > 0
    ensures k * nx * ny == (k - 1) * nx * ny + ny * nx
  {
    assert k * nx == (k - 1) * nx + nx;
    assert (k * nx) * ny == ((k - 1) * nx) * ny + nx * ny;
  }

  /** A position lies in the first `ny` rows of width `nx` iff its row
      index is below `ny`. */
  lemma RowBound(p: nat, nx: nat, ny: nat)
    requires nx > 0
    ensures p < nx * ny <==> p / nx < ny
  {
    var q, r := p / nx, p % nx;
    assert p == q * nx + r;
    if q >= ny {
      MulMonotone(ny, q, nx);
    } else {
      assert (q + 1) * nx == q * nx + nx;
      MulMonotone(q + 1, ny, nx);
    }
  }

  /** The East step inside a row keeps the row and advances the column. */
  lemma EastStep(p: nat, nx: nat)
    requires nx > 0 && p % nx + 1 < nx
    ensures (p + 1) / nx == p / nx && (p + 1) % nx == p % nx + 1
  {
    assert p == (p / nx) * nx + p % nx;
    DivModUnique(p / nx, p % nx + 1, nx);
  }

  /** The North step keeps the column and advances the row. */
  lemma NorthStep(p: nat, nx: nat)
    requires nx > 0
    ensures (p + nx) / nx == p / nx + 1 && (p + nx) % nx == p % nx
  {
    var q, r := p / nx, p % nx;
    assert p + nx == (q + 1) * nx + r;
    DivModUnique(q + 1, r, nx);
  }

  /** One more full row of `nx - 1` cells. */
  lemma NextRowOfCells(j: nat, nx: nat)
    requires j > 0 && nx > 0
    ensures j * nx == (j - 1) * nx + nx
    ensures j * (nx - 1) == (j - 1) * (nx - 1) + (nx - 1)
  {
  }
}
