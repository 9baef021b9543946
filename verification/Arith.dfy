/** Facts about products, quotients and remainders that the solver does not find on its own. */
module Arith {

  /** The number of values of a u_int. */
  const UINT_SPAN: nat := 0x1_0000_0000

  lemma MulMono(a: nat, b: nat, k: nat)
    requires a <= b
    ensures a * k <= b * k
  {}

  lemma MulStep(a: nat, k: nat)
    ensures (a + 1) * k == a * k + k
  {}

  lemma MulApart(k: nat, b: nat, c: nat)
    requires b < c
    ensures b * k + k <= c * k
  {
    MulStep(b, k);
    MulMono(b + 1, c, k);
  }

  lemma Distribute(a: int, b: int, f: nat)
    ensures (a + b) * f == a * f + b * f
  {}

  lemma SmallMod(x: nat, m: nat)
    requires x < m
    ensures x % m == x && x / m == 0
  {}

  lemma DivisionLaw(x: nat, m: nat)
    requires m > 0
    ensures x == (x / m) * m + x % m
  {}

  /** Quotient and remainder of c * m + r. */
  lemma DivModBase(c: nat, m: nat, r: nat)
    requires r < m
    ensures (c * m + r) / m == c && (c * m + r) % m == r
  {
    var x := c * m + r;
    var q := x / m;
    DivisionLaw(x, m);
    if q < c {
      MulApart(m, q, c);
      assert false;
    } else if q > c {
      MulApart(m, c, q);
      assert false;
    }
  }

  /** One step along the multiples of f stays on them, and below any larger one. */
  lemma NextMultiple(d: nat, f: nat, n: nat)
    requires f > 0 && d % f == 0 && n % f == 0 && d < n
    ensures (d + f) % f == 0 && d + f <= n
  {
    var a, b := d / f, n / f;
    DivisionLaw(d, f);
    DivisionLaw(n, f);
    if b <= a {
      MulMono(b, a, f);
      assert false;
    }
    MulApart(f, a, b);
    MulStep(a, f);
    DivModBase(a + 1, f, 0);
  }

  lemma AddMod(t: nat, r: nat, f: nat)
    requires f > 0 && t % f == 0
    ensures (t + r) % f == r % f
  {
    DivisionLaw(t, f);
    DivisionLaw(r, f);
    Distribute(t / f, r / f, f);
    DivModBase(t / f + r / f, f, r % f);
  }

  /** The largest multiple of m up to x. */
  function DownTo(x: nat, m: nat): (r: nat)
    requires m > 0
    ensures r <= x
  {
    x - x % m
  }

  /** Rounding down to f and taking the remainder by a multiple of f can be done in either order. */
  lemma DownMod(w: nat, m: nat, f: nat)
    requires f > 0 && m > 0 && m % f == 0
    ensures DownTo(w, f) % m == DownTo(w % m, f)
  {
    var q, at := w / m, w % m;
    DivisionLaw(w, m);
    ProductMod(q, m, f);
    AddMod(q * m, at, f);
    assert DownTo(w, f) == q * m + DownTo(at, f);
    DivModBase(q, m, DownTo(at, f));
  }

  lemma Regroup(a: nat, b: nat, f: nat)
    ensures a * (b * f) == (a * b) * f
  {}

  lemma ProductMod(q: nat, m: nat, f: nat)
    requires f > 0 && m % f == 0
    ensures (q * m) % f == 0
  {
    DivisionLaw(m, f);
    Regroup(q, m / f, f);
    DivModBase(q * (m / f), f, 0);
  }
}
