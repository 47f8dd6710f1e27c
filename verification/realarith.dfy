/** Small facts of real arithmetic that the solver does not find by itself.
    Each is stated over plain variables so that callers can instantiate it
    without the solver having to rewrite inside products. */
module RealArith {

  /** Converting a product to a real is the product of the conversions. */
  lemma RealOfProduct(a: int, b: int)
    ensures (a * b) as real == a as real * b as real
  {
  }

  lemma DivMul(a: real, n: real)
    requires n != 0.0
    ensures n * (a / n) == a
  {
  }

  lemma MulPositive(p: real, q: real)
    requires p > 0.0 && q > 0.0
    ensures p * q > 0.0
  {
  }

  lemma MulPositive3(p: real, q: real, r: real)
    requires p > 0.0 && q > 0.0 && r > 0.0
    ensures p * q * r > 0.0
  {
    MulPositive(p, q);
    var pq := p * q;
    MulPositive(pq, r);
  }

  /** Squaring is strictly monotone on the non-negative reals. */
  lemma SquareStrictMonotone(a: real, b: real)
    requires a >= 0.0 && b >= 0.0
    ensures a < b <==> a * a < b * b
  {
    if a < b {
      MulPositive(b - a, b + a);
      assert (b - a) * (b + a) == b * b - a * a;
    } else if a > b {
      MulPositive(a - b, a + b);
      assert (a - b) * (a + b) == a * a - b * b;
    }
  }

  /** Scaling both sides by a positive square keeps a strict order. */
  lemma ScaleBySquare(n: real, x: real, y: real)
    requires n > 0.0
    ensures x < y <==> n * n * x < n * n * y
  {
    if x < y {
      MulPositive3(n, n, y - x);
    } else if y < x {
      MulPositive3(n, n, x - y);
    }
  }

  /** For a non-negative `t`, `-t <= d <= t` exactly when `d^2 <= t^2`. */
  lemma WithinByAbsSquare(d: real, t: real)
    requires t >= 0.0
    ensures (-t <= d <= t) <==> d * d <= t * t
  {
    var a := if d >= 0.0 then d else -d;
    assert a * a == d * d;
    SquareStrictMonotone(t, a);
  }

  /** Multiplying an interval test through by a positive `n`. */
  lemma ScaleInterval(n: real, d: real, t: real, e: real, u: real)
    requires n > 0.0 && e == n * d && u == n * t
    ensures (-t <= d <= t) <==> (-u <= e <= u)
  {
    if d < -t { MulPositive(n, -t - d); }
    if d > t { MulPositive(n, d - t); }
    if -t < d { MulPositive(n, d + t); }
    if d < t { MulPositive(n, t - d); }
  }

  /** `x` lies within `k * sigma` of `m` exactly when the `n`-fold deviation
      `e`, squared, is at most `k^2` times `spread`, where `spread` is
      `n^2 * sigma^2`. */
  lemma IntervalBySquare(n: real, m: real, x: real, e: real, k: real, sigma: real, spread: real)
    requires n > 0.0 && k >= 0.0 && sigma >= 0.0
    requires n * n * (sigma * sigma) == spread && e == n * (x - m)
    ensures m - k * sigma <= x <= m + k * sigma <==> e * e <= k * k * spread
  {
    var t := k * sigma;
    var u := n * t;
    assert t >= 0.0 by {
      if k > 0.0 && sigma > 0.0 { MulPositive(k, sigma); }
    }
    ScaleInterval(n, x - m, t, e, u);
    WithinByAbsSquare(e, u);
    assert u * u == k * k * spread;
  }

  /** One step of expanding a sum of squared deviations from `m`: `x`
      joins `n` values with sum `s`, sum of squares `q` and squared
      deviations `d`, giving `n'`, `s'`, `q'` and `d'`. */
  lemma ExpandStep(x: real, m: real, n: real, s: real, q: real, d: real,
                   n': real, s': real, q': real, d': real)
    requires d == q - 2.0 * m * s + n * m * m
    requires n' == n + 1.0 && s' == x + s && q' == x * x + q && d' == (x - m) * (x - m) + d
    ensures d' == q' - 2.0 * m * s' + n' * m * m
  {
    assert (x - m) * (x - m) == x * x - 2.0 * m * x + m * m;
    assert 2.0 * m * (x + s) == 2.0 * m * x + 2.0 * m * s;
    assert (1.0 + n) * m * m == m * m + n * m * m;
  }

  /** `n` values with sum `s`, sum of squares `q` and mean `m`, whose
      squared deviations from `m` sum to `d`: then `n d` is the spread
      `n q - s^2`. */
  lemma AtMeanCore(n: int, s: int, q: int, m: real, d: real)
    requires n > 0 && m == s as real / n as real
    requires d == q as real - 2.0 * m * s as real + n as real * m * m
    ensures n as real * d == (n * q - s * s) as real
  {
    var nr, sr := n as real, s as real;
    DivMul(sr, nr);
    RealOfProduct(n, q);
    RealOfProduct(s, s);
    var nm := nr * m;
    assert nm == sr;
    assert nr * d == nr * q as real - 2.0 * nm * sr + nm * nm;
  }

  /** A quotient `v = d / n` scaled by `n^2` is `n d`. */
  lemma DivScale(n: real, d: real, v: real)
    requires n > 0.0 && v == d / n
    ensures n * n * v == n * d
  {
    DivMul(d, n);
  }
}
