/** Division by multiplication: how close (sum * floor(2^16 / n)) >> 16 comes to sum / n. */
module Average {
  import opened Reals

  const SCALE := 65536

  lemma {:induction false} MulOrder(a: int, b: int, k: int)
    requires a <= b && k >= 0
    ensures a * k <= b * k
  {
    MulSign(b - a, k);
    assert (b - a) * k == b * k - a * k;
  }

  lemma {:induction false} MulSign(a: nat, k: nat)
    ensures a * k >= 0
  {
    if a > 0 {
      MulSign(a - 1, k);
      assert a * k == (a - 1) * k + k;
    }
  }

  /** The quotient stays within the bounds of the samples: no sum can make it overflow. */
  lemma {:induction false} MeanInRange(sum: int, n: int, lo: int, hi: int)
    requires n >= 1 && lo <= 0 <= hi && n * lo <= sum <= n * hi
    ensures lo <= (sum * (SCALE / n)) / SCALE <= hi
  {
    var inv := SCALE / n;
    assert n * inv <= SCALE;
    MulOrder(sum, n * hi, inv);
    MulOrder(n * lo, sum, inv);
    assert n * hi * inv == hi * (n * inv) by { Reorder(n, hi, inv); }
    assert n * lo * inv == lo * (n * inv) by { Reorder(n, lo, inv); }
    MulOrder(n * inv, SCALE, hi);
    MulOrder(n * inv, SCALE, -lo);
    assert (n * inv) * (-lo) == -(lo * (n * inv));
    assert SCALE * lo <= sum * inv <= SCALE * hi;
  }

  lemma {:induction false} Reorder(a: int, b: int, d: int)
    ensures a * b * d == b * (a * d)
  {
    assert a * b == b * a;
    assert (b * a) * d == b * (a * d);
  }

  lemma {:induction false} ErrorIdentity(sum: int, n: int, inv: int, rest: int, q: int, f: int)
    requires n * inv == SCALE - rest && q * SCALE == sum * inv - f
    ensures q * n * SCALE - sum * SCALE == -(sum * rest) - n * f
  {
    Reorder(q, n, SCALE);
    assert q * n * SCALE == n * (sum * inv - f);
    assert n * (sum * inv - f) == n * (sum * inv) - n * f;
    assert n * (sum * inv) == sum * (n * inv) by {
      Reorder(n, sum, inv);
      assert n * sum * inv == n * (sum * inv);
    }
    assert sum * (SCALE - rest) == sum * SCALE - sum * rest;
  }

  /** The error before dividing, in units of 1 / (n * 2^16). */
  lemma {:induction false} MeanError(sum: int, n: int, bound: nat)
    requires n >= 1 && -(n * bound) <= sum <= n * bound
    ensures var q := (sum * (SCALE / n)) / SCALE;
            -(n * SCALE + n * (bound * (n - 1))) < q * n * SCALE - sum * SCALE < n * SCALE + n * (bound * (n - 1))
  {
    var inv, rest := SCALE / n, SCALE % n;
    var q, f := (sum * inv) / SCALE, (sum * inv) % SCALE;
    ErrorIdentity(sum, n, inv, rest, q, f);
    RestBound(sum, n * bound, rest, n);
    assert n * bound * (n - 1) == n * (bound * (n - 1));
    MulOrder(f, SCALE - 1, n);
    MulOrder(0, f, n);
    assert (SCALE - 1) * n == n * SCALE - n && f * n == n * f;
  }

  lemma {:induction false} RestBound(sum: int, limit: nat, rest: nat, n: int)
    requires -(limit as int) <= sum <= limit && rest < n
    ensures -(limit * (n - 1)) <= sum * rest <= limit * (n - 1)
  {
    MulOrder(sum, limit, rest);
    MulOrder(-(limit as int), sum, rest);
    MulOrder(rest, n - 1, limit);
    assert (-(limit as int)) * rest == -(limit * rest);
  }

  /** The mean by multiplication differs from the true mean by less than one unit plus
      2^(w-1) (n-1) / 2^16, for samples of magnitude at most bound = 2^(w-1). */
  lemma {:induction false} MeanBound(sum: int, n: int, bound: nat)
    requires n >= 1 && -(n * bound) <= sum <= n * bound
    ensures Abs(((sum * (SCALE / n)) / SCALE) as real - sum as real / n as real)
          < 1.0 + (bound * (n - 1)) as real / SCALE as real
  {
    var q := (sum * (SCALE / n)) / SCALE;
    var e := bound * (n - 1);
    MeanError(sum, n, bound);
    DivideOut(q, sum, n, e);
  }

  lemma {:induction false} DivideOut(q: int, sum: int, n: int, e: int)
    requires n >= 1
    requires -(n * SCALE + n * e) < q * n * SCALE - sum * SCALE < n * SCALE + n * e
    ensures Abs(q as real - sum as real / n as real) < 1.0 + e as real / SCALE as real
  {
    var x := sum as real / n as real;
    assert x * n as real == sum as real;
    var d := q as real - x;
    var lim := 1.0 + e as real / SCALE as real;
    var s := n as real * SCALE as real;
    assert d * s == (q * n * SCALE - sum * SCALE) as real;
    assert lim * s == (n * SCALE + n * e) as real;
    assert (-d) * s == -(d * s);
    StrictCancel(d, lim, s);
    StrictCancel(-d, lim, s);
  }

  /** When n divides 2^16 the mean is the exact floor of the true mean. */
  lemma {:induction false} MeanExact(sum: int, n: int)
    requires n >= 1 && SCALE % n == 0
    ensures (sum * (SCALE / n)) / SCALE == sum / n
  {
    var inv := SCALE / n;
    assert n * inv == SCALE;
    var q, r := sum / n, sum % n;
    assert sum == n * q + r;
    assert sum * inv == q * SCALE + r * inv by {
      assert (n * q + r) * inv == n * q * inv + r * inv;
      Reorder(n, q, inv);
    }
    MulOrder(r, n - 1, inv);
    MulOrder(0, r, inv);
    assert (n - 1) * inv == SCALE - inv;
    assert inv >= 1;
  }

  /** The three facts about the mean of n samples between lo and hi, of magnitude at most bound. */
  lemma {:induction false} Mean(sum: int, n: int, lo: int, hi: int, bound: nat)
    requires n >= 1 && lo <= 0 <= hi && n * lo <= sum <= n * hi && -(bound as int) <= lo && hi <= bound
    ensures var q := (sum * (SCALE / n)) / SCALE;
            && lo <= q <= hi
            && Abs(q as real - sum as real / n as real) < 1.0 + (bound * (n - 1)) as real / SCALE as real
            && (SCALE % n == 0 ==> q == sum / n)
  {
    MeanInRange(sum, n, lo, hi);
    MulOrder(hi, bound, n);
    MulOrder(-(bound as int), lo, n);
    assert (-(bound as int)) * n == -(n * bound);
    MeanBound(sum, n, bound);
    if SCALE % n == 0 {
      MeanExact(sum, n);
    }
  }

  /** A sum of n samples lies within m times their range when n <= m. */
  lemma {:induction false} SumInRange(sum: int, n: nat, m: nat, lo: int, p: nat)
    requires n <= m && lo <= 0 <= lo + p - 1 && n * lo <= sum <= n * (lo + p - 1)
    ensures m * lo <= sum <= m * lo + m * p - m
  {
    MulOrder(n, m, lo + p - 1);
    MulOrder(n, m, -lo);
    assert n * (-lo) == -(n * lo) && m * (-lo) == -(m * lo);
    assert m * (lo + p - 1) == m * lo + m * p - m;
  }
}
