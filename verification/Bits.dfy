/** Fixed-width arithmetic as the hardware does it: powers of two, the width a
    number needs, and what is left of a number once it is stored in so many bits. */
module Bits {

  function Pow2(n: nat): (p: nat)
    ensures p >= 1
  {
    if n == 0 then 1 else 2 * Pow2(n - 1)
  }

  /** The bit length of n, as Python's int.bit_length. */
  function BitLength(n: nat): nat {
    if n == 0 then 0 else 1 + BitLength(n / 2)
  }

  /** Bits reserved for a signal that has to hold n: its bit length, at least one. */
  function Length(n: nat): nat {
    if n == 0 then 1 else BitLength(n)
  }

  /** What an unsigned signal of width w holds after being assigned v. */
  function Trunc(v: int, w: nat): (r: nat)
    ensures r < Pow2(w)
  {
    v % Pow2(w)
  }

  /** What a signed signal of width w >= 1 holds after being assigned v. */
  function Sext(v: int, w: nat): int
    requires w >= 1
  {
    (v + Pow2(w - 1)) % Pow2(w) - Pow2(w - 1)
  }

  predicate FitsSigned(v: int, w: nat)
    requires w >= 1
  {
    -(Pow2(w - 1) as int) <= v < Pow2(w - 1)
  }

  function Max(a: nat, b: nat): nat {
    if a < b then b else a
  }

  function Min(a: nat, b: nat): nat {
    if a < b then a else b
  }

  lemma {:induction false} LengthHolds(n: nat)
    ensures Length(n) >= 1
    ensures n < Pow2(Length(n))
  {
    if n >= 2 {
      LengthHolds(n / 2);
      assert Length(n) == 1 + Length(n / 2);
    }
  }

  /** No fewer bits would do. */
  lemma {:induction false} LengthLeast(n: nat)
    requires n >= 1
    ensures Pow2(Length(n) - 1) <= n
  {
    if n >= 2 {
      LengthLeast(n / 2);
      assert Length(n) == 1 + Length(n / 2);
    }
  }

  lemma {:induction false} LengthIs(n: nat, bits: nat)
    requires bits >= 1 && n < Pow2(bits) && (bits >= 2 ==> Pow2(bits - 1) <= n)
    ensures Length(n) == bits
    decreases n
  {
    if n >= 2 {
      assert Length(n) == 1 + Length(n / 2);
      assert Pow2(bits) == 2 * Pow2(bits - 1) && bits >= 2;
      LengthIs(n / 2, bits - 1);
    }
  }

  lemma {:induction false} Pow2Monotone(a: nat, b: nat)
    requires a <= b
    ensures Pow2(a) <= Pow2(b)
  {
    if a < b {
      Pow2Monotone(a, b - 1);
    }
  }

  lemma {:induction false} Pow2Add(a: nat, b: nat)
    ensures Pow2(a + b) == Pow2(a) * Pow2(b)
  {
    if a > 0 {
      Pow2Add(a - 1, b);
    }
  }

  lemma {:induction false} MulAtLeast(d: nat, m: nat)
    requires d >= 1
    ensures d * m >= m
  {
    if d > 1 {
      MulAtLeast(d - 1, m);
      assert d * m == (d - 1) * m + m;
    }
  }

  lemma {:induction false} MulApart(d: int, m: nat)
    ensures d >= 1 ==> d * m >= m
    ensures d <= -1 ==> d * m <= -(m as int)
  {
    if d >= 1 {
      MulAtLeast(d, m);
    } else if d <= -1 {
      assert (-d) * m == -(d * m);
      MulAtLeast(-d, m);
    }
  }

  lemma {:induction false} DivisionUnique(m: int, a: int, r: int, b: int, t: int)
    requires 0 <= r < m && 0 <= t < m && a * m + r == b * m + t
    ensures a == b && r == t
  {
    var d := a - b;
    assert d * m == t - r by {
      assert d * m == a * m - b * m;
    }
    MulApart(d, m);
  }

  lemma {:induction false} ModUnique(x: int, m: int, q: int, r: int)
    requires 0 <= r < m && x == q * m + r
    ensures x % m == r && x / m == q
  {
    var a, t := x / m, x % m;
    assert x == a * m + t;
    DivisionUnique(m, q, r, a, t);
  }

  lemma {:induction false} ModAtMost(x: nat, m: nat)
    requires m > 0
    ensures x % m <= x
  {
    if x < m {
      ModUnique(x, m, 0, x);
    }
  }

  /** Two numbers a multiple of m apart leave the same remainder, and no others do. */
  lemma {:induction false} ModShift(x: int, m: int, q: int)
    requires m > 0
    ensures (x + q * m) % m == x % m
  {
    assert x == m * (x / m) + x % m;
    assert m * (x / m) == (x / m) * m;
    assert (x / m + q) * m == (x / m) * m + q * m;
    ModUnique(x + q * m, m, x / m + q, x % m);
  }

  lemma {:induction false} ModAdd(x: int, y: int, m: int)
    requires m > 0
    ensures (x + y % m) % m == (x + y) % m
  {
    assert y == m * (y / m) + y % m;
    assert m * (y / m) == (y / m) * m;
    ModShift(x + y % m, m, y / m);
  }

  lemma {:induction false} TruncFits(v: int, w: nat)
    requires 0 <= v < Pow2(w)
    ensures Trunc(v, w) == v
  {
    ModUnique(v, Pow2(w), 0, v);
  }

  lemma {:induction false} SextFits(v: int, w: nat)
    requires w >= 1 && FitsSigned(v, w)
    ensures Sext(v, w) == v
  {
    assert Pow2(w) == 2 * Pow2(w - 1);
    ModUnique(v + Pow2(w - 1), Pow2(w), 0, v + Pow2(w - 1));
  }

  lemma {:induction false} SextAdd(a: int, x: int, w: nat)
    requires w >= 1
    ensures Sext(Sext(a, w) + x, w) == Sext(a + x, w)
  {
    var h := Pow2(w - 1);
    ModAdd(x, a + h, Pow2(w));
    assert x + (a + h) == a + x + h;
    assert x + (a + h) % Pow2(w) == Sext(a, w) + x + h;
  }

  lemma {:induction false} SextWide(v: int, w: nat, extra: nat)
    requires w >= 1 && -((Pow2(extra) * Pow2(w - 1)) as int) <= v < Pow2(extra) * Pow2(w - 1)
    ensures Sext(v, w + extra) == v
  {
    Pow2Add(extra, w - 1);
    assert extra + (w - 1) == w + extra - 1;
    SextFits(v, w + extra);
  }

  lemma {:induction false} TruncWide(v: int, w: nat, extra: nat)
    requires 0 <= v < Pow2(extra) * Pow2(w)
    ensures Trunc(v, w + extra) == v
  {
    Pow2Add(extra, w);
    assert extra + w == w + extra;
    TruncFits(v, w + extra);
  }

  /** Cutting to more bits first makes no difference. */
  lemma {:induction false} TruncTwice(v: int, w: nat, extra: nat)
    ensures Trunc(Trunc(v, w + extra), w) == Trunc(v, w)
  {
    var m, p := Pow2(w), Pow2(w + extra);
    Pow2Add(extra, w);
    assert p == Pow2(extra) * m;
    var q := v / p;
    assert v % p == v - p * q;
    assert p * q == (Pow2(extra) * q) * m by {
      assert Pow2(extra) * m * q == (Pow2(extra) * q) * m;
    }
    ModShift(v % p, m, Pow2(extra) * q);
  }

  /** Appending a bit at the bottom. */
  lemma {:induction false} TruncDouble(v: int, bit: int, w: nat)
    requires 0 <= bit <= 1
    ensures Trunc(2 * v + bit, w + 1) == 2 * Trunc(v, w) + bit
  {
    var m, q, r := Pow2(w), v / Pow2(w), v % Pow2(w);
    assert v == q * m + r;
    assert 2 * v + bit == q * (2 * m) + (2 * r + bit);
    ModUnique(2 * v + bit, 2 * m, q, 2 * r + bit);
  }
}
