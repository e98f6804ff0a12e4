/** Facts about products of real numbers that the solver has to be given one at a time. */
module Reals {

  function Abs(x: real): real {
    if x < 0.0 then -x else x
  }

  lemma {:induction false} SubMul(x: real, y: real, s: real)
    ensures (x - y) * s == x * s - y * s
  {
  }

  lemma {:induction false} DivMul(x: real, s: real)
    requires s > 0.0
    ensures x / s * s == x
  {
  }

  lemma {:induction false} ProductSign(d: real, s: real)
    requires s > 0.0
    ensures d >= 0.0 ==> d * s >= 0.0
    ensures d > 0.0 ==> d * s > 0.0
  {
  }

  lemma {:induction false} MulMonotone(x: real, y: real, s: real)
    requires x <= y && s > 0.0
    ensures x * s <= y * s
  {
    SubMul(y, x, s);
    ProductSign(y - x, s);
  }

  lemma {:induction false} MulCancel(x: real, y: real, s: real)
    requires x * s <= y * s && s > 0.0
    ensures x <= y
  {
    ProductSign(x - y, s);
    SubMul(x, y, s);
  }

  lemma {:induction false} StrictCancel(x: real, y: real, s: real)
    requires s > 0.0 && x * s < y * s
    ensures x < y
  {
    ProductSign(x - y, s);
    SubMul(x, y, s);
  }
}
