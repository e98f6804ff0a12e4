/** The proportional-integral controller: a four-stage pipeline of fixed-width signed registers. */
module Pid {
  import opened Bits
  import opened Clocked

  /** The width of the signals, and the gains, held constant. */
  datatype Config = Config(width: nat, kp: int, ki: int)
  {
    predicate Valid() { width >= 1 && FitsSigned(kp, width) && FitsSigned(ki, width) }
  }

  datatype Input = Input(input: int, setpoint: int)

  datatype State = State(error: int, prop: int, integral: int, intSum: int, sum: int, out: int)

  const POWER_UP := State(0, 0, 0, 0, 0, 0)

  function Step(c: Config, s: State, i: Input): State
    requires c.Valid()
  {
    State(Sext(i.input - i.setpoint, c.width + 1),
          Sext(s.error * c.kp, 2 * c.width + 1),
          Sext(s.error * c.ki, 2 * c.width + 1),
          Sext(s.intSum + s.integral, 2 * c.width + 1),
          Sext(s.prop + s.intSum, 2 * c.width + 2),
          Sext(Trunc(s.sum, c.width), c.width))
  }

  function Edge(c: Config): (State, Input) -> State
    requires c.Valid()
  {
    (s, i) => Step(c, s, i)
  }

  class Controller {
    const c: Config
    var error: int
    var prop: int
    var integral: int
    var intSum: int
    var sum: int
    var out: int

    ghost function View(): State
      reads this
    {
      State(error, prop, integral, intSum, sum, out)
    }

    constructor (c: Config)
      ensures this.c == c && View() == POWER_UP
    {
      this.c := c;
      error, prop, integral, intSum, sum, out := 0, 0, 0, 0, 0, 0;
    }

    /** Every register takes a function of the registers before the edge: last stage first. */
    method Tick(input: int, setpoint: int)
      requires c.Valid()
      modifies this
      ensures View() == Step(c, old(View()), Input(input, setpoint))
    {
      out := Sext(Trunc(sum, c.width), c.width);
      sum := Sext(prop + intSum, 2 * c.width + 2);
      intSum := Sext(intSum + integral, 2 * c.width + 1);
      prop, integral := Sext(error * c.kp, 2 * c.width + 1), Sext(error * c.ki, 2 * c.width + 1);
      error := Sext(input - setpoint, c.width + 1);
    }
  }

  // ---------------------------------------------------------------- the ideal law

  ghost predicate InSignal(c: Config, ins: seq<Input>)
    requires c.Valid()
  {
    forall k :: 0 <= k < |ins| ==> FitsSigned(ins[k].input, c.width) && FitsSigned(ins[k].setpoint, c.width)
  }

  function Error(i: Input): int { i.input - i.setpoint }

  function Errors(ins: seq<Input>): seq<int> {
    seq(|ins|, k requires 0 <= k < |ins| => Error(ins[k]))
  }

  /** The integral part over unbounded integers. */
  function Integral(ki: int, es: seq<int>): int {
    if es == [] then 0 else Integral(ki, es[..|es| - 1]) + es[|es| - 1] * ki
  }

  /** The control law: the proportional part of the error of cycle t, and the integral part of all
      errors before it. */
  function Law(c: Config, es: seq<int>, t: nat): int
    requires t < |es|
  {
    es[t] * c.kp + Integral(c.ki, es[..t])
  }

  /** The error of so many cycles ago, zero before the beginning. */
  function Ago(es: seq<int>, n: nat): int {
    if 0 < n <= |es| then es[|es| - n] else 0
  }

  function Before(es: seq<int>, n: nat): seq<int> {
    if n <= |es| then es[..|es| - n] else []
  }

  ghost predicate Congruent(x: int, y: int, m: nat)
    requires m > 0
  {
    x % m == y % m
  }

  /** What every register holds after the errors es: the first stages exactly, the accumulating
      ones up to the width they wrap around at. */
  ghost predicate Holds(c: Config, s: State, es: seq<int>)
    requires c.Valid()
  {
    && s.error == Ago(es, 1)
    && s.prop == Ago(es, 2) * c.kp
    && s.integral == Ago(es, 2) * c.ki
    && Congruent(s.intSum, Integral(c.ki, Before(es, 2)), Pow2(2 * c.width + 1))
    && Congruent(s.sum, Ago(es, 3) * c.kp + Integral(c.ki, Before(es, 3)), Pow2(c.width))
    && FitsSigned(s.out, c.width)
    && Congruent(s.out, Ago(es, 4) * c.kp + Integral(c.ki, Before(es, 4)), Pow2(c.width))
  }

  lemma {:induction false} SextCongruent(v: int, w: nat)
    requires w >= 1
    ensures Congruent(Sext(v, w), v, Pow2(w)) && FitsSigned(Sext(v, w), w)
  {
    assert Pow2(w) == 2 * Pow2(w - 1);
    SplitOff(v, Pow2(w - 1), Pow2(w));
  }

  lemma {:induction false} SplitOff(v: int, h: int, m: nat)
    requires m > 0
    ensures Congruent((v + h) % m - h, v, m) && -h <= (v + h) % m - h < m - h
  {
    var q, r := (v + h) / m, (v + h) % m;
    assert v == (r - h) + q * m;
    ModShift(r - h, m, q);
  }

  /** Congruence to a wider modulus implies congruence to a narrower one. */
  lemma {:induction false} Narrow(x: int, y: int, w: nat, extra: nat)
    requires Congruent(x, y, Pow2(w + extra))
    ensures Congruent(x, y, Pow2(w))
  {
    TruncTwice(x, w, extra);
    TruncTwice(y, w, extra);
  }

  lemma {:induction false} CongruentSum(x: int, y: int, a: int, m: nat)
    requires m > 0 && Congruent(x, y, m)
    ensures Congruent(a + x, a + y, m)
  {
    ModAdd(a, x, m);
    ModAdd(a, y, m);
  }

  /** No input makes the error or its products overflow. */
  lemma {:induction false} ProductsFit(c: Config, e: int, k: int)
    requires c.Valid() && FitsSigned(k, c.width) && -(Pow2(c.width) as int) < e < Pow2(c.width)
    ensures FitsSigned(e, c.width + 1) && FitsSigned(e * k, 2 * c.width + 1)
  {
    var h, p := Pow2(c.width - 1), Pow2(c.width);
    Pow2Add(c.width, c.width);
    assert p * p == Pow2(2 * c.width) by {
      assert c.width + c.width == 2 * c.width;
    }
    ProductBound(e, k, p);
  }

  lemma {:induction false} ProductBound(e: int, k: int, p: nat)
    requires -(p as int) < e < p && -(p as int) < k < p
    ensures -(p * p) < e * k < p * p
  {
  }

  lemma {:induction false} IntegralSnoc(ki: int, b: seq<int>, x: int)
    ensures Integral(ki, b + [x]) == Integral(ki, b) + x * ki
  {
    assert (b + [x])[..|b|] == b;
  }

  lemma {:induction false} IntegralStep(ki: int, es: seq<int>)
    ensures Integral(ki, Before(es, 2)) + Ago(es, 2) * ki == Integral(ki, Before(es, 1))
  {
    if |es| >= 2 {
      var b, x := es[..|es| - 2], es[|es| - 2];
      IntegralSnoc(ki, b, x);
      assert b + [x] == es[..|es| - 1];
    }
  }

  /** One cycle later everything has moved on by one error. */
  lemma {:induction false} Shift(es: seq<int>, e: int)
    ensures Ago(es + [e], 1) == e
    ensures Ago(es + [e], 2) == Ago(es, 1) && Before(es + [e], 2) == Before(es, 1)
    ensures Ago(es + [e], 3) == Ago(es, 2) && Before(es + [e], 3) == Before(es, 2)
    ensures Ago(es + [e], 4) == Ago(es, 3) && Before(es + [e], 4) == Before(es, 3)
  {
  }

  /** An error that signals of the controller's width can have. */
  ghost predicate ErrorInRange(c: Config, e: int) {
    -(Pow2(c.width) as int) < e < Pow2(c.width)
  }

  /** The first stages are exact. */
  lemma {:induction false} ProductStage(c: Config, e: int, k: int)
    requires c.Valid() && FitsSigned(k, c.width) && ErrorInRange(c, e)
    ensures Sext(e, c.width + 1) == e && Sext(e * k, 2 * c.width + 1) == e * k
  {
    ProductsFit(c, e, k);
    SextFits(e, c.width + 1);
    SextFits(e * k, 2 * c.width + 1);
  }

  lemma {:induction false} SumsStep(c: Config, s: State, es: seq<int>, i: Input)
    requires c.Valid() && Holds(c, s, es)
    ensures var t := Step(c, s, i);
            && Congruent(t.intSum, Integral(c.ki, Before(es, 1)), Pow2(2 * c.width + 1))
            && Congruent(t.sum, Ago(es, 2) * c.kp + Integral(c.ki, Before(es, 2)), Pow2(c.width))
            && Congruent(t.out, Ago(es, 3) * c.kp + Integral(c.ki, Before(es, 3)), Pow2(c.width))
            && FitsSigned(t.out, c.width)
  {
    var w := c.width;
    SextCongruent(s.intSum + s.integral, 2 * w + 1);
    CongruentSum(s.intSum, Integral(c.ki, Before(es, 2)), s.integral, Pow2(2 * w + 1));
    IntegralStep(c.ki, es);
    SextCongruent(s.prop + s.intSum, 2 * w + 2);
    assert w + (w + 2) == 2 * w + 2 && w + (w + 1) == 2 * w + 1;
    Narrow(Sext(s.prop + s.intSum, 2 * w + 2), s.prop + s.intSum, w, w + 2);
    Narrow(s.intSum, Integral(c.ki, Before(es, 2)), w, w + 1);
    CongruentSum(s.intSum, Integral(c.ki, Before(es, 2)), s.prop, Pow2(w));
    SextCongruent(Trunc(s.sum, w), w);
    TruncTwice(s.sum, w, 0);
  }

  lemma {:induction false} HoldsStep(c: Config, s: State, es: seq<int>, i: Input)
    requires c.Valid() && ErrorInRange(c, Ago(es, 1)) && ErrorInRange(c, Error(i)) && Holds(c, s, es)
    ensures Holds(c, Step(c, s, i), es + [Error(i)])
  {
    ProductStage(c, Error(i), c.kp);
    ProductStage(c, Ago(es, 1), c.kp);
    ProductStage(c, Ago(es, 1), c.ki);
    SumsStep(c, s, es, i);
    Shift(es, Error(i));
  }

  lemma {:induction false} ErrorFits(c: Config, i: Input)
    requires c.Valid() && FitsSigned(i.input, c.width) && FitsSigned(i.setpoint, c.width)
    ensures ErrorInRange(c, Error(i))
  {
    assert Pow2(c.width) == 2 * Pow2(c.width - 1);
  }

  lemma {:induction false} LastErrorFits(c: Config, ins: seq<Input>)
    requires c.Valid() && InSignal(c, ins)
    ensures ErrorInRange(c, Ago(Errors(ins), 1))
  {
    if ins != [] {
      ErrorFits(c, ins[|ins| - 1]);
    }
  }

  lemma {:induction false} ErrorsLast(ins: seq<Input>)
    requires ins != []
    ensures Errors(ins) == Errors(ins[..|ins| - 1]) + [Error(ins[|ins| - 1])]
  {
  }

  lemma {:induction false} AlwaysHolds(c: Config, ins: seq<Input>)
    requires c.Valid() && InSignal(c, ins)
    ensures Holds(c, Run(Edge(c), POWER_UP, ins), Errors(ins))
    decreases |ins|
  {
    if ins != [] {
      var n := |ins| - 1;
      var before, es := ins[..n], Errors(ins[..n]);
      var s := Run(Edge(c), POWER_UP, before);
      AlwaysHolds(c, before);
      LastErrorFits(c, before);
      ErrorFits(c, ins[n]);
      HoldsStep(c, s, es, ins[n]);
      RunLast(Edge(c), POWER_UP, ins);
      assert Run(Edge(c), POWER_UP, ins) == Step(c, s, ins[n]);
      ErrorsLast(ins);
    }
  }

  /** Refinement of the ideal law: for every input sequence, four cycles later the output is the law
      over unbounded integers, up to a multiple of 2^width, although the sum of the integral part
      wraps around; the error and both products are exact. */
  lemma {:induction false} RefinesLaw(c: Config, ins: seq<Input>)
    requires c.width >= 1 && FitsSigned(c.kp, c.width) && FitsSigned(c.ki, c.width) && InSignal(c, ins) && |ins| >= 4
    ensures var s, es, n := Run(Edge(c), POWER_UP, ins), Errors(ins), |ins|;
            && Congruent(s.out, Law(c, es, n - 4), Pow2(c.width)) && FitsSigned(s.out, c.width)
            && s.error == ins[n - 1].input - ins[n - 1].setpoint
            && s.prop == (ins[n - 2].input - ins[n - 2].setpoint) * c.kp
            && s.integral == (ins[n - 2].input - ins[n - 2].setpoint) * c.ki
  {
    AlwaysHolds(c, ins);
  }

  /** The differences of input and setpoint, added up. */
  function Total(ins: seq<Input>): int {
    if ins == [] then 0 else Total(ins[..|ins| - 1]) + ins[|ins| - 1].input - ins[|ins| - 1].setpoint
  }

  /** The law in terms of the inputs: the proportional gain times the error of cycle t, plus the integral
      gain times the sum of all errors before. */
  lemma {:induction false} LawIs(c: Config, ins: seq<Input>, t: nat)
    requires t < |ins|
    ensures Law(c, Errors(ins), t) == c.kp * (ins[t].input - ins[t].setpoint) + c.ki * Total(ins[..t])
  {
    IntegralIs(c.ki, ins[..t]);
    assert Errors(ins)[..t] == Errors(ins[..t]);
  }

  lemma {:induction false} IntegralIs(ki: int, ins: seq<Input>)
    ensures Integral(ki, Errors(ins)) == ki * Total(ins)
    decreases |ins|
  {
    if ins != [] {
      var before, e := ins[..|ins| - 1], Error(ins[|ins| - 1]);
      IntegralIs(ki, before);
      ErrorsLast(ins);
      IntegralSnoc(ki, Errors(before), e);
      AddMul(ki, Total(before), e);
    }
  }

  lemma {:induction false} AddMul(k: int, a: int, b: int)
    ensures k * (a + b) == k * a + b * k
  {
  }

  /** The output is the law itself exactly when the law fits the output. */
  lemma {:induction false} ExactIff(c: Config, ins: seq<Input>)
    requires c.width >= 1 && FitsSigned(c.kp, c.width) && FitsSigned(c.ki, c.width) && InSignal(c, ins) && |ins| >= 4
    ensures var law := Law(c, Errors(ins), |ins| - 4);
            Run(Edge(c), POWER_UP, ins).out == law <==> FitsSigned(law, c.width)
  {
    RefinesLaw(c, ins);
    CongruentInRange(Run(Edge(c), POWER_UP, ins).out, Law(c, Errors(ins), |ins| - 4), c.width);
  }

  lemma {:induction false} CongruentInRange(x: int, y: int, w: nat)
    requires w >= 1 && FitsSigned(x, w) && Congruent(x, y, Pow2(w))
    ensures x == y <==> FitsSigned(y, w)
  {
    var h, m := Pow2(w - 1), Pow2(w);
    if FitsSigned(y, w) {
      CongruentSum(x, y, h, m);
      ModUnique(h + x, m, 0, h + x);
      ModUnique(h + y, m, 0, h + y);
    }
  }
}
