/** The up/down counter with a carry bit, an enable, and a value to stop at. */
module Counter {
  import opened Bits
  import opened Clocked

  datatype Stop = Never | At(value: nat)

  datatype Config = Config(width: nat, start: nat, step: nat, stop: Stop, up: bool)
  {
    /** start and step are signals as wide as the count. */
    predicate Valid() { start < Pow2(width) && step < Pow2(width) }

    /** The distance a step covers, in the direction of counting. */
    function Delta(): int { if up then step else -(step as int) }
  }

  datatype Input = Input(reset: bool, on: bool)

  /** The count with its carry in one register, one bit wider than the count. */
  type State = nat

  function Count(c: Config, s: State): nat { Trunc(s, c.width) }

  predicate Carry(c: Config, s: State) { s >= Pow2(c.width) }

  predicate Done(c: Config, s: State) { c.stop == At(Count(c, s)) }

  function Step(c: Config, s: State, i: Input): State {
    if i.reset then Trunc(c.start, c.width + 1)
    else if !Done(c, s) && i.on then Trunc(Count(c, s) + c.Delta(), c.width + 1)
    else s
  }

  function Edge(c: Config): (State, Input) -> State {
    (s, i) => Step(c, s, i)
  }

  class Counter {
    const c: Config
    var countWithCarry: nat

    constructor (c: Config)
      requires c.Valid()
      ensures this.c == c && countWithCarry == c.start
    {
      this.c := c;
      countWithCarry := c.start;
    }

    method Outputs() returns (count: nat, carry: bool, done: bool)
      ensures count == Count(c, countWithCarry) && carry == Carry(c, countWithCarry) && done == Done(c, countWithCarry)
    {
      count := Trunc(countWithCarry, c.width);
      carry := countWithCarry >= Pow2(c.width);
      done := c.stop.At? && count == c.stop.value;
    }

    method Tick(reset: bool, on: bool)
      modifies this
      ensures countWithCarry == Step(c, old(countWithCarry), Input(reset, on))
    {
      var count, _, done := Outputs();
      if reset {
        countWithCarry := Trunc(c.start, c.width + 1);
      } else if !done && on {
        if c.up {
          countWithCarry := Trunc(count + c.step, c.width + 1);
        } else {
          countWithCarry := Trunc(count - c.step, c.width + 1);
        }
      }
    }
  }

  // ---------------------------------------------------------------- unbounded counting

  /** Enabled cycles since the last reset. */
  function OnCycles(ins: seq<Input>): nat
    decreases |ins|
  {
    if ins == [] then 0
    else
      var last := ins[|ins| - 1];
      if last.reset then 0 else OnCycles(ins[..|ins| - 1]) + if last.on then 1 else 0
  }

  /** Where counting without bounds is after n steps. */
  function Unbounded(c: Config, n: nat): int {
    c.start + n * c.Delta()
  }

  /** The count after n steps, that is, what is left of unbounded counting. */
  predicate Stops(c: Config, n: nat) {
    c.stop == At(Trunc(Unbounded(c, n), c.width))
  }

  /** Steps taken in n enabled cycles: all of them, or as many as lead to the stop value. */
  function Taken(c: Config, n: nat): nat {
    if n == 0 then 0
    else if Stops(c, Taken(c, n - 1)) then Taken(c, n - 1)
    else Taken(c, n - 1) + 1
  }

  /** How often counting has wrapped around after n steps, negative when counting down. */
  function Wraps(c: Config, n: nat): int {
    Unbounded(c, n) / Pow2(c.width)
  }

  /** No earlier step leads to the stop value, and when fewer steps than enabled cycles were taken
      the last one did. So the number of steps is the least that leads there, or all. */
  lemma {:induction false} TakenIsLeast(c: Config, n: nat)
    ensures Taken(c, n) <= n
    ensures forall k :: 0 <= k < Taken(c, n) ==> !Stops(c, k)
    ensures Taken(c, n) < n ==> Stops(c, Taken(c, n))
    decreases n
  {
    if n > 0 {
      TakenIsLeast(c, n - 1);
    }
  }

  lemma {:induction false} NextUnbounded(c: Config, n: nat)
    ensures Unbounded(c, n + 1) == Unbounded(c, n) + c.Delta()
  {
    assert (n + 1) * c.Delta() == n * c.Delta() + c.Delta();
  }

  /** A number split at a multiple of m, and moved by less than m. */
  lemma {:induction false} Move(x: int, d: int, m: nat)
    requires m >= 1 && -(m as int) < d < m
    ensures var s := x % m + d;
            && (x + d) % m == (if s >= m then s - m else if s >= 0 then s else s + m)
            && ((x + d) / m != x / m <==> s >= m || s < 0)
  {
    var q, r := x / m, x % m;
    assert x == q * m + r;
    if r + d >= m {
      assert (q + 1) * m == q * m + m;
      ModUnique(x + d, m, q + 1, r + d - m);
    } else if r + d >= 0 {
      ModUnique(x + d, m, q, r + d);
    } else {
      assert (q - 1) * m == q * m - m;
      ModUnique(x + d, m, q - 1, r + d + m);
    }
  }

  /** What a register one bit wider makes of the same sum. */
  lemma {:induction false} Widen(s: int, m: nat)
    requires m >= 1 && -(m as int) <= s < 2 * m
    ensures var wide := s % (2 * m);
            && wide % m == (if s >= m then s - m else if s >= 0 then s else s + m)
            && (wide >= m <==> s >= m || s < 0)
  {
    if s >= m {
      ModUnique(s, 2 * m, 0, s);
      ModUnique(s, m, 1, s - m);
    } else if s >= 0 {
      ModUnique(s, 2 * m, 0, s);
      ModUnique(s, m, 0, s);
    } else {
      ModUnique(s, 2 * m, -1, s + 2 * m);
      ModUnique(s + 2 * m, m, 1, s + m);
    }
  }

  /** A step in the wide register: its low bits are the next count, its top bit says whether
      the unbounded count crossed a multiple of 2^width. */
  lemma {:induction false} WideStep(c: Config, x: int)
    requires c.Valid()
    ensures var m := Pow2(c.width);
            var wide := Trunc(x % m + c.Delta(), c.width + 1);
            && Trunc(wide, c.width) == Trunc(x + c.Delta(), c.width)
            && (wide >= m <==> (x + c.Delta()) / m != x / m)
  {
    var m := Pow2(c.width);
    assert Pow2(c.width + 1) == 2 * m;
    Move(x, c.Delta(), m);
    Widen(x % m + c.Delta(), m);
  }

  /** The count stands for n steps of unbounded counting. */
  ghost predicate StandsFor(c: Config, s: State, n: nat) {
    Count(c, s) == Trunc(Unbounded(c, n), c.width)
  }

  lemma {:induction false} StepStandsFor(c: Config, s: State, n: nat, i: Input)
    requires c.Valid() && StandsFor(c, s, n)
    ensures StandsFor(c, Step(c, s, i), if i.reset then 0 else if i.on && !Stops(c, n) then n + 1 else n)
  {
    TruncFits(c.start, c.width + 1);
    NextUnbounded(c, n);
    WideStep(c, Unbounded(c, n));
  }

  lemma {:induction false} AlwaysStandsFor(c: Config, ins: seq<Input>)
    requires c.Valid()
    ensures StandsFor(c, Run(Edge(c), c.start, ins), Taken(c, OnCycles(ins)))
    decreases |ins|
  {
    if ins != [] {
      var before := ins[..|ins| - 1];
      AlwaysStandsFor(c, before);
      RunLast(Edge(c), c.start, ins);
      StepStandsFor(c, Run(Edge(c), c.start, before), Taken(c, OnCycles(before)), ins[|ins| - 1]);
    }
  }

  /** Conservation, for every sequence of resets and enables: the count and the wraps together are
      unbounded counting from start, by the steps taken since the last reset. */
  lemma {:induction false} Conservation(c: Config, ins: seq<Input>)
    requires c.Valid()
    ensures var s, n := Run(Edge(c), c.start, ins), Taken(c, OnCycles(ins));
            && Count(c, s) + Pow2(c.width) * Wraps(c, n) == c.start + n * c.Delta()
            && (Done(c, s) <==> Stops(c, n))
  {
    AlwaysStandsFor(c, ins);
    QuotientAndRemainder(Unbounded(c, Taken(c, OnCycles(ins))), Pow2(c.width));
  }

  lemma {:induction false} QuotientAndRemainder(x: int, m: int)
    requires m > 0
    ensures x % m + m * (x / m) == x
  {
  }

  /** The carry marks exactly the steps that wrap around. */
  lemma {:induction false} CarryMarksWraps(c: Config, ins: seq<Input>)
    requires c.Valid()
    requires !Done(c, Run(Edge(c), c.start, ins))
    ensures var n := Taken(c, OnCycles(ins));
            Carry(c, Step(c, Run(Edge(c), c.start, ins), Input(false, true))) <==> Wraps(c, n + 1) != Wraps(c, n)
  {
    var n := Taken(c, OnCycles(ins));
    AlwaysStandsFor(c, ins);
    NextUnbounded(c, n);
    WideStep(c, Unbounded(c, n));
  }

  /** Every cycle: a reset shows start without a carry; a disabled or done counter keeps count and carry; and
      an enabled step has a carry exactly when the count leaves its range. */
  lemma {:induction false} EveryCycle(c: Config, s: State, i: Input)
    requires c.Valid()
    ensures i.reset ==> Count(c, Step(c, s, i)) == c.start && !Carry(c, Step(c, s, i))
    ensures !i.reset && (!i.on || Done(c, s)) ==> Step(c, s, i) == s
    ensures !i.reset && i.on && !Done(c, s) ==>
              (Carry(c, Step(c, s, i)) <==>
               if c.up then Count(c, s) + c.step >= Pow2(c.width) else Count(c, s) < c.step)
  {
    TruncFits(c.start, c.width + 1);
    TruncFits(c.start, c.width);
    Widen(Count(c, s) + c.Delta(), Pow2(c.width));
  }

  /** Once done, the counter does not move until it is reset. */
  lemma {:induction false} DoneFreezes(c: Config, s: State, ins: seq<Input>)
    requires Done(c, s) && forall k :: 0 <= k < |ins| ==> !ins[k].reset
    ensures Run(Edge(c), s, ins) == s
    decreases |ins|
  {
    if ins != [] {
      DoneFreezes(c, s, ins[1..]);
    }
  }

  // ---------------------------------------------------------------- whether it stops at all

  /** The largest power of two that divides both step and 2^w. */
  function Common(step: nat, w: nat): (p: nat)
    ensures p >= 1
  {
    if w == 0 || step % 2 == 1 then 1 else 2 * Common(step / 2, w - 1)
  }

  /** How far the stop value is from start, in the direction of counting. */
  function Distance(c: Config): int
    requires c.stop.At?
  {
    if c.up then c.stop.value - c.start else c.start - c.stop.value
  }

  /** So many steps cover a distance, up to turns around the counter. */
  ghost predicate Covers(n: nat, step: nat, distance: int, w: nat) {
    Trunc(n * step, w) == Trunc(distance, w)
  }

  lemma {:induction false} CoversHalf(n: nat, step: nat, distance: int, w: nat)
    requires w >= 1 && step % 2 == 0 && distance % 2 == 0
    ensures Covers(n, step, distance, w) <==> Covers(n, step / 2, distance / 2, w - 1)
  {
    assert n * step == 2 * (n * (step / 2));
    TruncDouble(n * (step / 2), 0, w - 1);
    TruncDouble(distance / 2, 0, w - 1);
  }

  lemma {:induction false} Parity(x: int, half: int, bit: int)
    requires x == 2 * half + bit && 0 <= bit <= 1
    ensures x % 2 == bit
  {
  }

  lemma {:induction false} ParityOfTrunc(v: int, w: nat)
    requires w >= 1
    ensures Trunc(v, w) % 2 == v % 2
  {
    var half, bit := v / 2, v % 2;
    assert v == 2 * half + bit;
    TruncDouble(half, bit, w - 1);
    Parity(Trunc(v, w), Trunc(half, w - 1), bit);
  }

  /** Every distance that Common divides can be covered. */
  lemma {:induction false} Reaches(step: nat, distance: int, w: nat) returns (n: nat)
    requires distance % Common(step, w) == 0
    ensures Covers(n, step, distance, w)
    decreases w
  {
    if w == 0 {
      n := 0;
    } else if step % 2 == 0 {
      var common := Common(step / 2, w - 1);
      HalfDivides(distance, common);
      n := Reaches(step / 2, distance / 2, w - 1);
      CoversHalf(n, step, distance, w);
    } else {
      n := Reaches(step, distance, w - 1);
      n := OneBitMore(n, step, distance, Pow2(w - 1));
    }
  }

  lemma {:induction false} HalfDivides(d: int, m: nat)
    requires m >= 1
    ensures d % (2 * m) == 0 <==> d % 2 == 0 && (d / 2) % m == 0
  {
    if d % (2 * m) == 0 {
      var q := d / (2 * m);
      assert d == q * (2 * m);
      assert d == 2 * (q * m);
      ModUnique(d / 2, m, q, 0);
    } else if d % 2 == 0 && (d / 2) % m == 0 {
      var q := (d / 2) / m;
      assert d / 2 == q * m;
      assert d == q * (2 * m);
      ModUnique(d, 2 * m, q, 0);
    }
  }

  /** An odd step that covers a distance up to a multiple of m covers it, perhaps with m steps
      more, up to a multiple of 2 m. */
  lemma {:induction false} OneBitMore(n: nat, step: nat, distance: int, m: nat) returns (k: nat)
    requires m >= 1 && step % 2 == 1 && (n * step) % m == distance % m
    ensures (k * step) % (2 * m) == distance % (2 * m)
  {
    var turns := TurnsBetween(n * step, distance, m);
    if turns % 2 == 0 {
      k := n;
      TwoTurns(n * step, distance, turns, m);
    } else {
      k := n + m;
      Distribute(n, m, step);
      Distribute(turns, step, m);
      TwoTurns((n + m) * step, distance, turns + step, m);
    }
  }

  lemma {:induction false} Distribute(a: int, b: int, m: int)
    ensures (a + b) * m == a * m + b * m && b * m == m * b
  {
  }

  lemma {:induction false} TurnsBetween(x: int, y: int, m: nat) returns (turns: int)
    requires m >= 1 && x % m == y % m
    ensures x == y + turns * m
  {
    SameRemainder(y, x, m);
    turns := (x - y) / m;
  }

  lemma {:induction false} TwoTurns(x: int, y: int, turns: int, m: nat)
    requires m >= 1 && turns % 2 == 0 && x == y + turns * m
    ensures x % (2 * m) == y % (2 * m)
  {
    var half := turns / 2;
    assert turns * m == half * (2 * m) by {
      assert turns == 2 * half;
    }
    ModShift(y, 2 * m, half);
  }

  /** And no other distance can. */
  lemma {:induction false} OnlyReaches(n: nat, step: nat, distance: int, w: nat)
    requires Covers(n, step, distance, w)
    ensures distance % Common(step, w) == 0
    decreases w
  {
    if w > 0 && step % 2 == 0 {
      ParityOfTrunc(n * step, w);
      ParityOfTrunc(distance, w);
      assert n * step == 2 * (n * (step / 2));
      CoversHalf(n, step, distance, w);
      OnlyReaches(n, step / 2, distance / 2, w - 1);
      HalfDivides(distance, Common(step / 2, w - 1));
    }
  }

  lemma {:induction false} SameRemainder(x: int, y: int, m: int)
    requires m > 0
    ensures x % m == y % m <==> (y - x) % m == 0
  {
    var a, b, q := x / m, y / m, (y - x) / m;
    assert x == a * m + x % m && y == b * m + y % m && y - x == q * m + (y - x) % m;
    Distribute(b - a, a, m);
    if x % m == y % m {
      ModUnique(y - x, m, b - a, 0);
    } else if (y - x) % m == 0 {
      ModShift(x, m, q);
    }
  }

  lemma {:induction false} StopsWhenCovered(c: Config, n: nat)
    requires c.stop.At? && c.stop.value < Pow2(c.width)
    ensures Stops(c, n) <==> Covers(n, c.step, Distance(c), c.width)
  {
    var m, far := Pow2(c.width), n * c.step;
    TruncFits(c.stop.value, c.width);
    SameRemainder(far, Distance(c), m);
    if c.up {
      SameRemainder(c.start + far, c.stop.value, m);
    } else {
      assert n * c.Delta() == -far;
      SameRemainder(c.stop.value, c.start - far, m);
      SameRemainder(c.start - far, c.stop.value, m);
    }
  }

  /** A counter that is left to count stops at some time exactly when its stop value fits the count
      and is a multiple of the common power of two away. */
  lemma {:induction false} EverStopsIff(c: Config)
    requires c.Valid()
    ensures (exists n :: Stops(c, n))
       <==> c.stop.At? && c.stop.value < Pow2(c.width) && Distance(c) % Common(c.step, c.width) == 0
  {
    if n :| Stops(c, n) {
      StopsWhenCovered(c, n);
      OnlyReaches(n, c.step, Distance(c), c.width);
    }
    if c.stop.At? && c.stop.value < Pow2(c.width) && Distance(c) % Common(c.step, c.width) == 0 {
      var n := Reaches(c.step, Distance(c), c.width);
      StopsWhenCovered(c, n);
    }
  }

  /** The counter stops at its stop value only, not beyond it: counting by two from zero never
      stops at an odd value. */
  lemma {:induction false} NotBeyond(c: Config, n: nat)
    requires c.start == 0 && c.step == 2 && c.up && c.width >= 1 && c.stop == At(5)
    ensures !Stops(c, n)
  {
    var m, h, x := Pow2(c.width), Pow2(c.width - 1), Unbounded(c, n);
    assert x == 2 * n;
    assert x == m * (x / m) + x % m && m == 2 * h;
    assert m * (x / m) == 2 * (h * (x / m));
  }
}
