/** The free-running pulse generator: a down-counter whose borrow bit makes the pulses. */
module PulseGen {
  import opened Bits
  import opened Clocked

  /** Width of the counter, and what the period inputs hold while the generator is in use. */
  datatype Config = Config(width: nat, period: nat, offset: int, highAfterOn: bool)
  {
    predicate Valid() { period < Pow2(width) }

    /** What the counter is prepared with while the generator is off. */
    function First(): nat { Trunc(period - offset, width) }
  }

  datatype State = State(out: bool, carry: bool, count: nat)

  function Reset(c: Config): State {
    State(false, c.highAfterOn, c.First())
  }

  function Step(c: Config, s: State, on: bool): State {
    State(s.carry && on,
          if !on then c.highAfterOn else !s.carry && s.count == 0,
          if !on then c.First() else if s.carry then c.period else Trunc(s.count - 1, c.width))
  }

  function Edge(c: Config): (State, bool) -> State {
    (s, on) => Step(c, s, on)
  }

  class Generator {
    const c: Config
    var out: bool
    var carry: bool
    var count: nat

    ghost function View(): State
      reads this
    {
      State(out, carry, count)
    }

    constructor (c: Config)
      ensures this.c == c && View() == Reset(c)
    {
      this.c := c;
      out, carry, count := false, c.highAfterOn, Trunc(c.period - c.offset, c.width);
    }

    method Tick(on: bool)
      requires c.Valid() && count < Pow2(c.width)
      modifies this
      ensures View() == Step(c, old(View()), on)
      ensures count < Pow2(c.width)
    {
      out := carry && on;
      if !on {
        carry := c.highAfterOn;
        count := Trunc(c.period - c.offset, c.width);
      } else if carry {
        carry := false;
        count := c.period;
      } else {
        // count and carry together form a counter that borrows below zero
        var wide := Trunc(count - 1, c.width + 1);
        Borrow(count, c.width);
        count, carry := Trunc(wide, c.width), wide >= Pow2(c.width);
      }
    }
  }

  /** Decrementing in one bit more than the width: the extra bit is the borrow. */
  lemma {:induction false} Borrow(count: nat, w: nat)
    requires count < Pow2(w)
    ensures Trunc(Trunc(count - 1, w + 1), w) == Trunc(count - 1, w)
    ensures Trunc(count - 1, w + 1) >= Pow2(w) <==> count == 0
  {
    if count == 0 {
      ModUnique(-1, Pow2(w + 1), -1, Pow2(w + 1) - 1);
      ModUnique(-1, Pow2(w), -1, Pow2(w) - 1);
      ModUnique(Pow2(w + 1) - 1, Pow2(w), 1, Pow2(w) - 1);
    } else {
      TruncFits(count - 1, w + 1);
    }
  }

  // ---------------------------------------------------------------- the ideal pulse train

  /** For how many cycles, up to now, the generator has been on without a break. */
  function OnFor(ons: seq<bool>): nat
    decreases |ons|
  {
    if ons == [] || !ons[|ons| - 1] then 0 else 1 + OnFor(ons[..|ons| - 1])
  }

  /** How many cycles after it was switched on the first pulse comes. */
  function FirstPulse(c: Config): nat {
    if c.highAfterOn then 1 else c.First() + 2
  }

  /** The ideal train: a pulse at the first pulse time and every period + 2 cycles from then on. */
  predicate Fires(c: Config, n: nat) {
    n >= FirstPulse(c) && (n - FirstPulse(c)) % (c.period + 2) == 0
  }

  /** The registers after n cycles on. */
  function After(c: Config, n: nat): State {
    if n < FirstPulse(c) then
      State(false, n == FirstPulse(c) - 1, Trunc(if c.highAfterOn then c.First() else c.First() - n, c.width))
    else
      var r := (n - FirstPulse(c)) % (c.period + 2);
      State(r == 0, r == c.period + 1, Trunc(c.period - r, c.width))
  }

  lemma {:induction false} CycleStep(x: nat, m: nat)
    requires m > 0
    ensures (x + 1) % m == if x % m == m - 1 then 0 else x % m + 1
  {
    var q, r := x / m, x % m;
    assert x == q * m + r;
    if r == m - 1 {
      assert (q + 1) * m == q * m + m;
      ModUnique(x + 1, m, q + 1, 0);
    } else {
      ModUnique(x + 1, m, q, r + 1);
    }
  }

  lemma {:induction false} AfterStep(c: Config, n: nat)
    requires c.Valid()
    ensures Step(c, After(c, n), true) == After(c, n + 1)
  {
    var f := FirstPulse(c);
    TruncFits(c.First(), c.width);
    TruncFits(c.period, c.width);
    if n < f {
      if !c.highAfterOn && n < c.First() {
        TruncFits(c.First() - n, c.width);
      } else if n < f - 1 {
        TruncFits(0, c.width);
      }
      if n == f - 1 {
        ModUnique(0, c.period + 2, 0, 0);
      }
    } else {
      CycleStep(n - f, c.period + 2);
      var r := (n - f) % (c.period + 2);
      if r <= c.period {
        TruncFits(c.period - r, c.width);
      }
    }
  }

  /** Refinement: whatever the sequence of on and off, the registers and the output are those of
      the ideal train since the generator was last switched on. */
  lemma {:induction false} PulseTrain(c: Config, ons: seq<bool>)
    requires c.Valid()
    ensures Run(Edge(c), Reset(c), ons) == After(c, OnFor(ons))
    ensures Run(Edge(c), Reset(c), ons).out <==> Fires(c, OnFor(ons))
    decreases |ons|
  {
    if ons == [] {
      TruncFits(c.First(), c.width);
    } else {
      var before := ons[..|ons| - 1];
      PulseTrain(c, before);
      RunLast(Edge(c), Reset(c), ons);
      if ons[|ons| - 1] {
        AfterStep(c, OnFor(before));
      } else {
        TruncFits(c.First(), c.width);
      }
    }
  }

  /** Two pulses of one train are at least a period apart, and the next one is exactly that far. */
  lemma {:induction false} Spacing(c: Config, n: nat, m: nat)
    requires Fires(c, n) && n < m <= n + c.period + 2
    ensures Fires(c, m) <==> m == n + c.period + 2
  {
    var p := c.period + 2;
    var x := n - FirstPulse(c);
    assert x == (x / p) * p;
    if m == n + p {
      ModShift(x, p, 1);
    } else {
      ModUnique(x + (m - n), p, x / p, m - n);
    }
  }

  /** No sequence of on and off, not even one that switches off and on between the two cycles,
      gives two pulses in adjacent cycles. */
  lemma {:induction false} NeverAdjacent(c: Config, ons: seq<bool>, on: bool)
    requires c.Valid()
    ensures !(Run(Edge(c), Reset(c), ons).out && Run(Edge(c), Reset(c), ons + [on]).out)
  {
    PulseTrain(c, ons);
    RunSplit(Edge(c), Reset(c), ons, [on]);
    assert [on][1..] == [];
    var s := Run(Edge(c), Reset(c), ons);
    assert Run(Edge(c), s, [on]) == Step(c, s, on);
  }

  /** Without a pulse on switching on, the first one comes period - offset + 2 cycles after, exactly
      when that count is not negative and fits the counter. */
  lemma {:induction false} FirstPeriod(c: Config)
    requires !c.highAfterOn
    ensures FirstPulse(c) == c.period - c.offset + 2 <==> 0 <= c.period - c.offset < Pow2(c.width)
  {
    if 0 <= c.period - c.offset < Pow2(c.width) {
      TruncFits(c.period - c.offset, c.width);
    }
  }
}
