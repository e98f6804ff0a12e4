/** The data acquisition: accumulators that reduce the samples between two pulses of a burst to
    their sum, extremes, number and rising edges, and a mean by multiplication. */
module Daq {
  import opened Bits
  import opened Clocked
  import opened Reals
  import Average
  import BurstGen

  datatype Config = Config(burst: BurstGen.Config, width: nat, signed: bool, sumBits: nat,
                           threshold: int, inverse: int, mode: nat, offset: int)
  {
    predicate Valid() { burst.Valid() && width >= 1 }

    function Store(v: int, w: nat): int
      requires w >= 1
    {
      if signed then Sext(v, w) else Trunc(v, w)
    }

    /** The mean of a window: its sum times the inverse of its length, shifted right by 16 bits. */
    function Scaled(sum: int): int
      requires width >= 1
    {
      Store((sum * inverse) / 65536, width)
    }

    predicate InRange(v: int, w: nat)
      requires w >= 1
    {
      if signed then FitsSigned(v, w) else 0 <= v < Pow2(w)
    }
  }

  const EDGE_BITS := 22

  datatype Regs = Regs(sum: int, oldSum: int, average: int, max: int, min: int,
                       count: nat, edges: nat, below: bool, value: int, busy: bool)

  datatype Input = Input(trigger: bool, x: int)

  datatype State = State(burst: BurstGen.State, regs: Regs)

  /** The next registers, given what the burst generator shows and the sample of this cycle. */
  function RegStep(c: Config, r: Regs, p: BurstGen.Pins, x: int): Regs
    requires c.Valid()
  {
    var s := r.(oldSum := r.sum, below := x < c.threshold, busy := p.busy,
                average := c.Scaled(r.oldSum),
                value := Selected(c, r, x));
    if p.out then
      s.(sum := c.Store(x, c.width + c.sumBits), max := x, min := x, count := 0, edges := 0)
    else if p.busy then
      s.(sum := c.Store(r.sum + x, c.width + c.sumBits),
         max := if r.max < x then x else r.max,
         min := if r.min > x then x else r.min,
         count := Trunc(r.count + 1, c.sumBits),
         edges := if r.below && x > c.threshold then Trunc(r.edges + 1, EDGE_BITS) else r.edges)
    else s
  }

  /** What the reduce mode sends to memory next. */
  function Selected(c: Config, r: Regs, x: int): int
    requires c.Valid()
  {
    match c.mode
    case 0 => r.average
    case 1 => r.max
    case 2 => r.min
    case 3 => x
    case 4 => c.Store(r.edges, c.width)
    case 5 => c.offset
    case 6 => c.Store(r.count, c.width)
    case _ => r.value
  }

  function Step(c: Config, s: State, i: Input): State
    requires c.Valid()
  {
    State(BurstGen.Step(c.burst, s.burst, BurstGen.Input(i.trigger, false)),
          RegStep(c, s.regs, BurstGen.Look()(s.burst), i.x))
  }

  function Edge(c: Config): (State, Input) -> State
    requires c.Valid()
  {
    (s, i) => Step(c, s, i)
  }

  class Daq {
    const c: Config
    const burst: BurstGen.Generator
    var sum: int
    var oldSum: int
    var average: int
    var max: int
    var min: int
    var count: nat
    var edges: nat
    var below: bool
    var value: int
    var busy: bool

    ghost predicate Valid()
      reads this, burst, burst.pulsegen
    {
      c.Valid() && burst.c == c.burst && burst.Valid()
    }

    ghost function Registers(): Regs
      reads this
    {
      Regs(sum, oldSum, average, max, min, count, edges, below, value, busy)
    }

    ghost function View(): State
      reads this, burst, burst.pulsegen
    {
      State(burst.View(), Registers())
    }

    constructor (c: Config)
      requires c.Valid()
      ensures this.c == c && Valid()
      ensures View() == State(BurstGen.PowerUp(c.burst), Regs(0, 0, 0, 0, 0, 0, 0, false, 0, false))
    {
      this.c := c;
      sum, oldSum, average, max, min, count, edges, below, value, busy := 0, 0, 0, 0, 0, 0, 0, false, 0, false;
      burst := new BurstGen.Generator(c.burst);
    }

    method Select(x: int) returns (v: int)
      requires c.Valid()
      ensures v == Selected(c, Registers(), x)
    {
      v := value;
      match c.mode {
        case 0 => v := average;
        case 1 => v := max;
        case 2 => v := min;
        case 3 => v := x;
        case 4 => v := c.Store(edges, c.width);
        case 5 => v := c.offset;
        case 6 => v := c.Store(count, c.width);
        case _ =>
      }
    }

    method Reduce(p: BurstGen.Pins, x: int)
      requires c.Valid()
      modifies this
      ensures Registers() == RegStep(c, old(Registers()), p, x)
    {
      var selected := Select(x);
      var wasBelow := below;
      average := c.Scaled(oldSum);
      oldSum, below, busy, value := sum, x < c.threshold, p.busy, selected;
      if p.out {
        sum := c.Store(x, c.width + c.sumBits);
        max, min, count, edges := x, x, 0, 0;
      } else if p.busy {
        Accumulate(x, wasBelow);
      }
    }

    method Accumulate(x: int, wasBelow: bool)
      requires c.Valid()
      modifies this`sum, this`max, this`min, this`count, this`edges
      ensures sum == c.Store(old(sum) + x, c.width + c.sumBits)
      ensures max == if old(max) < x then x else old(max)
      ensures min == if old(min) > x then x else old(min)
      ensures count == Trunc(old(count) + 1, c.sumBits)
      ensures edges == if wasBelow && x > c.threshold then Trunc(old(edges) + 1, EDGE_BITS) else old(edges)
    {
      sum := c.Store(sum + x, c.width + c.sumBits);
      count := Trunc(count + 1, c.sumBits);
      if max < x {
        max := x;
      }
      if min > x {
        min := x;
      }
      if wasBelow && x > c.threshold {
        edges := Trunc(edges + 1, EDGE_BITS);
      }
    }

    method Tick(trigger: bool, x: int)
      requires Valid()
      modifies this, burst, burst.pulsegen
      ensures Valid() && View() == Step(c, old(View()), Input(trigger, x))
    {
      Reduce(BurstGen.Pins(burst.out, burst.busy, burst.count), x);
      assert burst.View() == old(burst.View());
      burst.Tick(trigger, false);
    }
  }

  // ---------------------------------------------------------------- what a window should give

  function Sum(w: seq<int>): int {
    if w == [] then 0 else Sum(w[..|w| - 1]) + w[|w| - 1]
  }

  /** Adjacent samples of which the first is below and the second above the threshold. */
  function Rising(w: seq<int>, threshold: int): nat {
    if |w| < 2 then 0
    else Rising(w[..|w| - 1], threshold) + if w[|w| - 2] < threshold < w[|w| - 1] then 1 else 0
  }

  /** The input goes from below the threshold to above it. */
  predicate RisesAt(w: seq<int>, threshold: int, k: nat)
    requires k + 1 < |w|
  {
    w[k] < threshold < w[k + 1]
  }

  /** That is, the number of cycles in which the input rises. */
  lemma {:induction false} RisingCounts(w: seq<int>, threshold: int)
    ensures Rising(w, threshold) == |set k: nat | k + 1 < |w| && RisesAt(w, threshold, k)|
    decreases |w|
  {
    var edges := set k: nat | k + 1 < |w| && RisesAt(w, threshold, k);
    if |w| < 2 {
      assert edges == {};
    } else {
      var v, n := w[..|w| - 1], |w| - 2;
      var before := set k: nat | k + 1 < |v| && RisesAt(v, threshold, k);
      RisingCounts(v, threshold);
      assert forall k: nat :: k + 1 < |v| ==> (RisesAt(v, threshold, k) <==> RisesAt(w, threshold, k));
      if RisesAt(w, threshold, n) {
        assert edges == before + {n};
      } else {
        assert edges == before;
      }
    }
  }

  ghost predicate IsMax(m: int, w: seq<int>) {
    m in w && forall k :: 0 <= k < |w| ==> w[k] <= m
  }

  ghost predicate IsMin(m: int, w: seq<int>) {
    m in w && forall k :: 0 <= k < |w| ==> m <= w[k]
  }

  /** The registers are the reduction of the samples w, up to their widths. */
  ghost predicate Holds(c: Config, r: Regs, w: seq<int>) {
    && c.Valid() && w != []
    && r.sum == c.Store(Sum(w), c.width + c.sumBits)
    && IsMax(r.max, w) && IsMin(r.min, w)
    && r.count == Trunc(|w| - 1, c.sumBits)
    && r.edges == Rising(w, c.threshold) % 0x40_0000
    && r.below == (w[|w| - 1] < c.threshold)
  }

  lemma {:induction false} StoreAdd(c: Config, a: int, x: int, w: nat)
    requires w >= 1
    ensures c.Store(c.Store(a, w) + x, w) == c.Store(a + x, w)
  {
    if c.signed {
      SextAdd(a, x, w);
    } else {
      ModAdd(x, a, Pow2(w));
    }
  }

  lemma {:induction false} Begins(c: Config, r: Regs, p: BurstGen.Pins, x: int)
    requires c.Valid() && p.out
    ensures Holds(c, RegStep(c, r, p, x), [x])
  {
    assert [x][..0] == [];
    assert Sum([x]) == x;
    TruncFits(0, c.sumBits);
    EdgeModulus();
  }

  /** What one more sample does to the extremes, to the sum and to the rising edges. */
  lemma {:induction false} ExtremesExtend(max: int, min: int, w: seq<int>, x: int)
    requires IsMax(max, w) && IsMin(min, w)
    ensures IsMax(if max < x then x else max, w + [x]) && IsMin(if min > x then x else min, w + [x])
  {
    var v := w + [x];
    assert v[|w|] == x;
    assert max in v && min in v;
  }

  lemma {:induction false} SumsExtend(w: seq<int>, x: int, threshold: int)
    requires w != []
    ensures Sum(w + [x]) == Sum(w) + x
    ensures Rising(w + [x], threshold) == Rising(w, threshold) + if w[|w| - 1] < threshold < x then 1 else 0
  {
    assert (w + [x])[..|w|] == w;
  }

  lemma {:induction false} Extends(c: Config, r: Regs, w: seq<int>, p: BurstGen.Pins, x: int)
    requires Holds(c, r, w) && p.busy && !p.out
    ensures Holds(c, RegStep(c, r, p, x), w + [x])
  {
    ExtremesExtend(r.max, r.min, w, x);
    SumsExtend(w, x, c.threshold);
    StoreAdd(c, Sum(w), x, c.width + c.sumBits);
    ModAdd(1, |w| - 1, Pow2(c.sumBits));
    EdgeModulus();
    ModAdd(1, Rising(w, c.threshold), Pow2(EDGE_BITS));
  }

  // ---------------------------------------------------------------- windows of a burst

  /** The registers after a stretch of cycles of which pins and samples are known. */
  function RegRun(c: Config, r: Regs, pins: seq<BurstGen.Pins>, xs: seq<int>): Regs
    requires c.Valid() && |pins| == |xs|
    decreases |pins|
  {
    if pins == [] then r else RegRun(c, RegStep(c, r, pins[0], xs[0]), pins[1..], xs[1..])
  }

  lemma {:induction false} RegRunSplit(c: Config, r: Regs, p: seq<BurstGen.Pins>, x: seq<int>, q: seq<BurstGen.Pins>,
                                       y: seq<int>)
    requires c.Valid() && |p| == |x| && |q| == |y|
    ensures RegRun(c, r, p + q, x + y) == RegRun(c, RegRun(c, r, p, x), q, y)
    decreases |p|
  {
    if p == [] {
      assert p + q == q && x + y == y;
    } else {
      assert (p + q)[1..] == p[1..] + q && (x + y)[1..] == x[1..] + y;
      RegRunSplit(c, RegStep(c, r, p[0], x[0]), p[1..], x[1..], q, y);
    }
  }

  lemma {:induction false} RegRunRep(c: Config, r: Regs, p: BurstGen.Pins, xs: seq<int>)
    requires c.Valid() && xs != []
    ensures RegRun(c, r, Rep(p, |xs|), xs) == RegRun(c, RegStep(c, r, p, xs[0]), Rep(p, |xs| - 1), xs[1..])
  {
    assert Rep(p, |xs|)[1..] == Rep(p, |xs| - 1);
  }

  lemma {:induction false} Accumulates(c: Config, r: Regs, w: seq<int>, left: nat, xs: seq<int>)
    requires Holds(c, r, w)
    ensures Holds(c, RegRun(c, r, Rep(BurstGen.Pins(false, true, left), |xs|), xs), w + xs)
    decreases |xs|
  {
    if xs == [] {
      assert w + xs == w;
    } else {
      var p, v, rest := BurstGen.Pins(false, true, left), w + [xs[0]], xs[1..];
      var t := RegStep(c, r, p, xs[0]);
      assert v + rest == w + xs;
      assert Holds(c, t, v) by {
        Extends(c, r, w, p, xs[0]);
      }
      RegRunRep(c, r, p, xs);
      Accumulates(c, t, v, left, rest);
    }
  }

  /** From a pulse on the registers collect exactly the samples since then. */
  lemma {:induction false} GapHolds(c: Config, r: Regs, left: nat, wait: nat, xs: seq<int>)
    requires c.Valid() && |xs| == wait + 1
    ensures Holds(c, RegRun(c, r, BurstGen.Gap(left, wait), xs), xs)
  {
    var gap := BurstGen.Gap(left, wait);
    Begins(c, r, gap[0], xs[0]);
    assert gap[1..] == Rep(BurstGen.Pins(false, true, left), wait);
    Accumulates(c, RegStep(c, r, gap[0], xs[0]), [xs[0]], left, xs[1..]);
    assert [xs[0]] + xs[1..] == xs;
  }

  /** In every cycle m of a burst after pulse j and up to the next one, or the end, the registers hold
      the reduction of the samples since that pulse. */
  lemma {:induction false} WindowOfBurst(c: Config, r: Regs, left: nat, wait: nat, xs: seq<int>, j: nat, m: nat)
    requires c.Valid() && j <= left && |xs| == |BurstGen.BurstWave(c.burst, left, wait)|
    requires BurstGen.PulseTime(c.burst, wait, j) < m <= BurstGen.PulseTime(c.burst, wait, j + 1)
    ensures BurstGen.PulseTime(c.burst, wait, j + 1) <= |xs|
    ensures Holds(c, RegRun(c, r, BurstGen.BurstWave(c.burst, left, wait)[..m], xs[..m]),
                  xs[BurstGen.PulseTime(c.burst, wait, j)..m])
  {
    var wave := BurstGen.BurstWave(c.burst, left, wait);
    var b, e := BurstGen.PulseTime(c.burst, wait, j), BurstGen.PulseTime(c.burst, wait, j + 1);
    var w := if j == 0 then wait else c.burst.period + 1;
    BurstGen.GapAt(c.burst, left, wait, j);
    GapPrefix(wave, b, m, e, left - j, w);
    RegRunMiddle(c, r, wave, xs, b, m);
    GapHolds(c, RegRun(c, r, wave[..b], xs[..b]), left - j, m - b - 1, xs[b..m]);
  }

  lemma {:induction false} GapPrefix(wave: seq<BurstGen.Pins>, b: nat, m: nat, e: nat, left: nat, wait: nat)
    requires b < m <= e <= |wave| && wave[b..e] == BurstGen.Gap(left, wait)
    ensures wave[b..m] == BurstGen.Gap(left, m - b - 1)
  {
    assert wave[b..m] == wave[b..e][..m - b];
    assert BurstGen.Gap(left, wait)[..m - b] == BurstGen.Gap(left, m - b - 1);
  }

  lemma {:induction false} RegRunMiddle(c: Config, r: Regs, pins: seq<BurstGen.Pins>, xs: seq<int>, b: nat, e: nat)
    requires c.Valid() && b <= e <= |pins| == |xs|
    ensures RegRun(c, r, pins[..e], xs[..e]) == RegRun(c, RegRun(c, r, pins[..b], xs[..b]), pins[b..e], xs[b..e])
  {
    assert pins[..e] == pins[..b] + pins[b..e];
    assert xs[..e] == xs[..b] + xs[b..e];
    RegRunSplit(c, r, pins[..b], xs[..b], pins[b..e], xs[b..e]);
  }

  function Triggers(ins: seq<Input>): seq<BurstGen.Input> {
    seq(|ins|, k requires 0 <= k < |ins| => BurstGen.Input(ins[k].trigger, false))
  }

  function Samples(ins: seq<Input>): seq<int> {
    seq(|ins|, k requires 0 <= k < |ins| => ins[k].x)
  }

  /** The whole module is its burst generator, and the registers fed by what that shows. */
  lemma {:induction false} Decompose(c: Config, s: State, ins: seq<Input>)
    requires c.Valid()
    ensures var t := Run(Edge(c), s, ins);
            && t.burst == Run(BurstGen.Edge(c.burst), s.burst, Triggers(ins))
            && t.regs == RegRun(c, s.regs, Trace(BurstGen.Edge(c.burst), BurstGen.Look(), s.burst, Triggers(ins)),
                              Samples(ins))
    decreases |ins|
  {
    if ins != [] {
      Decompose(c, Edge(c)(s, ins[0]), ins[1..]);
      assert Triggers(ins)[1..] == Triggers(ins[1..]);
      assert Samples(ins)[1..] == Samples(ins[1..]);
    }
  }

  function PowerUp(c: Config): State {
    State(BurstGen.PowerUp(c.burst), Regs(0, 0, 0, 0, 0, 0, 0, false, 0, false))
  }

  /** After any run past from power-up, in state s, a trigger is accepted with first, at rest or in the last
      cycle of a burst, and the cycles of ins are exactly its burst, with the given wait after the first
      pulse. */
  ghost predicate FullBurst(c: Config, past: seq<Input>, s: State, first: Input, ins: seq<Input>, wait: nat) {
    && c.Valid() && s == Run(Edge(c), PowerUp(c), past) && BurstGen.Accepts(s.burst) && first.trigger
    && wait == BurstGen.StartWait(c.burst, s.burst)
    && |ins| == |BurstGen.BurstWave(c.burst, c.burst.pulses, wait)|
  }

  lemma {:induction false} BurstTrace(c: Config, past: seq<Input>, s: State, first: Input, ins: seq<Input>, wait: nat)
    requires FullBurst(c, past, s, first, ins, wait)
    ensures Trace(BurstGen.Edge(c.burst), BurstGen.Look(), Step(c, s, first).burst, Triggers(ins))
         == BurstGen.BurstWave(c.burst, c.burst.pulses, wait)
  {
    Decompose(c, PowerUp(c), past);
    var all := [BurstGen.Input(true, false)] + Triggers(ins);
    BurstGen.AcceptedTrigger(c.burst, Triggers(past), s.burst, all, wait);
    assert all[1..] == Triggers(ins);
  }

  /** From power-up every accepted trigger starts such a burst, for every period, number of pulses and
      inputs. */
  lemma {:induction false} EveryTrigger(c: Config, past: seq<Input>, first: Input, ins: seq<Input>, wait: nat)
    requires c.burst.period < Pow2(c.burst.width) && c.burst.pulses < Pow2(c.burst.countWidth) && c.width >= 1
    requires var s := Run(Edge(c), PowerUp(c), past).burst;
             && (!s.busy || (s.count == 0 && s.pulse.out)) && first.trigger
             && wait == (if s.busy then c.burst.period + 1 else if s.on then c.burst.period else c.burst.FirstWait())
    requires |ins| == wait + 1 + c.burst.pulses * (c.burst.period + 2)
    ensures FullBurst(c, past, Run(Edge(c), PowerUp(c), past), first, ins, wait)
  {
    BurstGen.BurstLength(c.burst, c.burst.pulses, wait);
  }

  /** After its burst the generator is busy exactly if the trigger was high in the last cycle. */
  lemma {:induction false} BusyAfter(c: Config, past: seq<Input>, s: State, first: Input, ins: seq<Input>, wait: nat)
    requires FullBurst(c, past, s, first, ins, wait)
    ensures Run(Edge(c), Step(c, s, first), ins).burst.busy == ins[|ins| - 1].trigger
  {
    Decompose(c, PowerUp(c), past);
    Decompose(c, Step(c, s, first), ins);
    var all := [BurstGen.Input(true, false)] + Triggers(ins);
    BurstGen.AcceptedTrigger(c.burst, Triggers(past), s.burst, all, wait);
    assert all[1..] == Triggers(ins);
  }

  /** With the trigger high in its last cycle the next burst follows without a break, whatever its inputs. */
  lemma {:induction false} NextBurst(c: Config, past: seq<Input>, s: State, first: Input, ins: seq<Input>, wait: nat,
                                     last: State, ins': seq<Input>)
    requires FullBurst(c, past, s, first, ins, wait) && ins[|ins| - 1].trigger
    requires last == Run(Edge(c), Step(c, s, first), ins[..|ins| - 1])
    requires |ins'| == |BurstGen.BurstWave(c.burst, c.burst.pulses, c.burst.period + 1)|
    ensures FullBurst(c, past + [first] + ins[..|ins| - 1], last, ins[|ins| - 1], ins', c.burst.period + 1)
    ensures Step(c, last, ins[|ins| - 1]) == Run(Edge(c), Step(c, s, first), ins)
  {
    var t, n := Step(c, s, first), |ins| - 1;
    var all, body := [BurstGen.Input(true, false)] + Triggers(ins), ins[..n];
    Decompose(c, PowerUp(c), past);
    BurstGen.LastCycle(c.burst, Triggers(past), s.burst, all, wait);
    assert all[1..n + 1] == Triggers(body);
    Decompose(c, t, body);
    RunLast(Edge(c), t, ins);
    RunOn(c, past, s, first, body);
  }

  lemma {:induction false} RunOn(c: Config, past: seq<Input>, s: State, first: Input, more: seq<Input>)
    requires c.Valid() && s == Run(Edge(c), PowerUp(c), past)
    ensures Run(Edge(c), PowerUp(c), past + [first] + more) == Run(Edge(c), Step(c, s, first), more)
  {
    RunSplit(Edge(c), PowerUp(c), past + [first], more);
    RunSplit(Edge(c), PowerUp(c), past, [first]);
    assert [first][1..] == [];
    assert Run(Edge(c), s, [first]) == Run(Edge(c), Step(c, s, first), []);
  }

  /** The burst generator's outputs after the first inputs of ins. */
  lemma {:induction false} PinsAt(c: Config, s: State, ins: seq<Input>, k: nat)
    requires c.Valid() && k < |ins|
    ensures BurstGen.Look()(Run(Edge(c), s, ins[..k]).burst)
         == Trace(BurstGen.Edge(c.burst), BurstGen.Look(), s.burst, Triggers(ins))[k]
  {
    Decompose(c, s, ins[..k]);
    assert Triggers(ins[..k]) == Triggers(ins)[..k];
    TracePrefix(BurstGen.Edge(c.burst), BurstGen.Look(), s.burst, Triggers(ins), k);
  }

  /** Composed with the burst generator: after any run from power-up and an accepted trigger, the
      registers hold in every cycle of the burst the reduction of exactly the samples since the last
      pulse. So at each later pulse, and at the end, the window is complete: period + 2 samples,
      except in a first gap cut short. */
  lemma {:induction false} Windows(c: Config, past: seq<Input>, s: State, first: Input, ins: seq<Input>,
                                   wait: nat, j: nat, b: nat, m: nat)
    requires FullBurst(c, past, s, first, ins, wait) && j <= c.burst.pulses
    requires b == BurstGen.PulseTime(c.burst, wait, j) < m <= BurstGen.PulseTime(c.burst, wait, j + 1)
    ensures m <= |ins|
    ensures Holds(c, Run(Edge(c), Step(c, s, first), ins[..m]).regs, Samples(ins)[b..m])
  {
    var t := Step(c, s, first);
    WindowOfBurst(c, t.regs, c.burst.pulses, wait, Samples(ins), j, m);
    BurstTrace(c, past, s, first, ins, wait);
    Decompose(c, t, ins[..m]);
    TracePrefix(BurstGen.Edge(c.burst), BurstGen.Look(), t.burst, Triggers(ins), m);
    assert Triggers(ins[..m]) == Triggers(ins)[..m] && Samples(ins[..m]) == Samples(ins)[..m];
  }

  /** A complete window has period + 2 samples, or one more than the wait after the first pulse. */
  lemma {:induction false} WindowLength(c: Config, wait: nat, j: nat)
    ensures BurstGen.PulseTime(c.burst, wait, j + 1) - BurstGen.PulseTime(c.burst, wait, j)
         == if j == 0 then wait + 1 else c.burst.period + 2
  {
    BurstGen.PulseTimes(c.burst, wait, j);
    BurstGen.PulseTimes(c.burst, wait, j + 1);
    if j > 0 {
      BurstGen.OneMore(j - 1, c.burst.period + 2);
    }
  }

  // ---------------------------------------------------------------- no overflow, and the mean

  lemma {:induction false} SumBounds(w: seq<int>, lo: int, hi: int)
    requires forall k :: 0 <= k < |w| ==> lo <= w[k] <= hi
    ensures |w| * lo <= Sum(w) <= |w| * hi
    decreases |w|
  {
    if w != [] {
      SumBounds(w[..|w| - 1], lo, hi);
      assert |w| * lo == (|w| - 1) * lo + lo;
      assert |w| * hi == (|w| - 1) * hi + hi;
    }
  }

  lemma {:induction false} RisingBound(w: seq<int>, threshold: int)
    ensures Rising(w, threshold) <= if w == [] then 0 else |w| - 1
    decreases |w|
  {
    if |w| >= 2 {
      RisingBound(w[..|w| - 1], threshold);
    }
  }

  function Low(c: Config): int
    requires c.Valid()
  {
    if c.signed then -(Pow2(c.width - 1) as int) else 0
  }

  function High(c: Config): int
    requires c.Valid()
  {
    Low(c) + Pow2(c.width) - 1
  }

  ghost predicate InSignal(c: Config, w: seq<int>)
    requires c.Valid()
  {
    forall k :: 0 <= k < |w| ==> c.InRange(w[k], c.width)
  }

  lemma {:induction false} SumFits(c: Config, w: seq<int>)
    requires c.Valid() && InSignal(c, w) && |w| <= Pow2(c.sumBits)
    ensures |w| * Low(c) <= Sum(w) <= |w| * High(c)
    ensures c.Store(Sum(w), c.width + c.sumBits) == Sum(w)
  {
    SumBounds(w, Low(c), High(c));
    LowHigh(c);
    Average.SumInRange(Sum(w), |w|, Pow2(c.sumBits), Low(c), Pow2(c.width));
    WideStore(c, Sum(w), Pow2(c.sumBits));
  }

  lemma {:induction false} WideStore(c: Config, v: int, m: nat)
    requires c.Valid() && m == Pow2(c.sumBits) && m * Low(c) <= v <= m * Low(c) + m * Pow2(c.width) - m
    ensures c.Store(v, c.width + c.sumBits) == v
  {
    if c.signed {
      var h := Pow2(c.width - 1);
      assert m * -(h as int) == -(m * h);
      assert m * Pow2(c.width) == 2 * (m * h) by {
        assert Pow2(c.width) == 2 * h;
      }
      SextWide(v, c.width, c.sumBits);
    } else {
      assert m * Low(c) == 0;
      TruncWide(v, c.width, c.sumBits);
    }
  }

  /** No accumulator overflows in a window of at most 2^sumBits samples: sum, count and, for windows
      within reach of its 22 bits, the edge count are exact. */
  lemma {:induction false} NoOverflow(c: Config, r: Regs, w: seq<int>)
    requires Holds(c, r, w) && InSignal(c, w) && |w| <= Pow2(c.sumBits)
    ensures r.sum == Sum(w) && r.count == |w| - 1
    ensures |w| <= 0x40_0000 ==> r.edges == Rising(w, c.threshold)
  {
    SumFits(c, w);
    TruncFits(|w| - 1, c.sumBits);
    RisingBound(w, c.threshold);
  }

  /** The edge counter has 22 bits. */
  lemma {:induction false} EdgeModulus()
    ensures Pow2(EDGE_BITS) == 0x40_0000
  {
    assert Pow2(5) == 32 && Pow2(1) == 2;
    Pow2Add(5, 5); Pow2Add(10, 1); Pow2Add(11, 11);
  }

  /** Two cycles after a window is complete the average register holds its mean: always within the
      width, less than 1 + 2^(width-1) (n-1) / 2^16 off, and exact when n divides 2^16. */
  lemma {:induction false} MeanTwoCyclesLater(c: Config, s: State, w: seq<int>, a: Input, b: Input)
    requires Holds(c, s.regs, w) && InSignal(c, w) && |w| <= Pow2(c.sumBits)
    requires c.inverse == 65536 / |w|
    ensures var mean, n := Run(Edge(c), s, [a, b]).regs.average, |w|;
            && mean == (Sum(w) * (65536 / n)) / 65536
            && c.InRange(mean, c.width)
            && Abs(mean as real - Sum(w) as real / n as real)
               < 1.0 + ((if c.signed then Pow2(c.width - 1) else Pow2(c.width)) * (n - 1)) as real / 65536.0
            && (65536 % n == 0 ==> mean == Sum(w) / n)
  {
    SumFits(c, w);
    LowHigh(c);
    Average.Mean(Sum(w), |w|, Low(c), High(c), Magnitude(c));
    StoreFits(c, (Sum(w) * c.inverse) / Average.SCALE);
    TwoSteps(c, s, a, b);
  }

  lemma {:induction false} LowHigh(c: Config)
    requires c.Valid()
    ensures Low(c) <= 0 <= High(c) && -(Magnitude(c) as int) <= Low(c) && High(c) <= Magnitude(c)
  {
    assert Pow2(c.width) == 2 * Pow2(c.width - 1);
  }

  /** The largest magnitude a sample can have. */
  function Magnitude(c: Config): nat
    requires c.Valid()
  {
    if c.signed then Pow2(c.width - 1) else Pow2(c.width)
  }

  lemma {:induction false} StoreFits(c: Config, v: int)
    requires c.Valid() && Low(c) <= v <= High(c)
    ensures c.Store(v, c.width) == v && c.InRange(v, c.width)
  {
    assert Pow2(c.width) == 2 * Pow2(c.width - 1);
    if c.signed {
      SextFits(v, c.width);
    } else {
      TruncFits(v, c.width);
    }
  }

  lemma {:induction false} TwoSteps(c: Config, s: State, a: Input, b: Input)
    requires c.Valid()
    ensures Run(Edge(c), s, [a, b]).regs.average == c.Scaled(s.regs.sum)
  {
    var t := Step(c, s, a);
    assert [a, b][1..] == [b] && [b][1..] == [];
    assert Run(Edge(c), s, [a, b]) == Run(Edge(c), t, [b]);
    assert Run(Edge(c), t, [b]) == Run(Edge(c), Step(c, t, b), []);
    assert t.regs.oldSum == s.regs.sum;
  }
}
