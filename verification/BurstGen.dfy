/** The burst generator: a trigger gives pulses + 1 pulses, timed by a pulse generator that is
    switched on one cycle late and therefore counts one cycle less before its first pulse. */
module BurstGen {
  import opened Bits
  import opened Clocked
  import PulseGen

  datatype Config = Config(width: nat, period: nat, countWidth: nat, pulses: nat)
  {
    predicate Valid() { period < Pow2(width) && pulses < Pow2(countWidth) }

    /** The pulse generator inside. */
    function Pulse(): PulseGen.Config {
      PulseGen.Config(width, period, 1, false)
    }

    /** How long the generator inside, freshly switched on, takes to its first pulse. */
    function FirstWait(): nat {
      Trunc(period - 1, width) + 2
    }
  }

  datatype State = State(out: bool, busy: bool, count: nat, on: bool, pulse: PulseGen.State)

  datatype Input = Input(trigger: bool, reset: bool)

  datatype Pins = Pins(out: bool, busy: bool, count: nat)

  function PowerUp(c: Config): State {
    State(false, false, 0, false, PulseGen.Reset(c.Pulse()))
  }

  function Step(c: Config, s: State, i: Input): State {
    var pulse := PulseGen.Step(c.Pulse(), s.pulse, s.on);
    var on := !i.reset && (s.busy || i.trigger);
    if i.reset then State(false, false, 0, false, pulse)
    else if !s.busy then
      if i.trigger then State(true, true, Trunc(c.pulses, c.countWidth), on, pulse)
      else State(false, false, s.count, on, pulse)
    else if !s.pulse.out then State(false, true, s.count, on, pulse)
    else if s.count > 0 then State(true, true, Trunc(s.count - 1, c.countWidth), on, pulse)
    else if i.trigger then State(true, true, Trunc(c.pulses, c.countWidth), on, pulse)
    else State(false, false, s.count, on, pulse)
  }

  function Edge(c: Config): (State, Input) -> State {
    (s, i) => Step(c, s, i)
  }

  function Look(): State -> Pins {
    (s: State) => Pins(s.out, s.busy, s.count)
  }

  class Generator {
    const c: Config
    const pulsegen: PulseGen.Generator
    var out: bool
    var busy: bool
    var count: nat
    var pulsegenOn: bool

    ghost predicate Valid()
      reads this, pulsegen
    {
      c.Valid() && pulsegen.c == c.Pulse() && pulsegen.count < Pow2(c.width)
    }

    ghost function View(): State
      reads this, pulsegen
    {
      State(out, busy, count, pulsegenOn, pulsegen.View())
    }

    constructor (c: Config)
      requires c.Valid()
      ensures this.c == c && Valid() && View() == PowerUp(c)
    {
      this.c := c;
      out, busy, count, pulsegenOn := false, false, 0, false;
      pulsegen := new PulseGen.Generator(c.Pulse());
    }

    method Tick(trigger: bool, reset: bool)
      requires Valid()
      modifies this, pulsegen
      ensures Valid() && View() == Step(c, old(View()), Input(trigger, reset))
    {
      var wasBusy, wasOn, pulse := busy, pulsegenOn, pulsegen.out;
      out := false;
      pulsegenOn := !reset && (wasBusy || trigger);
      if reset {
        out, busy, count, pulsegenOn := false, false, 0, false;
      } else if !wasBusy {
        if trigger {
          busy, out, count := true, true, Trunc(c.pulses, c.countWidth);
        }
      } else if pulse {
        if count == 0 {
          if trigger {
            out, count := true, Trunc(c.pulses, c.countWidth);
          } else {
            busy := false;
          }
        } else {
          out, count := true, Trunc(count - 1, c.countWidth);
        }
      }
      pulsegen.Tick(wasOn);
    }
  }

  // ---------------------------------------------------------------- the ideal burst

  /** At rest (Fell: in the one cycle after a burst ended), or in a burst with so many pulses left
      and so many cycles to wait before the next event. */
  datatype Ideal = Rest | Fell | Active(left: nat, wait: nat, out: bool)

  function Shown(i: Ideal): Pins {
    if i.Active? then Pins(i.out, true, i.left) else Pins(false, false, 0)
  }

  function IdealStep(c: Config, s: Ideal, i: Input): Ideal {
    if i.reset then Rest
    else match s
      case Rest => if i.trigger then Active(c.pulses, c.FirstWait(), true) else Rest
      case Fell => if i.trigger then Active(c.pulses, c.period, true) else Rest
      case Active(left, wait, _) =>
        if wait > 0 then Active(left, wait - 1, false)
        else if left > 0 then Active(left - 1, c.period + 1, true)
        else if i.trigger then Active(c.pulses, c.period + 1, true)
        else Fell
  }

  function IdealEdge(c: Config): (Ideal, Input) -> Ideal {
    (s, i) => IdealStep(c, s, i)
  }

  /** The running pulse generator will show its next pulse in so many cycles. */
  ghost predicate PulseIn(c: Config, p: PulseGen.State, wait: nat) {
    if wait == 0 then p == PulseGen.State(true, false, c.period)
    else if wait == 1 then !p.out && p.carry
    else p == PulseGen.State(false, false, wait - 2) && wait - 2 < Pow2(c.width)
  }

  ghost predicate Refined(c: Config, s: State, i: Ideal) {
    && Look()(s) == Shown(i)
    && match i
       case Rest => !s.on
       case Fell => s.on && PulseIn(c, s.pulse, c.period + 1)
       case Active(left, wait, _) => s.on && left < Pow2(c.countWidth) && PulseIn(c, s.pulse, wait)
  }

  lemma {:induction false} PulseNext(c: Config, p: PulseGen.State, wait: nat)
    requires c.Valid() && PulseIn(c, p, wait)
    ensures PulseIn(c, PulseGen.Step(c.Pulse(), p, true), if wait == 0 then c.period + 1 else wait - 1)
  {
    if p.count > 0 && !p.carry {
      TruncFits(p.count - 1, c.width);
    }
  }

  lemma {:induction false} RefinedStep(c: Config, s: State, t: Ideal, i: Input)
    requires c.Valid() && Refined(c, s, t)
    ensures Refined(c, Step(c, s, i), IdealStep(c, t, i))
  {
    TruncFits(c.pulses, c.countWidth);
    if s.count > 0 && s.busy {
      TruncFits(s.count - 1, c.countWidth);
    }
    match t
    case Rest =>
    case Fell => PulseNext(c, s.pulse, c.period + 1);
    case Active(left, wait, _) => PulseNext(c, s.pulse, wait);
  }

  /** Refinement: for every sequence of triggers and resets the burst generator shows what the
      ideal one shows. */
  lemma {:induction false} Refines(c: Config, s: State, t: Ideal, ins: seq<Input>)
    requires c.Valid() && Refined(c, s, t)
    ensures Trace(Edge(c), Look(), s, ins) == Trace(IdealEdge(c), Shown, t, ins)
    ensures Refined(c, Run(Edge(c), s, ins), Run(IdealEdge(c), t, ins))
    decreases |ins|
  {
    if ins != [] {
      RefinedStep(c, s, t, ins[0]);
      Refines(c, Step(c, s, ins[0]), IdealStep(c, t, ins[0]), ins[1..]);
    }
  }

  // ---------------------------------------------------------------- the burst waveform

  /** One pulse, and the cycles without one after it. */
  function Gap(left: nat, wait: nat): seq<Pins> {
    [Pins(true, true, left)] + Rep(Pins(false, true, left), wait)
  }

  /** The pulses left .. 0, each a period apart, when the first one is followed by wait cycles. */
  function BurstWave(c: Config, left: nat, wait: nat): seq<Pins>
    decreases left, 1
  {
    Gap(left, wait) + LaterPulses(c, left)
  }

  function LaterPulses(c: Config, left: nat): seq<Pins>
    decreases left, 0
  {
    if left == 0 then [] else BurstWave(c, left - 1, c.period + 1)
  }

  ghost predicate NoReset(ins: seq<Input>) {
    forall k :: 0 <= k < |ins| ==> !ins[k].reset
  }

  lemma {:induction false} WaitOut(c: Config, left: nat, wait: nat, ins: seq<Input>)
    requires NoReset(ins) && |ins| == wait
    ensures Behaves(IdealEdge(c), Shown, Active(left, wait, false), ins, Rep(Pins(false, true, left), wait),
                    Active(left, 0, false))
    decreases wait
  {
    if wait > 0 {
      WaitOut(c, left, wait - 1, ins[1..]);
      assert [Pins(false, true, left)] + Rep(Pins(false, true, left), wait - 1) == Rep(Pins(false, true, left), wait);
    }
  }

  /** The last cycle of a pulse's gap: the state is about to act. */
  function Acting(left: nat, wait: nat): Ideal {
    Active(left, 0, wait == 0)
  }

  lemma {:induction false} OneGap(c: Config, left: nat, wait: nat, ins: seq<Input>)
    requires NoReset(ins) && |ins| == wait
    ensures Trace(IdealEdge(c), Shown, Active(left, wait, true), ins) + [Shown(Acting(left, wait))] == Gap(left, wait)
    ensures Run(IdealEdge(c), Active(left, wait, true), ins) == Acting(left, wait)
  {
    if wait > 0 {
      WaitOut(c, left, wait - 1, ins[1..]);
      assert IdealStep(c, Active(left, wait, true), ins[0]) == Active(left, wait - 1, false);
    }
  }

  lemma {:induction false} WholeGap(c: Config, left: nat, wait: nat, ins: seq<Input>) returns (t: Ideal)
    requires NoReset(ins) && |ins| == wait + 1
    ensures t == IdealStep(c, Acting(left, wait), ins[wait])
    ensures Behaves(IdealEdge(c), Shown, Active(left, wait, true), ins, Gap(left, wait), t)
  {
    var s, a := Active(left, wait, true), Acting(left, wait);
    t := IdealStep(c, a, ins[wait]);
    OneGap(c, left, wait, ins[..wait]);
    Once(IdealEdge(c), Shown, a, ins[wait..]);
    Compose(IdealEdge(c), Shown, s, ins, wait, Trace(IdealEdge(c), Shown, s, ins[..wait]), a, [Shown(a)], t);
  }

  /** What a burst leads to: a trigger in its last cycle starts the next one without a break. */
  function AfterBurst(c: Config, last: Input): Ideal {
    if last.trigger then Active(c.pulses, c.period + 1, true) else Fell
  }

  /** A burst that is not reset shows exactly its waveform, whatever the trigger does meanwhile. */
  lemma {:induction false} Burst(c: Config, left: nat, wait: nat, ins: seq<Input>)
    requires NoReset(ins) && |ins| == |BurstWave(c, left, wait)|
    ensures Behaves(IdealEdge(c), Shown, Active(left, wait, true), ins, BurstWave(c, left, wait),
                    AfterBurst(c, ins[|ins| - 1]))
    decreases left
  {
    var n := wait + 1;
    var t := WholeGap(c, left, wait, ins[..n]);
    if left == 0 {
      assert ins[..n] == ins;
    } else {
      Burst(c, left - 1, c.period + 1, ins[n..]);
      Compose(IdealEdge(c), Shown, Active(left, wait, true), ins, n, Gap(left, wait), t,
              BurstWave(c, left - 1, c.period + 1), AfterBurst(c, ins[|ins| - 1]));
    }
  }

  /** When pulse j of a burst comes, in cycles after the first one. */
  function PulseTime(c: Config, wait: nat, j: nat): nat
    decreases j
  {
    if j == 0 then 0 else wait + 1 + PulseTime(c, c.period + 1, j - 1)
  }

  /** From each pulse time to the next the waveform is one pulse and its gap, the count going down. */
  lemma {:induction false} GapAt(c: Config, left: nat, wait: nat, j: nat)
    requires j <= left
    ensures PulseTime(c, wait, j) <= PulseTime(c, wait, j + 1) <= |BurstWave(c, left, wait)|
    ensures BurstWave(c, left, wait)[PulseTime(c, wait, j)..PulseTime(c, wait, j + 1)]
         == Gap(left - j, if j == 0 then wait else c.period + 1)
    decreases left
  {
    if j == 0 {
      SliceOfHead(Gap(left, wait), LaterPulses(c, left));
    } else {
      var b, e := PulseTime(c, c.period + 1, j - 1), PulseTime(c, c.period + 1, j);
      GapAt(c, left - 1, c.period + 1, j - 1);
      SliceOfTail(Gap(left, wait), LaterPulses(c, left), b, e);
    }
  }

  /** The time of the last pulse before cycle m of a burst. */
  function LastPulse(c: Config, wait: nat, m: nat): (b: nat)
    requires m >= 1
    ensures b < m
    decreases m
  {
    if m <= wait + 1 then 0 else wait + 1 + LastPulse(c, c.period + 1, m - wait - 1)
  }

  lemma {:induction false} LastPulseIs(c: Config, wait: nat, j: nat, m: nat)
    requires PulseTime(c, wait, j) < m <= PulseTime(c, wait, j + 1)
    ensures LastPulse(c, wait, m) == PulseTime(c, wait, j)
    decreases j
  {
    if j > 0 {
      LastPulseIs(c, c.period + 1, j - 1, m - wait - 1);
    }
  }

  /** Every cycle of a burst comes after one of its pulses, up to the next one. */
  lemma {:induction false} FindPulse(c: Config, left: nat, wait: nat, m: nat) returns (j: nat)
    requires 1 <= m <= |BurstWave(c, left, wait)|
    ensures j <= left && PulseTime(c, wait, j) < m <= PulseTime(c, wait, j + 1)
    decreases left
  {
    if m <= wait + 1 {
      j := 0;
    } else {
      j := FindPulse(c, left - 1, c.period + 1, m - wait - 1);
      j := j + 1;
    }
  }

  lemma {:induction false} PulseTimesGrow(c: Config, wait: nat, i: nat, j: nat)
    requires i < j
    ensures PulseTime(c, wait, i) < PulseTime(c, wait, j)
    decreases i
  {
    if i > 0 {
      PulseTimesGrow(c, c.period + 1, i - 1, j - 1);
    }
  }

  /** Pulse j comes within the burst, with its count. */
  lemma {:induction false} PulseAt(c: Config, left: nat, wait: nat, j: nat)
    requires j <= left
    ensures PulseTime(c, wait, j) < |BurstWave(c, left, wait)|
    ensures BurstWave(c, left, wait)[PulseTime(c, wait, j)] == Pins(true, true, left - j)
    decreases left
  {
    if j > 0 {
      PulseAt(c, left - 1, c.period + 1, j - 1);
    }
  }

  /** All pulses come within the burst, and the time of one pulse more is its end. */
  lemma {:induction false} PulsesFit(c: Config, left: nat, wait: nat, j: nat)
    requires j <= left + 1
    ensures j <= left ==> PulseTime(c, wait, j) < |BurstWave(c, left, wait)|
    ensures j == left + 1 ==> PulseTime(c, wait, j) == |BurstWave(c, left, wait)|
    decreases left
  {
    if j > 0 && left > 0 {
      PulsesFit(c, left - 1, c.period + 1, j - 1);
    }
  }

  /** After the pulse of a count only pulses of smaller counts come. */
  lemma {:induction false} OnlySmallerCounts(c: Config, left: nat, wait: nat, j: nat, m: nat)
    requires j <= left && PulseTime(c, wait, j) < m < |BurstWave(c, left, wait)|
    ensures BurstWave(c, left, wait)[m].out ==> BurstWave(c, left, wait)[m].count < left - j
    decreases left
  {
    if m > wait {
      var later := BurstWave(c, left - 1, c.period + 1);
      assert BurstWave(c, left, wait)[m] == later[m - wait - 1];
      CountsBelow(c, left - 1, c.period + 1, m - wait - 1);
      if j > 0 {
        OnlySmallerCounts(c, left - 1, c.period + 1, j - 1, m - wait - 1);
      }
    }
  }

  lemma {:induction false} CountsBelow(c: Config, left: nat, wait: nat, m: nat)
    requires m < |BurstWave(c, left, wait)|
    ensures BurstWave(c, left, wait)[m].count <= left
    decreases left
  {
    if m > wait {
      CountsBelow(c, left - 1, c.period + 1, m - wait - 1);
    }
  }

  lemma {:induction false} SliceOfHead<T>(x: seq<T>, y: seq<T>)
    ensures (x + y)[0..|x|] == x
  {
  }

  lemma {:induction false} SliceOfTail<T>(x: seq<T>, y: seq<T>, b: nat, e: nat)
    requires b <= e <= |y|
    ensures (x + y)[|x| + b..|x| + e] == y[b..e]
  {
  }

  /** The pulse times in closed form; the last one is the end of the burst. */
  lemma {:induction false} PulseTimes(c: Config, wait: nat, j: nat)
    ensures PulseTime(c, wait, j) == if j == 0 then 0 else wait + 1 + (j - 1) * (c.period + 2)
    decreases j
  {
    if j > 1 {
      PulseTimes(c, c.period + 1, j - 1);
      OneMore(j - 2, c.period + 2);
    }
  }

  // ---------------------------------------------------------------- the generator itself

  /** A trigger is accepted at rest, and in the last cycle of a burst, when its last gap ends. */
  predicate Accepts(s: State) {
    !s.busy || (s.count == 0 && s.pulse.out)
  }

  /** Exactly then it makes a difference. */
  lemma {:induction false} TriggerMatters(c: Config, s: State)
    ensures Step(c, s, Input(true, false)) != Step(c, s, Input(false, false)) <==> Accepts(s)
  {
  }

  /** The wait after the first pulse of a burst triggered in state s: a full period when it follows the last
      burst without a break; one cycle less when the trigger meets the one cycle after the previous burst,
      with the pulse generator still on. */
  function StartWait(c: Config, s: State): nat {
    if s.busy then c.period + 1 else if s.on then c.period else c.FirstWait()
  }

  /** Every trigger accepted after any run from power-up, unless a reset cuts the burst, is answered
      by exactly the waveform of pulses + 1 pulses; and the burst is over, or followed by the next
      one, right after it. */
  lemma {:induction false} AcceptedTrigger(c: Config, past: seq<Input>, s: State, ins: seq<Input>, wait: nat)
    requires c.Valid() && ins != [] && NoReset(ins) && ins[0].trigger
    requires s == Run(Edge(c), PowerUp(c), past) && Accepts(s) && wait == StartWait(c, s)
    requires |ins| == 1 + |BurstWave(c, c.pulses, wait)|
    ensures var t := Step(c, s, ins[0]);
            && Trace(Edge(c), Look(), t, ins[1..]) == BurstWave(c, c.pulses, wait)
            && Look()(Run(Edge(c), t, ins[1..]))
               == if ins[|ins| - 1].trigger then Pins(true, true, c.pulses) else Pins(false, false, 0)
  {
    Refines(c, PowerUp(c), Rest, past);
    RefinedStep(c, s, Run(IdealEdge(c), Rest, past), ins[0]);
    Refines(c, Step(c, s, ins[0]), Active(c.pulses, wait, true), ins[1..]);
    Burst(c, c.pulses, wait, ins[1..]);
  }

  /** In the last cycle of a burst the next trigger is accepted. */
  lemma {:induction false} LastCycle(c: Config, past: seq<Input>, s: State, ins: seq<Input>, wait: nat)
    requires c.Valid() && ins != [] && NoReset(ins) && ins[0].trigger
    requires s == Run(Edge(c), PowerUp(c), past) && Accepts(s) && wait == StartWait(c, s)
    requires |ins| == 1 + |BurstWave(c, c.pulses, wait)|
    ensures var last := Run(Edge(c), Step(c, s, ins[0]), ins[1..|ins| - 1]);
            last.busy && Accepts(last)
  {
    var t, n := Step(c, s, ins[0]), |ins| - 1;
    Refines(c, PowerUp(c), Rest, past);
    RefinedStep(c, s, Run(IdealEdge(c), Rest, past), ins[0]);
    var body := ins[1..n];
    Refines(c, t, Active(c.pulses, wait, true), body);
    LastIdeal(c, c.pulses, wait, body);
  }

  lemma {:induction false} LastIdeal(c: Config, left: nat, wait: nat, ins: seq<Input>)
    requires NoReset(ins) && |ins| + 1 == |BurstWave(c, left, wait)|
    ensures exists out :: Run(IdealEdge(c), Active(left, wait, true), ins) == Active(0, 0, out)
    decreases left
  {
    if left == 0 {
      OneGap(c, left, wait, ins);
    } else {
      var n, rest := wait + 1, BurstWave(c, left - 1, c.period + 1);
      assert |rest| >= |Gap(left - 1, c.period + 1)|;
      var t := WholeGap(c, left, wait, ins[..n]);
      LastIdeal(c, left - 1, c.period + 1, ins[n..]);
      assert ins == ins[..n] + ins[n..];
      RunSplit(IdealEdge(c), Active(left, wait, true), ins[..n], ins[n..]);
    }
  }

  function Pulses(pins: seq<Pins>): nat {
    if pins == [] then 0 else (if pins[0].out then 1 else 0) + Pulses(pins[1..])
  }

  lemma {:induction false} PulsesSplit(a: seq<Pins>, b: seq<Pins>)
    ensures Pulses(a + b) == Pulses(a) + Pulses(b)
    decreases |a|
  {
    if a == [] {
      assert a + b == b;
    } else {
      assert (a + b)[1..] == a[1..] + b;
      PulsesSplit(a[1..], b);
    }
  }

  lemma {:induction false} NoPulses(left: nat, n: nat)
    ensures Pulses(Rep(Pins(false, true, left), n)) == 0
    decreases n
  {
    if n > 0 {
      NoPulses(left, n - 1);
      assert Rep(Pins(false, true, left), n)[1..] == Rep(Pins(false, true, left), n - 1);
    }
  }

  lemma {:induction false} PulsesGap(left: nat, wait: nat)
    ensures Pulses(Gap(left, wait)) == 1
  {
    NoPulses(left, wait);
    assert Gap(left, wait)[1..] == Rep(Pins(false, true, left), wait);
  }

  lemma {:induction false} BurstPulses(c: Config, left: nat, wait: nat)
    ensures Pulses(BurstWave(c, left, wait)) == left + 1
    decreases left
  {
    PulsesGap(left, wait);
    if left == 0 {
      assert BurstWave(c, left, wait) == Gap(left, wait);
    } else {
      BurstPulses(c, left - 1, c.period + 1);
      PulsesSplit(Gap(left, wait), BurstWave(c, left - 1, c.period + 1));
    }
  }

  lemma {:induction false} BurstBusy(c: Config, left: nat, wait: nat)
    ensures forall k :: 0 <= k < |BurstWave(c, left, wait)| ==> BurstWave(c, left, wait)[k].busy
    decreases left
  {
    if left > 0 {
      BurstBusy(c, left - 1, c.period + 1);
      assert forall k :: 0 <= k < |LaterPulses(c, left)| ==> LaterPulses(c, left)[k].busy;
    }
  }

  lemma {:induction false} BurstLength(c: Config, left: nat, wait: nat)
    ensures |BurstWave(c, left, wait)| == wait + 1 + left * (c.period + 2)
    decreases left
  {
    if left > 0 {
      BurstLength(c, left - 1, c.period + 1);
      OneMore(left - 1, c.period + 2);
    }
  }

  lemma {:induction false} OneMore(n: nat, p: nat)
    ensures (n + 1) * p == n * p + p
  {
  }

  /** Exact numbers of a burst: left + 1 pulses, busy throughout, for wait + 1 cycles and left periods. */
  lemma {:induction false} BurstNumbers(c: Config, left: nat, wait: nat)
    ensures Pulses(BurstWave(c, left, wait)) == left + 1
    ensures |BurstWave(c, left, wait)| == wait + 1 + left * (c.period + 2)
    ensures forall k :: 0 <= k < |BurstWave(c, left, wait)| ==> BurstWave(c, left, wait)[k].busy
  {
    BurstPulses(c, left, wait);
    BurstBusy(c, left, wait);
    BurstLength(c, left, wait);
  }

  /** From rest the first gap is a full period, and the burst lasts (pulses + 1) * (period + 2) cycles,
      exactly when the period is not zero; with a zero period the counter of the pulse generator wraps
      around and the first gap is longer by 2^width. */
  lemma {:induction false} FirstGap(c: Config)
    requires c.Valid()
    ensures c.FirstWait() == c.period + 1 <==> c.period >= 1
    ensures |BurstWave(c, c.pulses, c.FirstWait())| == (c.pulses + 1) * (c.period + 2) <==> c.period >= 1
    ensures c.period == 0 ==> c.FirstWait() == c.period + 1 + Pow2(c.width)
  {
    BurstLength(c, c.pulses, c.FirstWait());
    OneMore(c.pulses, c.period + 2);
    if c.period >= 1 {
      TruncFits(c.period - 1, c.width);
    } else {
      ModUnique(-1, Pow2(c.width), -1, Pow2(c.width) - 1);
    }
  }

  /** A burst triggered in the one cycle after the last one is one cycle shorter. */
  lemma {:induction false} ShortenedBurst(c: Config)
    ensures |BurstWave(c, c.pulses, c.period)| == (c.pulses + 1) * (c.period + 2) - 1
  {
    BurstLength(c, c.pulses, c.period);
    OneMore(c.pulses, c.period + 2);
  }
}
