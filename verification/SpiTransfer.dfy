/** What the SPI transmitter puts on its wires: the waveform of a transfer, cycle by cycle,
    and what an ideal receiver that sees only those wires makes of it. */
module SpiTransfer {
  import opened Bits
  import opened Clocked
  import opened SpiMachine
  import opened Sequences

  /** The clocked machine as a total step function. */
  function Edge(c: Config): (State, Input) -> State {
    (s: State, i: Input) => if Wired(c, s, i) then Step(c, s, i) else s
  }

  function Look(c: Config): State -> Pins {
    (s: State) => View(c, s)
  }

  ghost predicate Fed(c: Config, ins: seq<Input>) {
    forall k :: 0 <= k < |ins| ==> |ins[k].pdo| == c.width
  }

  // ---------------------------------------------------------------- the ideal waveform

  /** System clock cycles in one half-cycle of the SPI clock. */
  function Half(c: Config): nat {
    c.Reload() + 2
  }

  /** System clock cycles in n half-cycles. */
  function Cycles(c: Config, n: nat): nat {
    if n == 0 then 0 else Half(c) + Cycles(c, n - 1)
  }

  /** The order in which the bits of a word go over the wire. */
  function Serial(c: Config, word: seq<bool>): seq<bool> {
    if c.lsbFirst then word else Reverse(word)
  }

  function BitWave(c: Config, b: bool): seq<Pins> {
    Rep(Pins(false, true, c.phase, b), Half(c)) + Rep(Pins(false, true, !c.phase, b), Half(c))
  }

  function WordWave(c: Config, bits: seq<bool>): seq<Pins> {
    if bits == [] then [] else BitWave(c, bits[0]) + WordWave(c, bits[1..])
  }

  const REST := Pins(true, false, false, false)
  const SELECTED := Pins(false, true, false, false)
  const DESELECTED := Pins(false, false, false, false)

  /** The idle cycle that sees start, then chip select alone for the leading half-cycles. */
  function Opening(c: Config): seq<Pins> {
    [REST] + Rep(SELECTED, Cycles(c, c.Leading()) + 1)
  }

  /** Chip select alone for the trailing half-cycles, then nothing for the idle ones. */
  function Closing(c: Config): seq<Pins> {
    Rep(SELECTED, Cycles(c, c.trailing) + 2) + Rep(DESELECTED, Cycles(c, c.idle) + 1)
  }

  /** A whole transfer, from the idle cycle that sees start to the last cycle before idle. */
  function Waveform(c: Config, word: seq<bool>): seq<Pins> {
    Opening(c) + WordWave(c, Serial(c, word)) + Closing(c)
  }

  /** The cycle of a transfer in which the word to send is read. */
  function LatchCycle(c: Config): nat {
    Cycles(c, c.Leading()) + 1
  }

  function TransferCycles(c: Config): nat {
    |Opening(c)| + Cycles(c, 2 * c.width) + |Closing(c)|
  }

  // ---------------------------------------------------------------- one half-cycle

  ghost predicate Ready(c: Config, s: State) {
    s.phase.Idle? && s.clock == ClockState(false, false, 0) && |s.shift.sr| == c.width && !s.shift.sdo
  }

  ghost predicate Waiting(c: Config, s: State) {
    !s.phase.Idle? && 0 < s.counter < Pow2(c.CounterWidth()) && |s.shift.sr| == c.width
  }

  /** Where a half-cycle leads to. */
  function AfterHalf(c: Config, s: State): State
    requires c.Valid() && |s.shift.sr| == c.width && s.counter > 0
  {
    match s.phase
    case First => s.(phase := Second, clock := ClockState(true, false, 0))
    case Second => State(First, s.counter - 1, ClockState(s.counter > 1, false, 0), Next(c, s.shift))
    case _ => s.(counter := s.counter - 1, clock := ClockState(s.counter > 1, false, 0))
  }

  function Next(c: Config, s: ShiftState): ShiftState
    requires c.Valid() && |s.sr| == c.width
  {
    ShiftStep(c, s, false, true, s.sr)
  }

  lemma {:induction false} CountStep(c: Config, s: State, i: Input, n: nat)
    requires c.Valid() && |i.pdo| == c.width && Waiting(c, s)
    requires s.clock == ClockState(false, true, n + 1) && n + 1 < Pow2(Length(c.div))
    ensures Edge(c)(s, i) == s.(clock := ClockState(false, true, n))
  {
    TruncFits(s.counter, c.CounterWidth());
    TruncFits(n, Length(c.div));
  }

  lemma {:induction false} CountDown(c: Config, s: State, ins: seq<Input>)
    requires c.Valid() && Fed(c, ins) && Waiting(c, s)
    requires s.clock == ClockState(false, true, |ins|) && |ins| < Pow2(Length(c.div))
    ensures Behaves(Edge(c), Look(c), s, ins, Rep(View(c, s), |ins|), s.(clock := ClockState(false, true, 0)))
    decreases |ins|
  {
    if ins != [] {
      var t := s.(clock := ClockState(false, true, |ins| - 1));
      CountStep(c, s, ins[0], |ins| - 1);
      CountDown(c, t, ins[1..]);
      assert [View(c, s)] + Rep(View(c, t), |ins| - 1) == Rep(View(c, s), |ins|);
    }
  }

  lemma {:induction false} HalfCycle(c: Config, s: State, ins: seq<Input>)
    requires c.Valid() && Fed(c, ins) && Waiting(c, s)
    requires s.clock == ClockState(true, false, 0) && |ins| == Half(c)
    ensures Behaves(Edge(c), Look(c), s, ins, Rep(View(c, s), Half(c)), AfterHalf(c, s))
  {
    var n := c.Reload();
    var t := s.(clock := ClockState(false, true, n));
    var u := s.(clock := ClockState(false, true, 0));
    TruncFits(s.counter, c.CounterWidth());
    TruncFits(s.counter - 1, c.CounterWidth());
    Once(Edge(c), Look(c), s, ins[..1]);
    assert Edge(c)(s, ins[0]) == t;
    var rest := ins[1..];
    CountDown(c, t, rest[..n]);
    Once(Edge(c), Look(c), u, rest[n..]);
    assert Edge(c)(u, rest[n]) == AfterHalf(c, s);
    Compose(Edge(c), Look(c), t, rest, n, Rep(View(c, t), n), u, [View(c, u)], AfterHalf(c, s));
    Compose(Edge(c), Look(c), s, ins, 1, [View(c, s)], t, Rep(View(c, t), n) + [View(c, u)], AfterHalf(c, s));
    assert [View(c, s)] + (Rep(View(c, t), n) + [View(c, u)]) == Rep(View(c, s), Half(c));
  }

  // ---------------------------------------------------------------- whole stages

  ghost predicate Holding(s: State) {
    s.phase.Leading? || s.phase.Trailing? || s.phase.IdleHalf?
  }

  lemma {:induction false} Hold(c: Config, s: State, ins: seq<Input>)
    requires c.Valid() && Fed(c, ins) && Holding(s)
    requires s.counter < Pow2(c.CounterWidth()) && |s.shift.sr| == c.width
    requires s.clock == ClockState(s.counter > 0, false, 0) && |ins| == Cycles(c, s.counter)
    ensures Behaves(Edge(c), Look(c), s, ins, Rep(View(c, s), Cycles(c, s.counter)),
                    s.(counter := 0, clock := ClockState(false, false, 0)))
    decreases s.counter
  {
    if s.counter > 0 {
      var h, n := Half(c), Cycles(c, s.counter - 1);
      HalfCycle(c, s, ins[..h]);
      var t := AfterHalf(c, s);
      Hold(c, t, ins[h..]);
      Compose(Edge(c), Look(c), s, ins, h, Rep(View(c, s), h), t, Rep(View(c, t), n),
              s.(counter := 0, clock := ClockState(false, false, 0)));
      assert Rep(View(c, s), h) + Rep(View(c, t), n) == Rep(View(c, s), h + n);
    }
  }

  /** All the half-cycles of a stage, and the cycle in which the state machine leaves it. */
  lemma {:induction false} HoldAndLeave(c: Config, s: State, ins: seq<Input>) returns (t: State)
    requires c.Valid() && Fed(c, ins) && Holding(s)
    requires s.counter < Pow2(c.CounterWidth()) && |s.shift.sr| == c.width
    requires s.clock == ClockState(s.counter > 0, false, 0) && |ins| == Cycles(c, s.counter) + 1
    ensures Behaves(Edge(c), Look(c), s, ins, Rep(View(c, s), |ins|), t)
    ensures t == Edge(c)(s.(counter := 0, clock := ClockState(false, false, 0)), ins[|ins| - 1])
  {
    var n := Cycles(c, s.counter);
    Hold(c, s, ins[..n]);
    var b := s.(counter := 0, clock := ClockState(false, false, 0));
    t := Edge(c)(b, ins[n]);
    Once(Edge(c), Look(c), b, ins[n..]);
    Compose(Edge(c), Look(c), s, ins, n, Rep(View(c, s), n), b, [View(c, b)], t);
    assert Rep(View(c, s), n) + [View(c, b)] == Rep(View(c, s), n + 1);
  }

  /** The shift register still has to send bits, and the output shows the first of them. */
  ghost predicate Loaded(c: Config, s: ShiftState, bits: seq<bool>) {
    && c.Valid() && |s.sr| == c.width && |bits| <= c.width
    && s.sdo == s.sr[c.At(0)]
    && (forall n :: 0 <= n < c.width ==> s.sr[c.At(n)] == (n < |bits| && bits[n]))
  }

  lemma {:induction false} LoadedShift(c: Config, s: ShiftState, bits: seq<bool>)
    requires Loaded(c, s, bits) && bits != []
    ensures Loaded(c, Next(c, s), bits[1..])
  {
    var t := Next(c, s);
    forall n | 0 <= n < c.width
      ensures t.sr[c.At(n)] == (n < |bits[1..]| && bits[1..][n])
    {
      if n + 1 < c.width {
        assert t.sr[c.At(n)] == s.sr[c.At(n + 1)];
      }
    }
  }

  lemma {:induction false} LoadedInit(c: Config, word: seq<bool>)
    requires c.Valid() && |word| == c.width
    ensures Loaded(c, ShiftState(word, word[c.At(0)]), Serial(c, word))
  {
  }

  ghost predicate Sending(c: Config, s: State, bits: seq<bool>) {
    && s.phase.First? && s.counter == |bits| < Pow2(c.CounterWidth())
    && s.clock == ClockState(bits != [], false, 0) && Loaded(c, s.shift, bits)
  }

  lemma {:induction false} SendBit(c: Config, s: State, bits: seq<bool>, ins: seq<Input>) returns (t: State)
    requires Fed(c, ins) && Sending(c, s, bits) && bits != [] && |ins| == 2 * Half(c)
    ensures Behaves(Edge(c), Look(c), s, ins, BitWave(c, bits[0]), t)
    ensures Sending(c, t, bits[1..])
  {
    var h := Half(c);
    assert s.shift.sdo == bits[0];
    HalfCycle(c, s, ins[..h]);
    var m := AfterHalf(c, s);
    HalfCycle(c, m, ins[h..]);
    t := AfterHalf(c, m);
    Compose(Edge(c), Look(c), s, ins, h, Rep(View(c, s), h), m, Rep(View(c, m), h), t);
    LoadedShift(c, s.shift, bits);
  }

  lemma {:induction false} SendWord(c: Config, s: State, bits: seq<bool>, ins: seq<Input>) returns (t: State)
    requires Fed(c, ins) && Sending(c, s, bits) && |ins| == Cycles(c, 2 * |bits|)
    ensures Behaves(Edge(c), Look(c), s, ins, WordWave(c, bits), t)
    ensures Sending(c, t, [])
    decreases |bits|
  {
    if bits == [] {
      t := s;
    } else {
      var n := 2 * Half(c);
      assert Cycles(c, 2 * |bits|) == n + Cycles(c, 2 * |bits[1..]|);
      var m := SendBit(c, s, bits, ins[..n]);
      t := SendWord(c, m, bits[1..], ins[n..]);
      Compose(Edge(c), Look(c), s, ins, n, BitWave(c, bits[0]), m, WordWave(c, bits[1..]), t);
    }
  }

  lemma {:induction false} CountersFit(c: Config)
    ensures c.leading < Pow2(c.CounterWidth()) && c.trailing < Pow2(c.CounterWidth())
    ensures c.width < Pow2(c.CounterWidth()) && c.idle < Pow2(c.CounterWidth())
    ensures c.Leading() < Pow2(c.CounterWidth())
  {
    LengthHolds(c.leading); LengthHolds(c.trailing); LengthHolds(c.width); LengthHolds(c.idle);
    Pow2Monotone(Length(c.leading), c.CounterWidth());
    Pow2Monotone(Length(c.trailing), c.CounterWidth());
    Pow2Monotone(Length(c.width), c.CounterWidth());
    Pow2Monotone(Length(c.idle), c.CounterWidth());
    Pow2Monotone(1, c.CounterWidth());
    assert Pow2(1) == 2;
  }

  // ---------------------------------------------------------------- one transfer

  /** From the idle cycle that sees start until the first data bit is on the wire. */
  lemma {:induction false} Begin(c: Config, s: State, ins: seq<Input>) returns (t: State)
    requires c.Valid() && Ready(c, s) && Fed(c, ins) && |ins| == LatchCycle(c) + 1 && ins[0].start
    ensures Behaves(Edge(c), Look(c), s, ins, Opening(c), t)
    ensures Sending(c, t, Serial(c, ins[LatchCycle(c)].pdo))
  {
    CountersFit(c);
    TruncFits(c.Leading(), c.CounterWidth());
    TruncFits(c.width, c.CounterWidth());
    var a := State(Leading, c.Leading(), ClockState(c.Leading() > 0, false, 0), s.shift);
    Once(Edge(c), Look(c), s, ins[..1]);
    var rest := ins[1..];
    t := HoldAndLeave(c, a, rest);
    LoadedInit(c, rest[|rest| - 1].pdo);
    Compose(Edge(c), Look(c), s, ins, 1, [REST], a, Rep(SELECTED, |rest|), t);
  }

  /** The state in which the trailing half-cycles begin, and the cycles from there to idle. */
  function TrailingStart(c: Config, shift: ShiftState): State {
    State(Trailing, c.trailing, ClockState(c.trailing > 0, false, 0), shift)
  }

  lemma {:induction false} ClosingTail(c: Config)
    ensures Rep(SELECTED, Cycles(c, c.trailing) + 1) + Rep(DESELECTED, Cycles(c, c.idle) + 1) == Closing(c)[1..]
  {
  }

  /** The cycles that leave the trailing and the idle half-cycles. */
  lemma {:induction false} LeaveHold(c: Config, shift: ShiftState, i: Input)
    requires c.Valid() && |shift.sr| == |i.pdo| == c.width
    ensures Edge(c)(State(Trailing, 0, ClockState(false, false, 0), shift), i)
         == State(IdleHalf, c.idle, ClockState(c.idle > 0, false, 0), shift)
    ensures Edge(c)(State(IdleHalf, 0, ClockState(false, false, 0), shift), i)
         == State(Idle, 0, ClockState(false, false, 0), shift)
  {
    CountersFit(c);
    TruncFits(c.idle, c.CounterWidth());
    TruncFits(0, c.CounterWidth());
  }

  function IdleStart(c: Config, shift: ShiftState): State {
    State(IdleHalf, c.idle, ClockState(c.idle > 0, false, 0), shift)
  }

  lemma {:induction false} HoldSelected(c: Config, shift: ShiftState, ins: seq<Input>)
    requires Fed(c, ins) && Loaded(c, shift, []) && |ins| == Cycles(c, c.trailing) + 1
    ensures Behaves(Edge(c), Look(c), TrailingStart(c, shift), ins, Rep(SELECTED, |ins|), IdleStart(c, shift))
  {
    CountersFit(c);
    var t := HoldAndLeave(c, TrailingStart(c, shift), ins);
    LeaveHold(c, shift, ins[|ins| - 1]);
  }

  lemma {:induction false} HoldDeselected(c: Config, shift: ShiftState, ins: seq<Input>) returns (t: State)
    requires Fed(c, ins) && Loaded(c, shift, []) && |ins| == Cycles(c, c.idle) + 1
    ensures Behaves(Edge(c), Look(c), IdleStart(c, shift), ins, Rep(DESELECTED, |ins|), t)
    ensures Ready(c, t)
  {
    CountersFit(c);
    t := HoldAndLeave(c, IdleStart(c, shift), ins);
    LeaveHold(c, shift, ins[|ins| - 1]);
  }

  lemma {:induction false} Release(c: Config, shift: ShiftState, ins: seq<Input>) returns (t: State)
    requires Fed(c, ins) && Loaded(c, shift, []) && |ins| == |Closing(c)| - 1
    ensures Behaves(Edge(c), Look(c), TrailingStart(c, shift), ins, Closing(c)[1..], t)
    ensures Ready(c, t)
  {
    var n, m := Cycles(c, c.trailing) + 1, Cycles(c, c.idle) + 1;
    ClosingTail(c);
    HoldSelected(c, shift, ins[..n]);
    t := HoldDeselected(c, shift, ins[n..]);
    Compose(Edge(c), Look(c), TrailingStart(c, shift), ins, n, Rep(SELECTED, n), IdleStart(c, shift),
            Rep(DESELECTED, m), t);
  }

  /** From the end of the last bit back to idle. */
  lemma {:induction false} Finish(c: Config, s: State, ins: seq<Input>) returns (t: State)
    requires Fed(c, ins) && Sending(c, s, []) && |ins| == |Closing(c)|
    ensures Behaves(Edge(c), Look(c), s, ins, Closing(c), t)
    ensures Ready(c, t)
  {
    CountersFit(c);
    TruncFits(c.trailing, c.CounterWidth());
    Once(Edge(c), Look(c), s, ins[..1]);
    t := Release(c, s.shift, ins[1..]);
    Compose(Edge(c), Look(c), s, ins, 1, [SELECTED], TrailingStart(c, s.shift), Closing(c)[1..], t);
    assert [SELECTED] + Closing(c)[1..] == Closing(c);
  }

  /** A transfer started from idle shows exactly the waveform of the word on pdo in the latch
      cycle and is idle again right after it, whatever start and pdo do meanwhile. */
  lemma {:induction false} Transfer(c: Config, s: State, ins: seq<Input>) returns (t: State)
    requires c.Valid() && Ready(c, s) && Fed(c, ins) && |ins| == TransferCycles(c) && ins[0].start
    ensures LatchCycle(c) < |ins|
    ensures Behaves(Edge(c), Look(c), s, ins, Waveform(c, ins[LatchCycle(c)].pdo), t)
    ensures Ready(c, t)
  {
    var n := |Opening(c)|;
    var m := n + Cycles(c, 2 * c.width);
    var bits := Serial(c, ins[n - 1].pdo);
    var a := Begin(c, s, ins[..n]);
    var b := SendWord(c, a, bits, ins[n..m]);
    t := Finish(c, b, ins[m..]);
    Compose3(Edge(c), Look(c), s, ins, n, m, Opening(c), a, WordWave(c, bits), b, Closing(c), t);
  }
}
