/** The SPI transmitter: a half-cycle clock generator, a shift register and the state
    machine that drives both. Each has a step function over its registers and a class whose
    Tick updates those registers in place; a Tick reads the values from before the clock edge. */
module SpiMachine {
  import opened Bits

  /** The build-time parameters, and the two wires held constant during use. */
  datatype Config = Config(width: nat, div: nat, leading: nat, trailing: nat, idle: nat,
                           phase: bool, lsbFirst: bool)
  {
    predicate Valid() { width >= 1 }

    /** What the clock generator reloads: div - 1, in as many bits as div needs. */
    function Reload(): nat {
      Trunc(div - 1, Length(div))
    }

    /** Leading half-cycles, at least one when the clock phase is set. */
    function Leading(): nat {
      if phase && leading == 0 then 1 else leading
    }

    function CounterWidth(): nat {
      Max(Max(Length(width), Length(leading)), Max(Length(trailing), Length(idle)))
    }

    /** Where in the shift register the n-th bit to send is: from the bottom up or from the top down. */
    function At(n: int): int {
      if lsbFirst then n else width - 1 - n
    }
  }

  datatype Phase = Idle | Leading | First | Second | Trailing | IdleHalf

  datatype ClockState = ClockState(start: bool, counting: bool, counter: nat)
  {
    /** High when the half-cycle is over, unless one is being started. */
    predicate Done() { counter == 0 && !start }
  }

  datatype ShiftState = ShiftState(sr: seq<bool>, sdo: bool)

  datatype State = State(phase: Phase, counter: nat, clock: ClockState, shift: ShiftState)

  datatype Input = Input(start: bool, pdo: seq<bool>)

  /** The wires a receiver (and the user of the module) can look at. */
  datatype Pins = Pins(idle: bool, cs: bool, clk: bool, sdo: bool)

  function View(c: Config, s: State): Pins {
    Pins(s.phase.Idle?,
         s.phase.Leading? || s.phase.First? || s.phase.Second? || s.phase.Trailing?,
         if s.phase.First? then c.phase && s.counter > 0 else s.phase.Second? && !c.phase,
         s.shift.sdo)
  }

  function PowerUp(c: Config): State {
    State(Idle, 0, ClockState(false, false, 0), ShiftState(seq(c.width, _ => false), false))
  }

  /** The clock generator's own registers; start is driven from outside. */
  function ClockStep(c: Config, s: ClockState): ClockState {
    if !s.counting then
      if s.start then s.(counting := true, counter := c.Reload()) else s
    else if s.Done() then s.(counting := false)
    else s.(counter := Trunc(s.counter - 1, Length(c.div)))
  }

  /** The shifted copy of the register that the next shift loads. */
  function Shifted(c: Config, sr: seq<bool>): (next: seq<bool>)
    requires c.Valid() && |sr| == c.width
    ensures |next| == c.width
  {
    if c.lsbFirst then sr[1..] + [false] else [false] + sr[..c.width - 1]
  }

  function ShiftStep(c: Config, s: ShiftState, init: bool, shift: bool, pdo: seq<bool>): ShiftState
    requires c.Valid() && |s.sr| == |pdo| == c.width
  {
    if shift then
      var next := Shifted(c, s.sr);
      ShiftState(next, next[c.At(0)])
    else if init then ShiftState(pdo, pdo[c.At(0)])
    else s
  }

  /** The next phase, counter and start wire of the state machine. */
  function Control(c: Config, s: State, start: bool): (Phase, int, bool) {
    match s.phase
    case Idle =>
      if !start then (Idle, s.counter, false)
      else if c.phase then (Leading, c.Leading(), true)
      else (Leading, c.leading, c.leading > 0)
    case Leading =>
      if s.counter == 0 then (First, c.width, true)
      else if s.clock.Done() then (Leading, s.counter - 1, s.counter > 1)
      else (Leading, s.counter, false)
    case First =>
      if s.counter == 0 then (Trailing, c.trailing, c.trailing > 0)
      else if s.clock.Done() then (Second, s.counter, true)
      else (First, s.counter, false)
    case Second =>
      if s.clock.Done() then (First, s.counter - 1, s.counter > 1)
      else (Second, s.counter, false)
    case Trailing =>
      if s.counter == 0 then (IdleHalf, c.idle, c.idle > 0)
      else if s.clock.Done() then (Trailing, s.counter - 1, s.counter > 1)
      else (Trailing, s.counter, false)
    case IdleHalf =>
      if s.counter == 0 then (Idle, s.counter, false)
      else if s.clock.Done() then (IdleHalf, s.counter - 1, s.counter > 1)
      else (IdleHalf, s.counter, false)
  }

  predicate Wired(c: Config, s: State, i: Input) {
    c.Valid() && |s.shift.sr| == |i.pdo| == c.width
  }

  function Init(s: State): bool {
    s.phase.Leading? && s.counter == 0
  }

  function Shift(s: State): bool {
    s.phase.Second? && s.clock.Done()
  }

  function Step(c: Config, s: State, i: Input): (s': State)
    requires Wired(c, s, i)
    ensures |s'.shift.sr| == c.width
  {
    var (phase, counter, start) := Control(c, s, i.start);
    State(phase, Trunc(counter, c.CounterWidth()), ClockStep(c, s.clock).(start := start),
          ShiftStep(c, s.shift, Init(s), Shift(s), i.pdo))
  }

  class ClockGen {
    const c: Config
    var start: bool
    var counting: bool
    var counter: nat

    ghost function View(): ClockState
      reads this
    {
      ClockState(start, counting, counter)
    }

    constructor (c: Config)
      ensures this.c == c && View() == PowerUp(c).clock
    {
      this.c := c;
      start, counting, counter := false, false, 0;
    }

    method Tick()
      modifies this
      ensures View() == ClockStep(c, old(View()))
    {
      var done := counter == 0 && !start;
      if !counting {
        if start {
          counter := Trunc(c.div - 1, Length(c.div));
          counting := true;
        }
      } else if done {
        counting := false;
      } else {
        counter := Trunc(counter - 1, Length(c.div));
      }
    }
  }

  class Register {
    const c: Config
    var sr: seq<bool>
    var sdo: bool

    ghost function View(): ShiftState
      reads this
    {
      ShiftState(sr, sdo)
    }

    constructor (c: Config)
      ensures this.c == c && View() == PowerUp(c).shift
    {
      this.c := c;
      sr, sdo := seq(c.width, _ => false), false;
    }

    method Tick(init: bool, shift: bool, pdo: seq<bool>)
      requires c.Valid() && |sr| == |pdo| == c.width
      modifies this
      ensures View() == ShiftStep(c, old(View()), init, shift, pdo)
    {
      var next := Shifted(c, sr);
      if init {
        sr := pdo;
        sdo := if c.lsbFirst then pdo[0] else pdo[c.width - 1];
      }
      if shift {
        sr := next;
        sdo := if c.lsbFirst then next[0] else next[c.width - 1];
      }
    }
  }

  class Machine {
    const c: Config
    const cg: ClockGen
    const reg: Register
    var phase: Phase
    var counter: nat

    ghost predicate Valid()
      reads this, reg
    {
      c.Valid() && cg.c == c && reg.c == c && |reg.sr| == c.width
    }

    ghost function Contents(): State
      reads this, cg, reg
    {
      State(phase, counter, cg.View(), reg.View())
    }

    constructor (c: Config)
      requires c.Valid()
      ensures this.c == c && Valid() && Contents() == PowerUp(c) && fresh(cg) && fresh(reg)
    {
      this.c := c;
      phase, counter := Idle, 0;
      cg := new ClockGen(c);
      reg := new Register(c);
    }

    method Pinout() returns (p: Pins)
      ensures p == View(c, Contents())
    {
      var cs, clk := false, false;
      match phase {
        case Leading => cs := true;
        case First => cs := true; clk := c.phase && counter > 0;
        case Second => cs := true; clk := !c.phase;
        case Trailing => cs := true;
        case Idle =>
        case IdleHalf =>
      }
      p := Pins(phase == Idle, cs, clk, reg.sdo);
    }

    /** The state machine's combinational half: what the registers take at the next edge. */
    method Decide(start: bool) returns (next: Phase, count: int, cgStart: bool, init: bool, shift: bool)
      requires Valid()
      ensures (next, count, cgStart) == Control(c, Contents(), start)
      ensures init == Init(Contents()) && shift == Shift(Contents())
    {
      var done := cg.counter == 0 && !cg.start;
      init, shift, cgStart := false, false, cg.start;
      next, count := phase, counter;
      match phase {
        case Idle =>
          if start {
            if c.phase {
              cgStart := true;
              count := c.leading + if c.leading == 0 then 1 else 0;
            } else {
              cgStart := c.leading > 0;
              count := c.leading;
            }
            next := Leading;
          } else {
            cgStart := false;
          }
        case Leading =>
          if counter == 0 {
            cgStart, count, init, next := true, c.width, true, First;
          } else if done {
            cgStart, count := counter > 1, counter - 1;
          } else {
            cgStart := false;
          }
        case First =>
          if counter == 0 {
            cgStart, count, next := c.trailing > 0, c.trailing, Trailing;
          } else if done {
            cgStart, next := true, Second;
          } else {
            cgStart := false;
          }
        case Second =>
          if done {
            shift := true;
            cgStart, count, next := counter > 1, counter - 1, First;
          } else {
            cgStart := false;
          }
        case Trailing =>
          if counter == 0 {
            cgStart, count, next := c.idle > 0, c.idle, IdleHalf;
          } else if done {
            cgStart, count := counter > 1, counter - 1;
          } else {
            cgStart := false;
          }
        case IdleHalf =>
          if counter == 0 {
            cgStart, next := false, Idle;
          } else if done {
            cgStart, count := counter > 1, counter - 1;
          } else {
            cgStart := false;
          }
      }
    }

    method Tick(start: bool, pdo: seq<bool>)
      requires Valid() && |pdo| == c.width
      modifies this, cg, reg
      ensures Valid() && Contents() == Step(c, old(Contents()), Input(start, pdo))
    {
      var next, count, cgStart, init, shift := Decide(start);
      cg.Tick();
      reg.Tick(init, shift, pdo);
      cg.start := cgStart;
      phase, counter := next, Trunc(count, c.CounterWidth());
    }
  }
}
