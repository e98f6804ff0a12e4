/** The data path of the acquisition without DMA: at each pulse the value register goes straight into the
    memory of an array register, from which Python reads it through the bus. */
module DaqArray {
  import opened Bits
  import opened Clocked
  import ArrayAccess
  import ArrayRegister
  import BurstGen
  import Codec
  import Daq
  import DaqMemory
  import Recording
  import Stream

  datatype State = State(daq: Daq.State, cells: seq<nat>)

  /** The address that a count drives, and the write that a pulse makes. */
  function Written(c: Daq.Config, a: ArrayRegister.Config, cells: seq<nat>, p: BurstGen.Pins, value: int): seq<nat>
    requires a.Valid()
  {
    if p.out then ArrayRegister.Write(cells, Trunc(p.count, a.AddressWidth()), Trunc(value, c.width)) else cells
  }

  function Step(c: Daq.Config, a: ArrayRegister.Config, s: State, i: Daq.Input): State
    requires c.Valid() && a.Valid()
  {
    State(Daq.Step(c, s.daq, i), Written(c, a, s.cells, BurstGen.Look()(s.daq.burst), s.daq.regs.value))
  }

  function Edge(c: Daq.Config, a: ArrayRegister.Config): (State, Daq.Input) -> State
    requires c.Valid() && a.Valid()
  {
    (s, i) => Step(c, a, s, i)
  }

  /** The acquisition and the write port of its memory. */
  class Recorder {
    const a: ArrayRegister.Config
    const daq: Daq.Daq
    var cells: array<nat>

    ghost predicate Valid()
      reads this, daq, daq.burst, daq.burst.pulsegen
    {
      daq.Valid() && a.Valid() && cells.Length == a.depth
    }

    ghost function View(): State
      reads this, cells, daq, daq.burst, daq.burst.pulsegen
    {
      State(daq.View(), cells[..])
    }

    constructor (c: Daq.Config, a: ArrayRegister.Config)
      requires c.Valid() && a.Valid()
      ensures Valid() && daq.c == c && this.a == a && fresh(cells)
      ensures View() == State(Daq.PowerUp(c), Rep(0, a.depth))
    {
      this.a := a;
      daq := new Daq.Daq(c);
      cells := new nat[a.depth](_ => 0);
    }

    method Tick(trigger: bool, x: int)
      requires Valid()
      modifies cells, daq, daq.burst, daq.burst.pulsegen
      ensures Valid() && View() == Step(daq.c, a, old(View()), Daq.Input(trigger, x))
    {
      var address := Trunc(daq.burst.count, a.AddressWidth());
      if daq.burst.out && address < cells.Length {
        cells[address] := Trunc(daq.value, daq.c.width);
      }
      daq.Tick(trigger, x);
    }
  }

  lemma {:induction false} Decompose(c: Daq.Config, a: ArrayRegister.Config, s: State, ins: seq<Daq.Input>)
    requires c.Valid() && a.Valid()
    ensures Run(Edge(c, a), s, ins).daq == Run(Daq.Edge(c), s.daq, ins)
    ensures |Run(Edge(c, a), s, ins).cells| == |s.cells|
    decreases |ins|
  {
    if ins != [] {
      Decompose(c, a, Step(c, a, s, ins[0]), ins[1..]);
    }
  }

  /** The cells m cycles after the first cycle of a burst. */
  function CellsAfter(c: Daq.Config, a: ArrayRegister.Config, u: State, first: Daq.Input, ins: seq<Daq.Input>,
                      m: nat): (cells: seq<nat>)
    requires c.Valid() && a.Valid() && m <= |ins|
  {
    Run(Edge(c, a), Step(c, a, u, first), ins[..m]).cells
  }

  /** In cycle m of a burst the cells take what its waveform and the value register say. */
  lemma {:induction false} CellsNext(c: Daq.Config, a: ArrayRegister.Config, u: State, past: seq<Daq.Input>,
                                     first: Daq.Input, ins: seq<Daq.Input>, wait: nat, m: nat)
    requires a.Valid() && Daq.FullBurst(c, past, u.daq, first, ins, wait) && m < |ins|
    ensures CellsAfter(c, a, u, first, ins, m + 1)
         == Written(c, a, CellsAfter(c, a, u, first, ins, m), BurstGen.BurstWave(c.burst, c.burst.pulses, wait)[m],
                    Recording.After(c, u.daq, first, ins, m).regs.value)
  {
    var t := Step(c, a, u, first);
    RunLast(Edge(c, a), t, ins[..m + 1]);
    assert ins[..m + 1][..m] == ins[..m];
    Decompose(c, a, t, ins[..m]);
    Daq.BurstTrace(c, past, u.daq, first, ins, wait);
    Daq.PinsAt(c, t.daq, ins, m);
  }

  /** The pulse of count k writes cell k. */
  lemma {:induction false} CellWritten(c: Daq.Config, a: ArrayRegister.Config, u: State, past: seq<Daq.Input>,
                                       first: Daq.Input, ins: seq<Daq.Input>, wait: nat, k: nat, e: nat)
    requires a.Valid() && |u.cells| == a.depth && Daq.FullBurst(c, past, u.daq, first, ins, wait)
    requires k <= c.burst.pulses && k < a.depth && e == BurstGen.PulseTime(c.burst, wait, c.burst.pulses - k)
    ensures e < |ins| && |CellsAfter(c, a, u, first, ins, e + 1)| == a.depth
    ensures CellsAfter(c, a, u, first, ins, e + 1)[k]
              == Trunc(Recording.After(c, u.daq, first, ins, e).regs.value, c.width)
  {
    BurstGen.PulseAt(c.burst, c.burst.pulses, wait, c.burst.pulses - k);
    Decompose(c, a, Step(c, a, u, first), ins[..e]);
    CellsNext(c, a, u, past, first, ins, wait, e);
    SmallCounts(a, k);
  }

  /** A write of a smaller count leaves cell k alone. */
  lemma {:induction false} OtherCell(c: Daq.Config, a: ArrayRegister.Config, cells: seq<nat>, p: BurstGen.Pins,
                                     value: int, k: nat)
    requires a.Valid() && k < |cells| == a.depth && (p.out ==> p.count < k)
    ensures |Written(c, a, cells, p, value)| == a.depth && Written(c, a, cells, p, value)[k] == cells[k]
  {
    SmallCounts(a, k);
  }

  /** From then on cell k keeps the value, since later pulses have smaller counts. */
  lemma {:induction false} CellKept(c: Daq.Config, a: ArrayRegister.Config, u: State, past: seq<Daq.Input>,
                                    first: Daq.Input, ins: seq<Daq.Input>, wait: nat, k: nat, e: nat, m: nat)
    requires a.Valid() && |u.cells| == a.depth && Daq.FullBurst(c, past, u.daq, first, ins, wait)
    requires k <= c.burst.pulses && k < a.depth
    requires e == BurstGen.PulseTime(c.burst, wait, c.burst.pulses - k) < m <= |ins|
    ensures |CellsAfter(c, a, u, first, ins, m)| == a.depth
    ensures CellsAfter(c, a, u, first, ins, m)[k] == Trunc(Recording.After(c, u.daq, first, ins, e).regs.value, c.width)
    decreases m
  {
    if m == e + 1 {
      CellWritten(c, a, u, past, first, ins, wait, k, e);
    } else {
      var wave := BurstGen.BurstWave(c.burst, c.burst.pulses, wait);
      CellKept(c, a, u, past, first, ins, wait, k, e, m - 1);
      CellsNext(c, a, u, past, first, ins, wait, m - 1);
      BurstGen.OnlySmallerCounts(c.burst, c.burst.pulses, wait, c.burst.pulses - k, m - 1);
      var v := Recording.After(c, u.daq, first, ins, m - 1).regs.value;
      OtherCell(c, a, CellsAfter(c, a, u, first, ins, m - 1), wave[m - 1], v, k);
    }
  }

  /** Counts within the depth are their own addresses. */
  lemma {:induction false} SmallCounts(a: ArrayRegister.Config, k: nat)
    requires a.Valid() && k < a.depth
    ensures forall n: nat :: n <= k ==> Trunc(n, a.AddressWidth()) == n
  {
    LengthHolds(a.depth - 1);
    forall n: nat | n <= k
      ensures Trunc(n, a.AddressWidth()) == n
    {
      TruncFits(n, a.AddressWidth());
    }
  }

  // ---------------------------------------------------------------- what Python reads

  /** The register of the array, and the decoding of its words. */
  ghost predicate Matching(c: Daq.Config, a: ArrayRegister.Config, r: Codec.Register) {
    && c.Valid() && a.Valid() && r.Valid() && a.width == r.width == c.width && r.signed == c.signed
    && r.offset == 0 && !r.ram
  }

  lemma {:induction false} StoredDecodes(c: Daq.Config, r: Codec.Register, v: int)
    requires c.Valid() && r.Valid() && r.width == c.width && r.signed == c.signed && r.offset == 0 && !r.ram
             && c.InRange(v, c.width)
    ensures Codec.Decode(r, Trunc(v, c.width)) == v
  {
    var m := Pow2(c.width);
    assert m == 2 * Pow2(c.width - 1);
    if v >= 0 {
      TruncFits(v, c.width);
    } else {
      ModUnique(v, m, -1, v + m);
    }
  }

  /** Position k of the array that the access loop returns to Python. */
  function InPython(a: ArrayRegister.Config, r: Codec.Register, cells: seq<nat>, k: nat): int
    requires a.Valid() && r.Valid() && k < a.depth && k < 65535
  {
    Codec.Decode(r, ArrayAccess.Fetched(a, cells)[k])
  }

  /** As with DMA, but without a memory port: after any run past from power-up, in state u, a trigger is
      accepted with first, and ins is its full burst. */
  ghost predicate Recorded(c: Daq.Config, a: ArrayRegister.Config, u: State, past: seq<Daq.Input>, first: Daq.Input,
                           ins: seq<Daq.Input>, wait: nat) {
    && Daq.FullBurst(c, past, u.daq, first, ins, wait) && a.Valid() && |u.cells| == a.depth
    && DaqMemory.InSignal(c, past) && c.InRange(first.x, c.width) && DaqMemory.InSignal(c, ins)
    && c.InRange(c.offset, c.width)
  }

  /** Each position that the index of the bus word can reach holds the value of the cycle of its pulse. */
  lemma {:induction false} ValueInArray(c: Daq.Config, a: ArrayRegister.Config, r: Codec.Register, u: State,
                                        past: seq<Daq.Input>,
                                        first: Daq.Input, ins: seq<Daq.Input>, wait: nat, k: nat, e: nat)
    requires Recorded(c, a, u, past, first, ins, wait) && Matching(c, a, r)
    requires k <= c.burst.pulses && k < a.depth && k < 65535 && k < Pow2(c.width)
    requires e == BurstGen.PulseTime(c.burst, wait, c.burst.pulses - k)
    ensures e < |ins|
    ensures InPython(a, r, CellsAfter(c, a, u, first, ins, |ins|), k)
              == Recording.After(c, u.daq, first, ins, e).regs.value
  {
    var t := Daq.Step(c, u.daq, first);
    BurstGen.PulseAt(c.burst, c.burst.pulses, wait, c.burst.pulses - k);
    CellKept(c, a, u, past, first, ins, wait, k, e, |ins|);
    ArrayRegister.AddressInRange(a, k);
    DaqMemory.AtRest(c, past);
    DaqMemory.KeptStep(c, u.daq, first);
    DaqMemory.AlwaysKept(c, t, ins[..e]);
    StoredDecodes(c, r, Recording.After(c, u.daq, first, ins, e).regs.value);
  }

  /** From samples to Python: position k holds what the value register shows in the very cycle of the
      pulse of count k, one cycle earlier than with DMA. */
  lemma {:induction false} ArrayAfterBurst(c: Daq.Config, a: ArrayRegister.Config, r: Codec.Register, u: State,
                                           past: seq<Daq.Input>,
                                           first: Daq.Input, ins: seq<Daq.Input>, wait: nat, k: nat, e: nat)
    requires Recorded(c, a, u, past, first, ins, wait) && Matching(c, a, r)
    requires k <= c.burst.pulses && k < a.depth && k < 65535 && k < Pow2(c.width)
    requires e == BurstGen.PulseTime(c.burst, wait, c.burst.pulses - k)
    ensures e < |ins|
    ensures var v := InPython(a, r, CellsAfter(c, a, u, first, ins, |ins|), k);
            if e > 0 then Recording.Shows(c, v, Recording.First(c, u.daq, first), Daq.Samples(ins), wait, e - 1)
            else v == Recording.First(c, u.daq, first).value == Daq.Selected(c, u.daq.regs, first.x)
  {
    ValueInArray(c, a, r, u, past, first, ins, wait, k, e);
    if e > 0 {
      Recording.ValueShown(c, past, u.daq, first, ins, wait, e - 1);
    }
  }

  /** So from the second pulse on a position holds the reduction of all but the last sample of the complete
      window before its pulse; the mean comes three samples short. */
  lemma {:induction false} WindowInArray(c: Daq.Config, a: ArrayRegister.Config, r: Codec.Register, u: State,
                                         past: seq<Daq.Input>,
                                         first: Daq.Input, ins: seq<Daq.Input>, wait: nat, k: nat, j: nat, xs: seq<int>)
    requires Recorded(c, a, u, past, first, ins, wait) && Matching(c, a, r)
    requires k < a.depth && k < 65535 && k < Pow2(c.width)
    requires j >= 1 && k + j == c.burst.pulses && xs == Daq.Samples(ins)
    ensures BurstGen.PulseTime(c.burst, wait, j - 1) < BurstGen.PulseTime(c.burst, wait, j) < |xs|
    ensures 1 < |Recording.Complete(c, wait, xs, j)| ==>
              Recording.Reduced(c, InPython(a, r, CellsAfter(c, a, u, first, ins, |ins|), k),
                                Recording.Complete(c, wait, xs, j), 1)
  {
    var e, v := BurstGen.PulseTime(c.burst, wait, j), InPython(a, r, CellsAfter(c, a, u, first, ins, |ins|), k);
    BurstGen.PulseTimesGrow(c.burst, wait, j - 1, j);
    ArrayAfterBurst(c, a, r, u, past, first, ins, wait, k, e);
    Recording.CompleteWindow(c, v, Recording.First(c, u.daq, first), xs, wait, j, 1, e - 1);
  }

  /** And when a burst follows the last one without a break, its first position holds the reduction of all but
      the last sample of the last window w of that one. */
  lemma {:induction false} FirstInArray(c: Daq.Config, a: ArrayRegister.Config, r: Codec.Register,
                                        past: seq<Daq.Input>, s: Daq.State,
                                        start: Daq.Input, before: seq<Daq.Input>, wait: nat, b: nat, w: seq<int>,
                                        u: State, first: Daq.Input, ins: seq<Daq.Input>)
    requires Daq.FullBurst(c, past, s, start, before, wait) && first == before[|before| - 1]
    requires b == BurstGen.PulseTime(c.burst, wait, c.burst.pulses) < |before| && w == Daq.Samples(before)[b..]
    requires u.daq == Recording.After(c, s, start, before, |before| - 1)
    requires Recorded(c, a, u, past + [start] + before[..|before| - 1], first, ins, c.burst.period + 1)
             && Matching(c, a, r)
    requires c.burst.pulses < a.depth && c.burst.pulses < 65535 && c.burst.pulses < Pow2(c.width)
    ensures 1 < |w| ==>
              Recording.Reduced(c, InPython(a, r, CellsAfter(c, a, u, first, ins, |ins|), c.burst.pulses), w, 1)
  {
    var now := past + [start] + before[..|before| - 1];
    DaqMemory.LastInSignal(c, past, start, before, b);
    Recording.FirstOfNext(c, s, start, before);
    Recording.FirstValueOfNext(c, past, s, start, before, wait, b, w);
    ArrayAfterBurst(c, a, r, u, now, first, ins, c.burst.period + 1, c.burst.pulses, 0);
  }
}
