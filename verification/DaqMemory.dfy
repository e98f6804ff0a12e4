/** From the input of the data acquisition to the array in Python: burst generator, accumulators,
    address generation, AXI writer, server and decoding together. */
module DaqMemory {
  import opened Bits
  import opened Clocked
  import opened Wrappers
  import BurstGen
  import Codec
  import Daq
  import Dma
  import Recording

  datatype State = State(daq: Daq.State, writer: Dma.State)

  /** ready: the memory behind the AXI port. */
  datatype Input = Input(trigger: bool, x: int, ready: bool)

  function ToDaq(i: Input): Daq.Input { Daq.Input(i.trigger, i.x) }

  /** What the writer sees of the acquisition in one cycle. */
  function ToWriter(s: Daq.State, ready: bool): Dma.Input {
    Dma.Input(s.burst.count, s.burst.out, s.regs.value, ready)
  }

  function Step(c: Daq.Config, port: nat, s: State, i: Input): State
    requires c.Valid()
  {
    State(Daq.Step(c, s.daq, ToDaq(i)), Dma.Step(port, s.writer, ToWriter(s.daq, i.ready)))
  }

  function Edge(c: Daq.Config, port: nat): (State, Input) -> State
    requires c.Valid()
  {
    (s, i) => Step(c, port, s, i)
  }

  function DaqInputs(ins: seq<Input>): seq<Daq.Input> {
    seq(|ins|, k requires 0 <= k < |ins| => ToDaq(ins[k]))
  }

  /** What the writer sees during ins. */
  function WriterInputs(c: Daq.Config, s: Daq.State, ins: seq<Input>): (w: seq<Dma.Input>)
    requires c.Valid()
    ensures |w| == |ins|
    decreases |ins|
  {
    if ins == [] then []
    else [ToWriter(s, ins[0].ready)] + WriterInputs(c, Daq.Step(c, s, ToDaq(ins[0])), ins[1..])
  }

  lemma {:induction false} Decompose(c: Daq.Config, port: nat, s: State, ins: seq<Input>)
    requires c.Valid()
    ensures var t := Run(Edge(c, port), s, ins);
            && t.daq == Run(Daq.Edge(c), s.daq, DaqInputs(ins))
            && t.writer == Run(Dma.Edge(port), s.writer, WriterInputs(c, s.daq, ins))
    decreases |ins|
  {
    if ins != [] {
      Decompose(c, port, Step(c, port, s, ins[0]), ins[1..]);
      assert DaqInputs(ins)[1..] == DaqInputs(ins[1..]);
    }
  }

  lemma {:induction false} WriterInputAt(c: Daq.Config, s: Daq.State, ins: seq<Input>, k: nat)
    requires c.Valid() && k < |ins|
    ensures WriterInputs(c, s, ins)[k] == ToWriter(Run(Daq.Edge(c), s, DaqInputs(ins)[..k]), ins[k].ready)
    decreases |ins|
  {
    var d := DaqInputs(ins);
    if k == 0 {
      assert d[..0] == [];
    } else {
      WriterInputAt(c, Daq.Step(c, s, d[0]), ins[1..], k - 1);
      assert d[..k][0] == d[0] && d[..k][1..] == DaqInputs(ins[1..])[..k - 1];
    }
  }

  // ---------------------------------------------------------------- one sample per pulse

  /** The writer's inputs during a burst and in the cycle after it, with a memory that is always ready. */
  ghost predicate DuringBurst(ins: seq<Dma.Input>, pins: seq<BurstGen.Pins>) {
    && |ins| == |pins| + 1
    && (forall k :: 0 <= k < |pins| ==> ins[k].count == pins[k].count && ins[k].we == pins[k].out)
    && (forall k :: 0 <= k < |ins| ==> ins[k].ready)
  }

  lemma {:induction false} CountIrrelevant(ins: seq<Dma.Input>, a: nat, b: nat)
    ensures Dma.Samples(false, a, ins) == Dma.Samples(false, b, ins)
  {
  }

  lemma {:induction false} NoPulseNoSample(ins: seq<Dma.Input>, n: nat, count: nat)
    requires n <= |ins| && forall k :: 0 <= k < n ==> !ins[k].we
    ensures Dma.Samples(false, count, ins) == Dma.Samples(false, count, ins[n..])
    decreases n
  {
    if n > 0 {
      NoPulseNoSample(ins[1..], n - 1, count);
      assert ins[1..][n - 1..] == ins[n..];
      assert Dma.Samples(false, count, ins) == [] + Dma.Samples(false, ins[0].count, ins[1..]);
      CountIrrelevant(ins[1..], ins[0].count, count);
    } else {
      assert ins[0..] == ins;
    }
  }

  /** A pulse and its gap record one sample, even if the next pulse comes at once: the value of the cycle
      after the pulse. */
  lemma {:induction false} GapSample(left: nat, wait: nat, ins: seq<Dma.Input>, count: nat)
    requires |ins| >= wait + 2 && ins[0].we && ins[0].count == left && ins[1].ready
    requires forall k :: 1 <= k <= wait ==> !ins[k].we
    ensures Dma.Samples(false, count, ins) == [(left, ins[1].value)] + Dma.Samples(false, count, ins[wait + 1..])
  {
    var rest := ins[1..];
    assert rest[wait..] == ins[wait + 1..];
    assert Dma.Samples(false, count, ins) == [] + Dma.Samples(true, left, rest);
    assert Dma.Samples(true, left, rest) == [(left, rest[0].value)] + Dma.Samples(rest[0].we, rest[0].count, rest[1..]);
    assert Dma.Samples(false, left, rest) == [] + Dma.Samples(rest[0].we, rest[0].count, rest[1..]);
    NoPulseNoSample(rest, wait, left);
    CountIrrelevant(ins[wait + 1..], left, count);
  }

  /** One sample for each count of a burst, from left down to zero: the value one cycle after the
      pulse of that count. */
  ghost predicate PerPulse(c: BurstGen.Config, left: nat, wait: nat, ins: seq<Dma.Input>, samples: seq<(nat, int)>) {
    |samples| == left + 1 && forall j :: 0 <= j <= left ==> PulseSample(c, left, wait, ins, j, samples[j])
  }

  ghost predicate PulseSample(c: BurstGen.Config, left: nat, wait: nat, ins: seq<Dma.Input>, j: nat,
                              sample: (nat, int)) {
    var t := BurstGen.PulseTime(c, wait, j) + 1;
    t < |ins| && sample.0 == left - j && sample.1 == ins[t].value
  }

  /** A burst is a pulse, its gap, and the rest of the burst. */
  lemma {:induction false} BurstParts(c: BurstGen.Config, left: nat, wait: nat, ins: seq<Dma.Input>)
    requires DuringBurst(ins, BurstGen.BurstWave(c, left, wait))
    ensures |ins| >= wait + 2 && ins[0].we && ins[0].count == left && ins[1].ready
    ensures forall k :: 1 <= k <= wait ==> !ins[k].we
    ensures if left == 0 then |ins| == wait + 2
            else DuringBurst(ins[wait + 1..], BurstGen.BurstWave(c, left - 1, c.period + 1))
  {
    var gap, later := BurstGen.Gap(left, wait), BurstGen.LaterPulses(c, left);
    assert gap + later == BurstGen.BurstWave(c, left, wait);
    Parts(ins, gap, later);
  }

  lemma {:induction false} Parts(ins: seq<Dma.Input>, a: seq<BurstGen.Pins>, b: seq<BurstGen.Pins>)
    requires DuringBurst(ins, a + b)
    ensures |ins| == |a| + |b| + 1 && DuringBurst(ins[|a|..], b)
    ensures forall k :: 0 <= k < |a| ==> ins[k].count == a[k].count && ins[k].we == a[k].out && ins[k].ready
  {
    assert forall k :: 0 <= k < |a| ==> (a + b)[k] == a[k];
    assert forall k :: 0 <= k < |b| ==> (a + b)[|a| + k] == b[k];
  }

  lemma {:induction false} BurstSamples(c: BurstGen.Config, left: nat, wait: nat, ins: seq<Dma.Input>, count: nat)
    requires DuringBurst(ins, BurstGen.BurstWave(c, left, wait))
    ensures PerPulse(c, left, wait, ins, Dma.Samples(false, count, ins))
    decreases left
  {
    BurstParts(c, left, wait, ins);
    GapSample(left, wait, ins, count);
    var rest := ins[wait + 1..];
    var others := Dma.Samples(false, count, rest);
    if left > 0 {
      BurstSamples(c, left - 1, c.period + 1, rest, count);
      OneMorePulse(c, left, wait, ins, others);
    } else {
      assert rest[1..] == [];
      assert others == [] + Dma.Samples(rest[0].we, rest[0].count, []);
    }
  }

  lemma {:induction false} OneMorePulse(c: BurstGen.Config, left: nat, wait: nat, ins: seq<Dma.Input>,
                                        later: seq<(nat, int)>)
    requires left > 0 && wait + 1 <= |ins| && |ins| >= 2
    requires PerPulse(c, left - 1, c.period + 1, ins[wait + 1..], later)
    ensures PerPulse(c, left, wait, ins, [(left, ins[1].value)] + later)
  {
    var samples := [(left, ins[1].value)] + later;
    forall j | 0 <= j <= left
      ensures PulseSample(c, left, wait, ins, j, samples[j])
    {
      if j > 0 {
        assert PulseSample(c, left - 1, c.period + 1, ins[wait + 1..], j - 1, later[j - 1]);
      }
    }
  }

  /** When no later sample has the same count, a sample is the last of its count. */
  lemma {:induction false} LastOfCount(samples: seq<(nat, int)>, j: nat)
    requires j < |samples| && forall i :: j < i < |samples| ==> samples[i].0 != samples[j].0
    ensures Dma.Last(samples, samples[j].0) == Some(samples[j].1)
    decreases j
  {
    var rest := samples[1..];
    if j == 0 {
      NoneOfCount(rest, samples[0].0);
    } else {
      assert rest[j - 1] == samples[j];
      LastOfCount(rest, j - 1);
    }
  }

  lemma {:induction false} NoneOfCount(samples: seq<(nat, int)>, k: nat)
    requires forall i :: 0 <= i < |samples| ==> samples[i].0 != k
    ensures Dma.Last(samples, k) == None
    decreases |samples|
  {
    if samples != [] {
      NoneOfCount(samples[1..], k);
    }
  }

  /** From the sample of count k on, only smaller counts are recorded, and k itself once. */
  lemma {:induction false} LastRecorded(c: BurstGen.Config, left: nat, wait: nat, ins: seq<Dma.Input>,
                                        samples: seq<(nat, int)>,
                                        k: nat, e: nat)
    requires PerPulse(c, left, wait, ins, samples) && k <= left && k < Dma.POSITIONS
    requires e == BurstGen.PulseTime(c, wait, left - k)
    ensures e + 1 < |ins| && Dma.Last(samples[left - k..], k) == Some(ins[e + 1].value)
    ensures Dma.Countable(samples[left - k..])
  {
    var from := samples[left - k..];
    assert PulseSample(c, left, wait, ins, left - k, samples[left - k]);
    forall i | 0 <= i < |from|
      ensures from[i].0 == k - i
    {
      assert PulseSample(c, left, wait, ins, left - k + i, samples[left - k + i]);
    }
    LastOfCount(from, 0);
  }

  // ---------------------------------------------------------------- from samples to the array

  ghost predicate AllReady(ins: seq<Input>) {
    forall k :: 0 <= k < |ins| ==> ins[k].ready
  }

  /** During a burst the writer sees its waveform. */
  lemma {:induction false} WriterSeesBurst(c: Daq.Config, past: seq<Daq.Input>, s: Daq.State, first: Daq.Input,
                                           ins: seq<Input>, next: Input, wait: nat)
    requires Daq.FullBurst(c, past, s, first, DaqInputs(ins), wait) && AllReady(ins + [next])
    ensures DuringBurst(WriterInputs(c, Daq.Step(c, s, first), ins + [next]),
                        BurstGen.BurstWave(c.burst, c.burst.pulses, wait))
  {
    var t, d, all := Daq.Step(c, s, first), DaqInputs(ins), ins + [next];
    var wave, w := BurstGen.BurstWave(c.burst, c.burst.pulses, wait), WriterInputs(c, t, all);
    Daq.BurstTrace(c, past, s, first, d, wait);
    forall k | 0 <= k < |all|
      ensures w[k].ready && (k < |ins| ==> w[k].count == wave[k].count && w[k].we == wave[k].out)
    {
      WriterInputAt(c, t, all, k);
      if k < |ins| {
        assert DaqInputs(all)[..k] == d[..k];
        Daq.PinsAt(c, t, d, k);
      }
    }
  }

  ghost predicate FromRam(c: Daq.Config, r: Codec.Register) {
    Dma.FromRam(r) && r.signed == c.signed && 1 <= c.width <= 32
  }

  /** Position k of a port's array in Python. */
  function InPython(r: Codec.Register, mem: Dma.Memory, port: nat, depth: nat, k: nat): int
    requires r.Valid() && k < depth
  {
    Codec.Decode(r, Dma.Fetched(mem, port, depth)[k])
  }

  /** A sample that is on its way when the burst begins. */
  function Pending(valid: bool, count: nat, ins: seq<Dma.Input>): seq<(nat, int)>
    requires ins != []
  {
    if valid then [(count, ins[0].value)] else []
  }

  lemma {:induction false} PendingFirst(valid: bool, count: nat, ins: seq<Dma.Input>)
    requires ins != [] && ins[0].ready
    ensures Dma.Samples(valid, count, ins) == Pending(valid, count, ins) + Dma.Samples(false, count, ins)
  {
    assert Dma.Samples(false, count, ins) == [] + Dma.Samples(ins[0].we, ins[0].count, ins[1..]);
  }

  /** Whatever was on its way, the last sample recorded for count k is the one of its pulse. */
  lemma {:induction false} LastOfBurst(c: BurstGen.Config, valid: bool, count: nat, w: seq<Dma.Input>, wait: nat,
                                       k: nat, e: nat)
    returns (from: nat)
    requires k <= c.pulses && k < Dma.POSITIONS && e == BurstGen.PulseTime(c, wait, c.pulses - k)
    requires DuringBurst(w, BurstGen.BurstWave(c, c.pulses, wait))
    ensures e + 1 < |w| && from <= |Dma.Samples(valid, count, w)|
    ensures Dma.Countable(Dma.Samples(valid, count, w)[from..])
    ensures Dma.Last(Dma.Samples(valid, count, w)[from..], k) == Some(w[e + 1].value)
  {
    var samples, before := Dma.Samples(false, count, w), Pending(valid, count, w);
    BurstSamples(c, c.pulses, wait, w, count);
    LastRecorded(c, c.pulses, wait, w, samples, k, e);
    PendingFirst(valid, count, w);
    from := |before| + (c.pulses - k);
    assert (before + samples)[from..] == samples[c.pulses - k..];
  }

  /** A burst leaves, at position k, the value of the cycle after the pulse of count k, however many pulses
      came before that, and whether or not the writer still had a sample of the last burst. */
  lemma {:induction false} BurstInMemory(c: BurstGen.Config, port: nat, r: Codec.Register, s: Dma.State, count: nat,
                                         w: seq<Dma.Input>, wait: nat, depth: nat, k: nat, e: nat)
    requires port < 4 && Dma.FromRam(r) && Dma.InStep(port, s, count)
    requires k <= c.pulses && k < depth <= Dma.POSITIONS
    requires e == BurstGen.PulseTime(c, wait, c.pulses - k)
    requires DuringBurst(w, BurstGen.BurstWave(c, c.pulses, wait))
    requires forall i :: 0 <= i < |w| ==> Dma.Sampled(r, w[i].value)
    ensures e + 1 < |w|
    ensures InPython(r, Run(Dma.Edge(port), s, w).mem, port, depth, k) == w[e + 1].value
  {
    var from := LastOfBurst(c, s.awValid, count, w, wait, k, e);
    assert Dma.Sampled(r, w[e + 1].value);
    Dma.RecordedLast(port, r, s, count, w, depth, k, from, w[e + 1].value);
  }

  // ---------------------------------------------------------------- values keep to their width

  ghost predicate InSignal(c: Daq.Config, ins: seq<Daq.Input>)
    requires c.Valid()
  {
    forall k :: 0 <= k < |ins| ==> c.InRange(ins[k].x, c.width)
  }

  /** The registers that can go to memory hold numbers of the width of a sample. */
  ghost predicate Kept(c: Daq.Config, r: Daq.Regs)
    requires c.Valid()
  {
    c.InRange(r.average, c.width) && c.InRange(r.max, c.width) && c.InRange(r.min, c.width)
    && c.InRange(r.value, c.width)
  }

  lemma {:induction false} StoreInRange(c: Daq.Config, v: int)
    requires c.Valid()
    ensures c.InRange(c.Store(v, c.width), c.width)
  {
    if c.signed {
      var h, m := Pow2(c.width - 1), Pow2(c.width);
      assert m == 2 * h;
      assert 0 <= (v + h) % m < m;
    }
  }

  lemma {:induction false} KeptStep(c: Daq.Config, s: Daq.State, i: Daq.Input)
    requires c.Valid() && Kept(c, s.regs) && c.InRange(i.x, c.width) && c.InRange(c.offset, c.width)
    ensures Kept(c, Daq.Step(c, s, i).regs)
  {
    StoreInRange(c, (s.regs.oldSum * c.inverse) / 65536);
    StoreInRange(c, s.regs.edges);
    StoreInRange(c, s.regs.count);
  }

  lemma {:induction false} AlwaysKept(c: Daq.Config, s: Daq.State, ins: seq<Daq.Input>)
    requires c.Valid() && Kept(c, s.regs) && InSignal(c, ins) && c.InRange(c.offset, c.width)
    ensures Kept(c, Run(Daq.Edge(c), s, ins).regs)
    decreases |ins|
  {
    if ins != [] {
      KeptStep(c, s, ins[0]);
      AlwaysKept(c, Daq.Step(c, s, ins[0]), ins[1..]);
    }
  }

  /** So all values that the writer sees are numbers that Python can decode. */
  lemma {:induction false} AllSampled(c: Daq.Config, r: Codec.Register, s: Daq.State, ins: seq<Input>)
    requires c.Valid() && FromRam(c, r) && Kept(c, s.regs) && InSignal(c, DaqInputs(ins))
             && c.InRange(c.offset, c.width)
    ensures forall k :: 0 <= k < |ins| ==> Dma.Sampled(r, WriterInputs(c, s, ins)[k].value)
  {
    forall k | 0 <= k < |ins|
      ensures Dma.Sampled(r, WriterInputs(c, s, ins)[k].value)
    {
      WriterInputAt(c, s, ins, k);
      AlwaysKept(c, s, DaqInputs(ins)[..k]);
      Narrower(c, WriterInputs(c, s, ins)[k].value);
    }
  }

  lemma {:induction false} Narrower(c: Daq.Config, v: int)
    requires c.Valid() && c.width <= 32 && c.InRange(v, c.width)
    ensures c.InRange(v, 32)
  {
    Pow2Monotone(c.width, 32);
    Pow2Monotone(c.width - 1, 31);
  }

  // ---------------------------------------------------------------- the whole path

  /** Out of a burst the registers keep to their widths as well. */
  lemma {:induction false} AtRest(c: Daq.Config, past: seq<Daq.Input>)
    requires c.Valid() && InSignal(c, past) && c.InRange(c.offset, c.width)
    ensures Kept(c, Run(Daq.Edge(c), Daq.PowerUp(c), past).regs)
  {
    AlwaysKept(c, Daq.PowerUp(c), past);
  }

  /** After any run past of the acquisition from power-up, in state u with anything in memory, a trigger is
      accepted with first; ins is its full burst and next the cycle after that. The memory is always
      ready, and all samples are numbers of their signal's width. */
  ghost predicate Recorded(c: Daq.Config, u: State, past: seq<Daq.Input>, first: Input, ins: seq<Input>, next: Input,
                           wait: nat) {
    && Daq.FullBurst(c, past, u.daq, ToDaq(first), DaqInputs(ins), wait) && AllReady(ins + [next])
    && InSignal(c, past) && c.InRange(first.x, c.width) && InSignal(c, DaqInputs(ins + [next]))
    && c.InRange(c.offset, c.width)
  }

  /** The memory after the burst. */
  function Final(c: Daq.Config, port: nat, u: State, first: Input, ins: seq<Input>, next: Input): Dma.Memory
    requires c.Valid()
  {
    Run(Edge(c, port), Step(c, port, u, first), ins + [next]).writer.mem
  }

  lemma {:induction false} WriterDuringBurst(c: Daq.Config, r: Codec.Register, u: State, past: seq<Daq.Input>,
                                             first: Input, ins: seq<Input>, next: Input, wait: nat)
    requires Recorded(c, u, past, first, ins, next, wait) && FromRam(c, r)
    ensures var w := WriterInputs(c, Daq.Step(c, u.daq, ToDaq(first)), ins + [next]);
            && DuringBurst(w, BurstGen.BurstWave(c.burst, c.burst.pulses, wait))
            && forall k :: 0 <= k < |w| ==> Dma.Sampled(r, w[k].value)
  {
    AtRest(c, past);
    KeptStep(c, u.daq, ToDaq(first));
    AllSampled(c, r, Daq.Step(c, u.daq, ToDaq(first)), ins + [next]);
    WriterSeesBurst(c, past, u.daq, ToDaq(first), ins, next, wait);
  }

  /** What the writer sees in the cycle after cycle e of the burst. */
  lemma {:induction false} WriterValue(c: Daq.Config, s: Daq.State, first: Daq.Input, ins: seq<Input>, next: Input,
                                       e: nat)
    requires c.Valid() && e < |ins|
    ensures WriterInputs(c, Daq.Step(c, s, first), ins + [next])[e + 1].value
         == Recording.After(c, s, first, DaqInputs(ins), e + 1).regs.value
  {
    var all := ins + [next];
    WriterInputAt(c, Daq.Step(c, s, first), all, e + 1);
    assert DaqInputs(all)[..e + 1] == DaqInputs(ins)[..e + 1];
  }

  /** The value in memory for count k is the value register one cycle after the pulse of that count. */
  lemma {:induction false} ValueInMemory(c: Daq.Config, port: nat, r: Codec.Register, u: State, past: seq<Daq.Input>,
                      first: Input, ins: seq<Input>, next: Input, wait: nat, depth: nat, k: nat, e: nat)
    requires Recorded(c, u, past, first, ins, next, wait) && port < 4 && FromRam(c, r)
    requires k <= c.burst.pulses && k < depth <= Dma.POSITIONS
    requires e == BurstGen.PulseTime(c.burst, wait, c.burst.pulses - k)
    ensures e < |ins|
    ensures InPython(r, Final(c, port, u, first, ins, next), port, depth, k)
         == Recording.After(c, u.daq, ToDaq(first), DaqInputs(ins), e + 1).regs.value
  {
    var t, all := Step(c, port, u, first), ins + [next];
    var w := WriterInputs(c, t.daq, all);
    WriterDuringBurst(c, r, u, past, first, ins, next, wait);
    BurstInMemory(c.burst, port, r, t.writer, u.daq.burst.count, w, wait, depth, k, e);
    Decompose(c, port, t, all);
    WriterValue(c, u.daq, ToDaq(first), ins, next, e);
  }

  /** From samples to Python: every position k of the port's array up to the number of pulses holds what
      the value register shows in the cycle after the pulse of count k, for every period and number of
      pulses. */
  lemma {:induction false} ArrayAfterBurst(c: Daq.Config, port: nat, r: Codec.Register, u: State, past: seq<Daq.Input>,
                        first: Input, ins: seq<Input>, next: Input, wait: nat, depth: nat, k: nat, e: nat)
    requires Recorded(c, u, past, first, ins, next, wait) && port < 4 && FromRam(c, r)
    requires k <= c.burst.pulses && k < depth <= Dma.POSITIONS
    requires e == BurstGen.PulseTime(c.burst, wait, c.burst.pulses - k)
    ensures e < |ins|
    ensures Recording.Shows(c, InPython(r, Final(c, port, u, first, ins, next), port, depth, k),
                            Recording.First(c, u.daq, ToDaq(first)), Daq.Samples(DaqInputs(ins)), wait, e)
  {
    ValueInMemory(c, port, r, u, past, first, ins, next, wait, depth, k, e);
    Recording.ValueShown(c, past, u.daq, ToDaq(first), DaqInputs(ins), wait, e);
  }

  /** So from the second pulse on a position holds the reduction of the complete window between its pulse
      and the one before; only the mean comes two samples short. */
  lemma {:induction false} WindowInArray(c: Daq.Config, port: nat, r: Codec.Register, u: State, past: seq<Daq.Input>,
                        first: Input, ins: seq<Input>, next: Input, wait: nat, depth: nat, k: nat, j: nat, xs: seq<int>)
    requires Recorded(c, u, past, first, ins, next, wait) && port < 4 && FromRam(c, r)
    requires k < depth <= Dma.POSITIONS && j >= 1 && k + j == c.burst.pulses && xs == Daq.Samples(DaqInputs(ins))
    ensures BurstGen.PulseTime(c.burst, wait, j - 1) < BurstGen.PulseTime(c.burst, wait, j) < |xs|
    ensures Recording.Reduced(c, InPython(r, Final(c, port, u, first, ins, next), port, depth, k),
                              Recording.Complete(c, wait, xs, j), 0)
  {
    var v := InPython(r, Final(c, port, u, first, ins, next), port, depth, k);
    var e := BurstGen.PulseTime(c.burst, wait, j);
    ArrayAfterBurst(c, port, r, u, past, first, ins, next, wait, depth, k, e);
    SamplesInSignal(c, ins, next);
    Recording.CompleteWindow(c, v, Recording.First(c, u.daq, ToDaq(first)), xs, wait, j, 0, e);
  }

  /** And when a burst follows the last one without a break, its first position holds the reduction of the
      last window w of that one; this burst is the one of u, triggered by the last input of before. */
  lemma {:induction false} FirstInArray(c: Daq.Config, port: nat, r: Codec.Register, past: seq<Daq.Input>, s: Daq.State,
                                        start: Daq.Input, before: seq<Daq.Input>, wait: nat, b: nat, w: seq<int>,
                                        u: State, first: Input, ins: seq<Input>, next: Input, depth: nat)
    requires Daq.FullBurst(c, past, s, start, before, wait) && ToDaq(first) == before[|before| - 1]
    requires b == BurstGen.PulseTime(c.burst, wait, c.burst.pulses) < |before| && w == Daq.Samples(before)[b..]
    requires u.daq == Recording.After(c, s, start, before, |before| - 1)
    requires Recorded(c, u, past + [start] + before[..|before| - 1], first, ins, next, c.burst.period + 1)
    requires port < 4 && FromRam(c, r) && c.burst.pulses < depth <= Dma.POSITIONS
    ensures Recording.Reduced(c, InPython(r, Final(c, port, u, first, ins, next), port, depth, c.burst.pulses), w, 0)
  {
    var v := InPython(r, Final(c, port, u, first, ins, next), port, depth, c.burst.pulses);
    var now := past + [start] + before[..|before| - 1];
    Recording.FirstOfNext(c, s, start, before);
    Recording.LastWindow(c, past, s, start, before, wait, b, w);
    ArrayAfterBurst(c, port, r, u, now, first, ins, next, c.burst.period + 1, depth, c.burst.pulses, 0);
    LastInSignal(c, past, start, before, b);
    Recording.LastWindowShown(c, Recording.First(c, u.daq, ToDaq(first)), w, v, Daq.Samples(DaqInputs(ins)),
                              c.burst.period + 1);
  }

  lemma {:induction false} LastInSignal(c: Daq.Config, past: seq<Daq.Input>, start: Daq.Input,
                                        before: seq<Daq.Input>, b: nat)
    requires c.Valid() && b < |before| && c.InRange(before[|before| - 1].x, c.width)
    requires InSignal(c, past + [start] + before[..|before| - 1])
    ensures Daq.InSignal(c, Daq.Samples(before)) && Daq.InSignal(c, Daq.Samples(before)[b..])
  {
    var n := |before| - 1;
    forall k | 0 <= k <= n
      ensures c.InRange(Daq.Samples(before)[k], c.width)
    {
      if k < n {
        assert (past + [start] + before[..n])[|past| + 1 + k] == before[k];
      }
    }
  }

  lemma {:induction false} SamplesInSignal(c: Daq.Config, ins: seq<Input>, next: Input)
    requires c.Valid() && InSignal(c, DaqInputs(ins + [next]))
    ensures Daq.InSignal(c, Daq.Samples(DaqInputs(ins)))
  {
    forall k | 0 <= k < |ins|
      ensures c.InRange(Daq.Samples(DaqInputs(ins))[k], c.width)
    {
      assert DaqInputs(ins + [next])[k] == DaqInputs(ins)[k];
    }
  }
}
