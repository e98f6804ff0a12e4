/** Whole runs of the SPI transmitter: its wires refine an ideal transmitter, a receiver recovers
    every word, each transfer takes an exact time, and the clock generator is never misused. */
module SpiReceiver {
  import opened Bits
  import opened Clocked
  import opened SpiMachine
  import opened SpiTransfer
  import opened Sequences

  // ---------------------------------------------------------------- the ideal transmitter

  /** The word of a transfer that starts with ins: what pdo shows in the latch cycle. */
  function Word(c: Config, ins: seq<Input>): seq<bool> {
    if LatchCycle(c) < |ins| then ins[LatchCycle(c)].pdo else Rep(false, c.width)
  }

  /** The wires of an ideal transmitter: at rest until start, then a whole waveform, and again. */
  function Ideal(c: Config, ins: seq<Input>): seq<Pins>
    decreases |ins|
  {
    if ins == [] then []
    else if !ins[0].start then [REST] + Ideal(c, ins[1..])
    else
      var w := Waveform(c, Word(c, ins));
      if |ins| < |w| then w[..|ins|] else w + Ideal(c, ins[|w|..])
  }

  /** All the bits put on the wire by the transfers started in ins, in order. */
  function Sent(c: Config, ins: seq<Input>): seq<bool>
    decreases |ins|
  {
    if ins == [] then []
    else if !ins[0].start then Sent(c, ins[1..])
    else
      var w := Waveform(c, Word(c, ins));
      Serial(c, Word(c, ins)) + if |ins| < |w| then [] else Sent(c, ins[|w|..])
  }

  lemma {:induction false} WordWaveLength(c: Config, bits: seq<bool>)
    ensures |WordWave(c, bits)| == Cycles(c, 2 * |bits|)
    decreases |bits|
  {
    if bits != [] {
      WordWaveLength(c, bits[1..]);
      assert Cycles(c, 2 * |bits|) == 2 * Half(c) + Cycles(c, 2 * |bits[1..]|);
    }
  }

  lemma {:induction false} WaveformLength(c: Config, word: seq<bool>)
    requires |word| == c.width
    ensures |Waveform(c, word)| == TransferCycles(c)
  {
    WordWaveLength(c, Serial(c, word));
  }

  /** A transfer cut short shows the beginning of the same waveform. */
  lemma {:induction false} Interrupted(c: Config, s: State, ins: seq<Input>)
    requires c.Valid() && Ready(c, s) && Fed(c, ins) && ins != [] && ins[0].start && |ins| < TransferCycles(c)
    ensures |Waveform(c, Word(c, ins))| == TransferCycles(c)
    ensures Trace(Edge(c), Look(c), s, ins) == Waveform(c, Word(c, ins))[..|ins|]
    ensures View(c, Run(Edge(c), s, ins)) == Waveform(c, Word(c, ins))[|ins|]
  {
    var pad := Rep(Input(false, Rep(false, c.width)), TransferCycles(c) - |ins|);
    var full := ins + pad;
    var t := Transfer(c, s, full);
    assert full[LatchCycle(c)].pdo == Word(c, ins);
    WaveformLength(c, Word(c, ins));
    TraceSplit(Edge(c), Look(c), s, ins, pad);
  }

  /** What follows a transfer is seen after its waveform. */
  lemma {:induction false} SeenAfter(c: Config, s: State, ins: seq<Input>, n: nat, w: seq<Pins>, t: State)
    requires n <= |ins| && Behaves(Edge(c), Look(c), s, ins[..n], w, t)
    ensures Trace(Edge(c), Look(c), s, ins) == w + Trace(Edge(c), Look(c), t, ins[n..])
    ensures Run(Edge(c), s, ins) == Run(Edge(c), t, ins[n..])
  {
    assert ins == ins[..n] + ins[n..];
    TraceSplit(Edge(c), Look(c), s, ins[..n], ins[n..]);
    RunSplit(Edge(c), s, ins[..n], ins[n..]);
  }

  lemma {:induction false} RefinesAfter(c: Config, s: State, ins: seq<Input>, n: nat, word: seq<bool>, t: State)
    requires n == TransferCycles(c) <= |ins| && ins[0].start && word == Word(c, ins) && |word| == c.width
    requires Behaves(Edge(c), Look(c), s, ins[..n], Waveform(c, word), t)
    requires Trace(Edge(c), Look(c), t, ins[n..]) == Ideal(c, ins[n..])
    ensures Trace(Edge(c), Look(c), s, ins) == Ideal(c, ins)
  {
    WaveformLength(c, word);
    SeenAfter(c, s, ins, n, Waveform(c, word), t);
  }

  /** Refinement: in every run the wires are those of the ideal transmitter. */
  lemma {:induction false} Refines(c: Config, s: State, ins: seq<Input>)
    requires c.Valid() && Ready(c, s) && Fed(c, ins)
    ensures Trace(Edge(c), Look(c), s, ins) == Ideal(c, ins)
    decreases |ins|
  {
    if ins != [] {
      if !ins[0].start {
        Refines(c, Edge(c)(s, ins[0]), ins[1..]);
      } else {
        var n := TransferCycles(c);
        WaveformLength(c, Word(c, ins));
        if |ins| < n {
          Interrupted(c, s, ins);
        } else {
          var t := Transfer(c, s, ins[..n]);
          Refines(c, t, ins[n..]);
          RefinesAfter(c, s, ins, n, Word(c, ins), t);
        }
      }
    }
  }

  // ---------------------------------------------------------------- the receiver

  /** A receiver that sees only the wires: it samples sdo at the chosen edges of clk under cs. */
  function Receive(rising: bool, clk: bool, pins: seq<Pins>): seq<bool>
    decreases |pins|
  {
    if pins == [] then [] else Sample(rising, clk, pins[0]) + Receive(rising, pins[0].clk, pins[1..])
  }

  function Sample(rising: bool, clk: bool, p: Pins): seq<bool> {
    if p.cs && clk != p.clk && p.clk == rising then [p.sdo] else []
  }

  /** Puts received bits back in place. */
  function Assemble(c: Config, bits: seq<bool>): seq<bool> {
    if c.lsbFirst then bits else Reverse(bits)
  }

  function LastClk(clk: bool, pins: seq<Pins>): bool {
    if pins == [] then clk else pins[|pins| - 1].clk
  }

  lemma {:induction false} ReceiveSplit(rising: bool, clk: bool, a: seq<Pins>, b: seq<Pins>)
    ensures Receive(rising, clk, a + b) == Receive(rising, clk, a) + Receive(rising, LastClk(clk, a), b)
    decreases |a|
  {
    if a == [] {
      assert a + b == b;
    } else {
      assert (a + b)[1..] == a[1..] + b;
      ReceiveSplit(rising, a[0].clk, a[1..], b);
    }
  }

  /** Shown pins while its clock input was clk, the receiver gets bits and is left at clk'. */
  ghost predicate Gets(rising: bool, clk: bool, pins: seq<Pins>, bits: seq<bool>, clk': bool) {
    Receive(rising, clk, pins) == bits && LastClk(clk, pins) == clk'
  }

  lemma {:induction false} GetsBoth(rising: bool, clk: bool, p: seq<Pins>, a: seq<bool>, mid: bool, q: seq<Pins>,
                                    b: seq<bool>, end: bool)
    requires Gets(rising, clk, p, a, mid) && Gets(rising, mid, q, b, end)
    ensures Gets(rising, clk, p + q, a + b, end)
  {
    ReceiveSplit(rising, clk, p, q);
  }

  lemma {:induction false} ReceiveRep(rising: bool, clk: bool, p: Pins, n: nat)
    requires n >= 1
    ensures Gets(rising, clk, Rep(p, n), Sample(rising, clk, p), p.clk)
    decreases n
  {
    assert Rep(p, n)[1..] == Rep(p, n - 1);
    if n > 1 {
      ReceiveRep(rising, p.clk, p, n - 1);
    }
  }

  lemma {:induction false} ReceiveTwo(rising: bool, clk: bool, a: Pins, n: nat, b: Pins, m: nat)
    requires n >= 1 && m >= 1
    ensures Gets(rising, clk, Rep(a, n) + Rep(b, m), Sample(rising, clk, a) + Sample(rising, a.clk, b), b.clk)
  {
    ReceiveRep(rising, clk, a, n);
    ReceiveRep(rising, a.clk, b, m);
    GetsBoth(rising, clk, Rep(a, n), Sample(rising, clk, a), a.clk, Rep(b, m), Sample(rising, a.clk, b), b.clk);
  }

  /** Sampling the second edge of each bit (or, for phase 1, the first) yields the bit. */
  lemma {:induction false} ReceiveBit(c: Config, rising: bool, clk: bool, b: bool)
    requires if c.phase then !clk else rising
    ensures Gets(rising, clk, BitWave(c, b), [b], !c.phase)
  {
    var first, second := Pins(false, true, c.phase, b), Pins(false, true, !c.phase, b);
    var n := Half(c);
    ReceiveTwo(rising, clk, first, n, second, n);
  }

  lemma {:induction false} ReceiveWord(c: Config, rising: bool, clk: bool, bits: seq<bool>)
    requires if c.phase then !clk else rising
    ensures Gets(rising, clk, WordWave(c, bits), bits, if bits == [] then clk else !c.phase)
    decreases |bits|
  {
    if bits != [] {
      ReceiveBit(c, rising, clk, bits[0]);
      ReceiveWord(c, rising, !c.phase, bits[1..]);
      GetsBoth(rising, clk, BitWave(c, bits[0]), [bits[0]], !c.phase, WordWave(c, bits[1..]), bits[1..], !c.phase);
      assert [bits[0]] + bits[1..] == bits;
    }
  }

  lemma {:induction false} ReceiveOpening(c: Config, rising: bool)
    ensures Gets(rising, false, Opening(c), [], false)
  {
    var n := Cycles(c, c.Leading()) + 1;
    ReceiveTwo(rising, false, REST, 1, SELECTED, n);
    assert Opening(c) == Rep(REST, 1) + Rep(SELECTED, n);
  }

  lemma {:induction false} ReceiveClosing(c: Config, rising: bool)
    requires c.phase || rising
    ensures Gets(rising, !c.phase, Closing(c), [], false)
  {
    var n, m := Cycles(c, c.trailing) + 2, Cycles(c, c.idle) + 1;
    ReceiveTwo(rising, !c.phase, SELECTED, n, DESELECTED, m);
  }

  lemma {:induction false} ReceiveWaveform(c: Config, rising: bool, word: seq<bool>)
    requires c.Valid() && |word| == c.width && (c.phase || rising)
    ensures Gets(rising, false, Waveform(c, word), Serial(c, word), false)
  {
    var bits := Serial(c, word);
    var wave := WordWave(c, bits);
    ReceiveOpening(c, rising);
    ReceiveClosing(c, rising);
    ReceiveWord(c, rising, false, bits);
    GetsBoth(rising, false, Opening(c), [], false, wave, bits, !c.phase);
    assert [] + bits == bits;
    GetsBoth(rising, false, Opening(c) + wave, bits, !c.phase, Closing(c), [], false);
    assert bits + [] == bits;
  }

  lemma {:induction false} AssembleSerial(c: Config, word: seq<bool>)
    ensures Assemble(c, Serial(c, word)) == word
  {
  }

  /** Round trip of one transfer: the receiver that samples the edge between the two halves of a
      bit gets the word that was on pdo in the latch cycle, and sees one clock pulse per bit. */
  lemma {:induction false} RoundTrip(c: Config, s: State, ins: seq<Input>)
    requires c.Valid() && Ready(c, s) && Fed(c, ins) && |ins| == TransferCycles(c) && ins[0].start
    ensures LatchCycle(c) < |ins|
    ensures var t := Trace(Edge(c), Look(c), s, ins);
            && Assemble(c, Receive(!c.phase, false, t)) == ins[LatchCycle(c)].pdo
            && |Receive(true, false, t)| == c.width
  {
    var end := Transfer(c, s, ins);
    var word := ins[LatchCycle(c)].pdo;
    ReceiveWaveform(c, !c.phase, word);
    ReceiveWaveform(c, true, word);
    AssembleSerial(c, word);
  }

  /** What the receiver has got during ins. */
  function Got(c: Config, s: State, ins: seq<Input>): seq<bool> {
    Receive(!c.phase, false, Trace(Edge(c), Look(c), s, ins))
  }

  /** The receiver has got a beginning of what was sent, and all of it if the transmitter is idle. */
  ghost predicate Delivered(c: Config, s: State, ins: seq<Input>) {
    && Got(c, s, ins) <= Sent(c, ins)
    && (View(c, Run(Edge(c), s, ins)).idle ==> Got(c, s, ins) == Sent(c, ins))
  }

  /** In any run the receiver has always got a beginning of what was sent, and all of it
      whenever the transmitter shows that it is idle. */
  lemma {:induction false} ReceivedIsSent(c: Config, s: State, ins: seq<Input>)
    requires c.Valid() && Ready(c, s) && Fed(c, ins)
    ensures Delivered(c, s, ins)
    decreases |ins|
  {
    if ins == [] {
    } else if !ins[0].start {
      ReceivedIsSent(c, Edge(c)(s, ins[0]), ins[1..]);
    } else if |ins| < TransferCycles(c) {
      ReceivedCutShort(c, s, ins);
    } else {
      var n := TransferCycles(c);
      var t := Transfer(c, s, ins[..n]);
      ReceivedIsSent(c, t, ins[n..]);
      ReceivedAfter(c, s, ins, n, Word(c, ins), t);
    }
  }

  lemma {:induction false} ReceivePrefix(rising: bool, clk: bool, w: seq<Pins>, n: nat)
    requires n <= |w|
    ensures Receive(rising, clk, w[..n]) <= Receive(rising, clk, w)
  {
    assert w == w[..n] + w[n..];
    ReceiveSplit(rising, clk, w[..n], w[n..]);
  }

  lemma {:induction false} SentCutShort(c: Config, ins: seq<Input>)
    requires ins != [] && ins[0].start && |ins| < |Waveform(c, Word(c, ins))|
    ensures Sent(c, ins) == Serial(c, Word(c, ins))
  {
  }

  /** In the middle of a transfer a beginning of its word is received, and idle is low. */
  lemma {:induction false} ReceivedCutShort(c: Config, s: State, ins: seq<Input>)
    requires c.Valid() && Ready(c, s) && Fed(c, ins) && ins != [] && ins[0].start && |ins| < TransferCycles(c)
    ensures Delivered(c, s, ins)
  {
    var w, n := Waveform(c, Word(c, ins)), |ins|;
    Interrupted(c, s, ins);
    BusyWhileSending(c, Word(c, ins), n);
    ReceiveWaveform(c, !c.phase, Word(c, ins));
    ReceivePrefix(!c.phase, false, w, n);
    SentCutShort(c, ins);
  }

  lemma {:induction false} BusyWhileSending(c: Config, word: seq<bool>, k: nat)
    requires |word| == c.width && 0 < k < TransferCycles(c)
    ensures |Waveform(c, word)| == TransferCycles(c) && !Waveform(c, word)[k].idle
  {
    BusyWaveform(c, word);
  }

  /** What follows a transfer is received after its word. */
  lemma {:induction false} ReceivedAfter(c: Config, s: State, ins: seq<Input>, n: nat, word: seq<bool>, t: State)
    requires c.Valid() && n == TransferCycles(c) <= |ins| && ins[0].start && word == Word(c, ins) && |word| == c.width
    requires Behaves(Edge(c), Look(c), s, ins[..n], Waveform(c, word), t)
    requires Delivered(c, t, ins[n..])
    ensures Delivered(c, s, ins)
  {
    var w := Waveform(c, word);
    SeenAfter(c, s, ins, n, w, t);
    ReceiveSplit(!c.phase, false, w, Trace(Edge(c), Look(c), t, ins[n..]));
    ReceiveWaveform(c, !c.phase, word);
    assert Got(c, s, ins) == Serial(c, word) + Got(c, t, ins[n..]);
    SentAfter(c, ins, n, word);
  }

  lemma {:induction false} SentAfter(c: Config, ins: seq<Input>, n: nat, word: seq<bool>)
    requires n == TransferCycles(c) <= |ins| && ins[0].start && word == Word(c, ins) && |word| == c.width
    ensures Sent(c, ins) == Serial(c, word) + Sent(c, ins[n..])
  {
    WaveformLength(c, word);
  }

  /** The whole statement, from power-up and for every input sequence. */
  lemma {:induction false} EveryRun(c: Config, ins: seq<Input>)
    requires c.width >= 1 && forall k :: 0 <= k < |ins| ==> |ins[k].pdo| == c.width
    ensures var pins := Trace(Edge(c), Look(c), PowerUp(c), ins);
            && pins == Ideal(c, ins)
            && Receive(!c.phase, false, pins) <= Sent(c, ins)
            && (View(c, Run(Edge(c), PowerUp(c), ins)).idle ==> Receive(!c.phase, false, pins) == Sent(c, ins))
  {
    Refines(c, PowerUp(c), ins);
    ReceivedIsSent(c, PowerUp(c), ins);
  }

  /** So does the machine itself: driven from power-up with any inputs, its wires are the ideal ones. */
  method Observe(c: Config, ins: seq<Input>) returns (pins: seq<Pins>)
    requires c.width >= 1 && forall k :: 0 <= k < |ins| ==> |ins[k].pdo| == c.width
    ensures pins == Ideal(c, ins)
  {
    var m := new Machine(c);
    pins := [];
    for i := 0 to |ins|
      invariant m.c == c && m.Valid() && m.Contents() == Run(Edge(c), PowerUp(c), ins[..i])
      invariant pins == Trace(Edge(c), Look(c), PowerUp(c), ins[..i])
    {
      TraceLast(Edge(c), Look(c), PowerUp(c), ins[..i + 1]);
      RunLast(Edge(c), PowerUp(c), ins[..i + 1]);
      assert ins[..i + 1][..i] == ins[..i];
      var p := m.Pinout();
      pins := pins + [p];
      m.Tick(ins[i].start, ins[i].pdo);
    }
    assert ins[..|ins|] == ins;
    Refines(c, PowerUp(c), ins);
  }

  // ---------------------------------------------------------------- timing

  lemma {:induction false} CyclesProduct(c: Config, n: nat)
    ensures Cycles(c, n) == n * Half(c)
  {
    if n > 0 {
      CyclesProduct(c, n - 1);
      assert n * Half(c) == (n - 1) * Half(c) + Half(c);
    }
  }

  lemma {:induction false} WordWaveBusy(c: Config, bits: seq<bool>)
    ensures forall k :: 0 <= k < |WordWave(c, bits)| ==> WordWave(c, bits)[k].cs && !WordWave(c, bits)[k].idle
    decreases |bits|
  {
    if bits != [] {
      WordWaveBusy(c, bits[1..]);
    }
  }

  /** When each wire is high: idle only in the first cycle, cs without a gap from the second one
      until the idle half-cycles, the clock only under cs. */
  lemma {:induction false} BusyWaveform(c: Config, word: seq<bool>)
    requires |word| == c.width
    ensures |Waveform(c, word)| == TransferCycles(c)
    ensures forall k :: 0 <= k < TransferCycles(c) ==>
              var p := Waveform(c, word)[k];
              && (p.idle <==> k == 0)
              && (p.cs <==> 1 <= k < TransferCycles(c) - Cycles(c, c.idle) - 1)
              && (p.clk ==> p.cs)
  {
    WaveformLength(c, word);
    WordWaveBusy(c, Serial(c, word));
  }

  /** Exact duration, with lead leading half-cycles, which are those of the configuration, and one when
      there are none but the clock phase is set: the machine is busy for (L + 2W + T + I) half-cycles of
      div + 1 system clock cycles and four cycles more; chip select lasts three cycles more than its
      half-cycles; and the word is read one cycle after the leading half-cycles. */
  lemma {:induction false} ExactTiming(c: Config, lead: nat)
    requires c.div >= 1
    requires c.leading >= 1 || !c.phase ==> lead == c.leading
    requires c.leading == 0 && c.phase ==> lead == 1
    ensures TransferCycles(c) - 1 == (lead + 2 * c.width + c.trailing + c.idle) * (c.div + 1) + 4
    ensures TransferCycles(c) - Cycles(c, c.idle) - 2 == (lead + 2 * c.width + c.trailing) * (c.div + 1) + 3
    ensures LatchCycle(c) == lead * (c.div + 1) + 1 && |Opening(c)| == lead * (c.div + 1) + 2
  {
    assert lead == c.Leading();
    HalfIs(c);
    CyclesProduct(c, lead); CyclesProduct(c, 2 * c.width);
    CyclesProduct(c, c.trailing); CyclesProduct(c, c.idle);
    Distribute(lead, 2 * c.width, c.trailing, c.div + 1);
    Distribute(lead + 2 * c.width, c.trailing, c.idle, c.div + 1);
    Distribute(lead, 2 * c.width, 0, c.div + 1);
  }

  lemma {:induction false} HalfIs(c: Config)
    requires c.div >= 1
    ensures Half(c) == c.div + 1
  {
    LengthHolds(c.div);
    TruncFits(c.div - 1, Length(c.div));
  }

  lemma {:induction false} Distribute(a: nat, b: nat, d: nat, h: nat)
    ensures (a + b + d) * h == a * h + b * h + d * h
  {
  }

  /** A divider of zero is not rejected: it wraps around and behaves as a divider of two. */
  lemma {:induction false} DividerZero(c: Config)
    requires c.div == 0
    ensures Half(c) == Half(c.(div := 2)) == 3
  {
    assert Trunc(-1, 1) == 1;
    assert Length(2) == 2 && Pow2(2) == 4;
    TruncFits(1, 2);
  }

  // ---------------------------------------------------------------- the handshake

  /** The clock generator is started only while it rests and the state machine has half-cycles to
      count; it runs exactly then, and no counter is about to pass below zero. */
  ghost predicate Safe(c: Config, s: State) {
    && |s.shift.sr| == c.width
    && s.counter < Pow2(c.CounterWidth()) && s.clock.counter < Pow2(Length(c.div))
    && (s.phase.Idle? ==> s.counter == 0)
    && (s.phase.Second? ==> s.counter > 0)
    && (s.clock.counting || s.clock.start <==> s.counter > 0)
    && !(s.clock.counting && s.clock.start)
    && (!s.clock.counting ==> s.clock.counter == 0)
  }

  lemma {:induction false} SafeStep(c: Config, s: State, i: Input)
    requires c.Valid() && |i.pdo| == c.width && Safe(c, s)
    ensures Safe(c, Step(c, s, i))
    ensures s.clock.start ==> !Step(c, s, i).clock.start
  {
    CountersFit(c);
    TruncFits(s.counter, c.CounterWidth());
    TruncFits(c.Leading(), c.CounterWidth()); TruncFits(c.leading, c.CounterWidth());
    TruncFits(c.width, c.CounterWidth());
    TruncFits(c.trailing, c.CounterWidth()); TruncFits(c.idle, c.CounterWidth());
    if s.counter > 0 {
      TruncFits(s.counter - 1, c.CounterWidth());
    }
    if s.clock.counter > 0 {
      TruncFits(s.clock.counter - 1, Length(c.div));
    }
  }

  /** The handshake holds after every input sequence from power-up: start is never high in two
      consecutive cycles, and a running clock generator that is not done has something to count. */
  lemma {:induction false} Handshake(c: Config, ins: seq<Input>)
    requires c.Valid() && Fed(c, ins)
    ensures var s := Run(Edge(c), PowerUp(c), ins);
            && Safe(c, s)
            && (s.clock.start ==> !s.clock.counting && !s.phase.Idle? && s.counter > 0)
            && (s.clock.counting && !s.clock.Done() ==> s.clock.counter > 0)
            && forall i: Input :: |i.pdo| == c.width && s.clock.start ==> !Edge(c)(s, i).clock.start
    decreases |ins|
  {
    CountersFit(c);
    LengthHolds(c.div);
    if ins != [] {
      var n := |ins| - 1;
      Handshake(c, ins[..n]);
      RunLast(Edge(c), PowerUp(c), ins);
      SafeStep(c, Run(Edge(c), PowerUp(c), ins[..n]), ins[n]);
    }
    var s := Run(Edge(c), PowerUp(c), ins);
    forall i: Input | |i.pdo| == c.width && s.clock.start
      ensures !Edge(c)(s, i).clock.start
    {
      SafeStep(c, s, i);
    }
  }
}
