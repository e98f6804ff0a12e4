/** The wires of the SPI transmitter in every single cycle of a transfer, in numbers. */
module SpiTiming {
  import opened Bits
  import opened Clocked
  import opened Sequences
  import opened SpiMachine
  import opened SpiTransfer
  import opened SpiReceiver
  import Average

  /** What idle, cs, clk and sdo should be in cycle k of a transfer of word, with lead leading half-cycles
      and h system clock cycles in each half-cycle: the idle cycle that sees start; chip select alone for
      the leading half-cycles and one cycle; each bit for two half-cycles, in the second of which the clock
      is high, or, with the clock phase set, in the first; chip select alone for the trailing half-cycles
      and two cycles; and nothing for the idle half-cycles and one cycle. */
  function Expected(c: Config, lead: nat, h: nat, word: seq<bool>, k: nat): Pins
    requires h >= 1
  {
    var data := lead * h + 2;
    var end := data + c.width * (2 * h);
    Wires(c, h, word, data, end, end + c.trailing * h + 2, k)
  }

  /** The data bits go from cycle data to cycle end, and chip select is high until cycle release. */
  function Wires(c: Config, h: nat, word: seq<bool>, data: nat, end: nat, release: nat, k: nat): Pins
    requires h >= 1
  {
    if k == 0 then Pins(true, false, false, false)
    else if k < data then Pins(false, true, false, false)
    else if k < end then DataPins(c, h, Bit(c, word, (k - data) / (2 * h)), (k - data) % (2 * h))
    else Pins(false, k < release, false, false)
  }

  /** The wires t cycles after a bit began. */
  function DataPins(c: Config, h: nat, bit: bool, t: nat): Pins {
    Pins(false, true, if t < h then c.phase else !c.phase, bit)
  }

  /** The n-th bit on the wire. */
  function Bit(c: Config, word: seq<bool>, n: nat): bool {
    if n >= |word| then false else if c.lsbFirst then word[n] else word[|word| - 1 - n]
  }

  lemma {:induction false} BitWaveAt(c: Config, b: bool, t: nat)
    requires t < 2 * Half(c)
    ensures BitWave(c, b)[t] == DataPins(c, Half(c), b, t)
  {
  }

  lemma {:induction false} WordWaveAt(c: Config, bits: seq<bool>, n: nat, t: nat)
    requires n < |bits| && t < 2 * Half(c)
    ensures Cycles(c, 2 * n) + t < |WordWave(c, bits)|
    ensures WordWave(c, bits)[Cycles(c, 2 * n) + t] == DataPins(c, Half(c), bits[n], t)
    decreases n
  {
    if n == 0 {
      BitWaveAt(c, bits[0], t);
    } else {
      assert Cycles(c, 2 * n) == 2 * Half(c) + Cycles(c, 2 * (n - 1));
      WordWaveAt(c, bits[1..], n - 1, t);
    }
  }

  lemma {:induction false} WaveformAt(c: Config, word: seq<bool>, a: nat, b: nat, k: nat)
    requires |word| == c.width && a == |Opening(c)| && b == |WordWave(c, Serial(c, word))|
    requires k < |Waveform(c, word)|
    ensures Waveform(c, word)[k] == if k < a then Opening(c)[k]
                                    else if k < a + b then WordWave(c, Serial(c, word))[k - a]
                                    else Closing(c)[k - a - b]
  {
  }

  lemma {:induction false} SerialAt(c: Config, word: seq<bool>, n: nat)
    requires n < |word|
    ensures Serial(c, word)[n] == Bit(c, word, n)
  {
  }

  lemma {:induction false} OpeningAt(c: Config, k: nat)
    requires k < |Opening(c)|
    ensures Opening(c)[k] == Pins(k == 0, k > 0, false, false)
  {
  }

  lemma {:induction false} ClosingAt(c: Config, k: nat)
    requires k < |Closing(c)|
    ensures Closing(c)[k] == Pins(false, k < Cycles(c, c.trailing) + 2, false, false)
  {
  }

  lemma {:induction false} DataAt(c: Config, word: seq<bool>, n: nat, t: nat)
    requires |word| == c.width && n < c.width && t < 2 * Half(c)
    ensures Cycles(c, 2 * n) + t < |WordWave(c, Serial(c, word))|
    ensures WordWave(c, Serial(c, word))[Cycles(c, 2 * n) + t] == DataPins(c, Half(c), Bit(c, word, n), t)
  {
    WordWaveAt(c, Serial(c, word), n, t);
    SerialAt(c, word, n);
  }

  lemma {:induction false} Divided(k: nat, m: nat, w: nat)
    requires m >= 1 && k < w * m
    ensures k == (k / m) * m + k % m && 0 <= k / m < w
  {
    if k / m >= w {
      Average.MulOrder(w, k / m, m);
    }
  }

  lemma {:induction false} CyclesOf(c: Config, n: nat, h: nat)
    requires h == Half(c)
    ensures Cycles(c, 2 * n) == n * (2 * h)
  {
    CyclesProduct(c, 2 * n);
    TwoHalves(n, h);
  }

  lemma {:induction false} WaveformOutside(c: Config, word: seq<bool>, a: nat, e: nat, k: nat)
    requires |word| == c.width && k < |Waveform(c, word)| && !(a <= k < e)
    requires a == |Opening(c)| && e == a + |WordWave(c, Serial(c, word))|
    ensures Waveform(c, word)[k] == if k < a then Pins(k == 0, k > 0, false, false)
                                    else Pins(false, k < e + Cycles(c, c.trailing) + 2, false, false)
  {
    WaveformAt(c, word, a, e - a, k);
    if k < a {
      OpeningAt(c, k);
    } else {
      ClosingAt(c, k - e);
    }
  }

  lemma {:induction false} WaveformInside(c: Config, word: seq<bool>, a: nat, n: nat, t: nat)
    requires |word| == c.width && a == |Opening(c)| && n < c.width && t < 2 * Half(c)
    ensures a + Cycles(c, 2 * n) + t < |Waveform(c, word)|
    ensures Waveform(c, word)[a + Cycles(c, 2 * n) + t] == DataPins(c, Half(c), Bit(c, word, n), t)
  {
    DataAt(c, word, n, t);
    WaveformAt(c, word, a, |WordWave(c, Serial(c, word))|, a + Cycles(c, 2 * n) + t);
  }

  /** Cycle by cycle: from rest and for any inputs, a transfer shows exactly the expected wires. */
  lemma {:induction false} CycleByCycle(c: Config, s: State, ins: seq<Input>, lead: nat, h: nat, k: nat)
    requires c.Valid() && c.div >= 1 && h == c.div + 1 && Ready(c, s) && Fed(c, ins)
    requires c.leading >= 1 || !c.phase ==> lead == c.leading
    requires c.leading == 0 && c.phase ==> lead == 1
    requires |ins| == (lead + 2 * c.width + c.trailing + c.idle) * h + 5 && ins[0].start && k < |ins|
    ensures 0 <= lead * h + 1 < |ins|
    ensures Trace(Edge(c), Look(c), s, ins)[k] == Expected(c, lead, h, ins[lead * h + 1].pdo, k)
  {
    ExactTiming(c, lead);
    HalfIs(c);
    var t := Transfer(c, s, ins);
    WaveformExpected(c, lead, h, ins[lead * h + 1].pdo, k);
  }

  lemma {:induction false} WaveformExpected(c: Config, lead: nat, h: nat, word: seq<bool>, k: nat)
    requires |word| == c.width && h == Half(c) && |Opening(c)| == lead * h + 2 && k < |Waveform(c, word)|
    ensures Waveform(c, word)[k] == Expected(c, lead, h, word, k)
  {
    var data := lead * h + 2;
    var end := data + c.width * (2 * h);
    WordWaveLength(c, Serial(c, word));
    CyclesOf(c, c.width, h);
    CyclesProduct(c, c.trailing);
    if data <= k < end {
      Divided(k - data, 2 * h, c.width);
      var n, t := (k - data) / (2 * h), (k - data) % (2 * h);
      CyclesOf(c, n, h);
      WaveformInside(c, word, data, n, t);
    } else {
      WaveformOutside(c, word, data, end, k);
    }
  }

  lemma {:induction false} TwoHalves(n: nat, h: nat)
    ensures 2 * n * h == n * (2 * h)
  {
  }
}
