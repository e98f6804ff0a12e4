/** What the value register of the acquisition shows in every cycle of a burst, by the reduce mode. The
    memory paths take it from there, each with its own delay. */
module Recording {
  import opened Bits
  import opened Clocked
  import opened Reals
  import opened Sequences
  import Average
  import BurstGen
  import Daq

  /** The samples since the last pulse before cycle m of a burst. */
  function Window(c: Daq.Config, wait: nat, xs: seq<int>, m: nat): (w: seq<int>)
    requires 1 <= m <= |xs|
    ensures w != []
  {
    xs[BurstGen.LastPulse(c.burst, wait, m)..m]
  }

  /** v is what the value register shows in the cycle after cycle m of a burst with samples xs; r are the
      registers in the first cycle of the burst. All modes but the mean reduce the window up to m, the
      mean the window up to two cycles before; in the first cycles they still show what the registers
      had collected by then. */
  ghost predicate Shows(c: Daq.Config, v: int, r: Daq.Regs, xs: seq<int>, wait: nat, m: nat)
    requires c.Valid() && m < |xs|
  {
    match c.mode
    case 0 => v == if m == 0 then r.average else c.Scaled(SumShown(c, r, xs, wait, m))
    case 1 => if m > 0 then Daq.IsMax(v, Window(c, wait, xs, m)) else v == r.max
    case 2 => if m > 0 then Daq.IsMin(v, Window(c, wait, xs, m)) else v == r.min
    case 3 => v == xs[m]
    case 4 => v == c.Store(if m > 0 then Edges(c, Window(c, wait, xs, m)) else r.edges, c.width)
    case 5 => v == c.offset
    case 6 => v == c.Store(if m > 0 then Trunc(|Window(c, wait, xs, m)| - 1, c.sumBits) else r.count, c.width)
    case _ => v == r.value
  }

  /** The sum whose mean is shown in the cycle after cycle m. */
  function SumShown(c: Daq.Config, r: Daq.Regs, xs: seq<int>, wait: nat, m: nat): int
    requires c.Valid() && 0 < m < |xs|
  {
    if m == 1 then r.oldSum
    else if m == 2 then r.sum
    else c.Store(Daq.Sum(Window(c, wait, xs, m - 2)), c.width + c.sumBits)
  }

  /** The rising edges in a window, as many as their register holds. */
  function Edges(c: Daq.Config, w: seq<int>): nat {
    Daq.Rising(w, c.threshold) % 0x40_0000
  }

  // ---------------------------------------------------------------- the value register

  /** The acquisition m cycles after the first cycle of a burst. */
  function After(c: Daq.Config, s: Daq.State, first: Daq.Input, ins: seq<Daq.Input>, m: nat): Daq.State
    requires c.Valid() && m <= |ins|
  {
    Run(Daq.Edge(c), Daq.Step(c, s, first), ins[..m])
  }

  lemma {:induction false} AfterNext(c: Daq.Config, s: Daq.State, first: Daq.Input, ins: seq<Daq.Input>, m: nat)
    requires c.Valid() && m < |ins|
    ensures After(c, s, first, ins, m + 1) == Daq.Step(c, After(c, s, first, ins, m), ins[m])
  {
    var t := Daq.Step(c, s, first);
    RunLast(Daq.Edge(c), t, ins[..m + 1]);
    assert ins[..m + 1][..m] == ins[..m];
  }

  /** The registers in the first cycle of the burst. */
  function First(c: Daq.Config, s: Daq.State, first: Daq.Input): Daq.Regs
    requires c.Valid()
  {
    Daq.Step(c, s, first).regs
  }

  /** When the trigger is met at rest, no pulse is shown, and the accumulators still have what the last
      burst left. */
  lemma {:induction false} FromRest(c: Daq.Config, past: seq<Daq.Input>, s: Daq.State, first: Daq.Input)
    requires c.Valid() && s == Run(Daq.Edge(c), Daq.PowerUp(c), past) && !s.burst.busy
    ensures !s.burst.out
    ensures var r := First(c, s, first);
            && r.sum == r.oldSum == s.regs.sum && r.average == c.Scaled(s.regs.oldSum)
            && r.max == s.regs.max && r.min == s.regs.min && r.edges == s.regs.edges && r.count == s.regs.count
            && r.value == Daq.Selected(c, s.regs, first.x)
  {
    Daq.Decompose(c, Daq.PowerUp(c), past);
    BurstGen.Refines(c.burst, BurstGen.PowerUp(c.burst), BurstGen.Rest, Daq.Triggers(past));
  }

  /** In all later cycles of the burst the accumulators hold the window. */
  lemma {:induction false} WindowHeld(c: Daq.Config, past: seq<Daq.Input>, s: Daq.State, first: Daq.Input,
                                      ins: seq<Daq.Input>, wait: nat, m: nat)
    requires Daq.FullBurst(c, past, s, first, ins, wait) && 1 <= m <= |ins|
    ensures Daq.Holds(c, After(c, s, first, ins, m).regs, Window(c, wait, Daq.Samples(ins), m))
  {
    var j := BurstGen.FindPulse(c.burst, c.burst.pulses, wait, m);
    BurstGen.LastPulseIs(c.burst, wait, j, m);
    Daq.Windows(c, past, s, first, ins, wait, j, BurstGen.PulseTime(c.burst, wait, j), m);
  }

  lemma {:induction false} ValueInMode(c: Daq.Config, s: Daq.State, first: Daq.Input, ins: seq<Daq.Input>, m: nat)
    requires c.Valid() && m < |ins|
    ensures After(c, s, first, ins, m + 1).regs.value == Daq.Selected(c, After(c, s, first, ins, m).regs, ins[m].x)
    ensures After(c, s, first, ins, m + 1).regs.average == c.Scaled(After(c, s, first, ins, m).regs.oldSum)
    ensures After(c, s, first, ins, m + 1).regs.oldSum == After(c, s, first, ins, m).regs.sum
  {
    AfterNext(c, s, first, ins, m);
  }

  lemma {:induction false} ValueKept(c: Daq.Config, s: Daq.State, first: Daq.Input, ins: seq<Daq.Input>, m: nat)
    requires c.Valid() && c.mode > 6 && m <= |ins|
    ensures After(c, s, first, ins, m).regs.value == First(c, s, first).value
  {
    if m > 0 {
      ValueKept(c, s, first, ins, m - 1);
      ValueInMode(c, s, first, ins, m - 1);
    } else {
      assert ins[..0] == [];
    }
  }

  /** The mean takes two registers more than the other reductions. */
  lemma {:induction false} MeanDelayed(c: Daq.Config, s: Daq.State, first: Daq.Input, ins: seq<Daq.Input>, m: nat)
    requires c.Valid() && m < |ins| && c.mode == 0
    ensures var v := After(c, s, first, ins, m + 1).regs.value;
            v == if m == 0 then After(c, s, first, ins, 0).regs.average
                 else if m == 1 then c.Scaled(After(c, s, first, ins, 0).regs.oldSum)
                 else c.Scaled(After(c, s, first, ins, m - 2).regs.sum)
  {
    ValueInMode(c, s, first, ins, m);
    if m > 0 {
      ValueInMode(c, s, first, ins, m - 1);
    }
    if m > 1 {
      ValueInMode(c, s, first, ins, m - 2);
    }
  }

  lemma {:induction false} MeanShown(c: Daq.Config, past: seq<Daq.Input>, s: Daq.State, first: Daq.Input,
                                     ins: seq<Daq.Input>, wait: nat, m: nat)
    requires Daq.FullBurst(c, past, s, first, ins, wait) && m < |ins| && c.mode == 0
    ensures Shows(c, After(c, s, first, ins, m + 1).regs.value, First(c, s, first), Daq.Samples(ins), wait, m)
  {
    MeanDelayed(c, s, first, ins, m);
    if m > 2 {
      WindowHeld(c, past, s, first, ins, wait, m - 2);
    }
  }

  lemma {:induction false} RegisterShown(c: Daq.Config, past: seq<Daq.Input>, s: Daq.State, first: Daq.Input,
                                         ins: seq<Daq.Input>, wait: nat, m: nat)
    requires Daq.FullBurst(c, past, s, first, ins, wait) && m < |ins| && 0 < c.mode < 7
    ensures Shows(c, After(c, s, first, ins, m + 1).regs.value, First(c, s, first), Daq.Samples(ins), wait, m)
  {
    ValueInMode(c, s, first, ins, m);
    if m > 0 {
      WindowHeld(c, past, s, first, ins, wait, m);
    }
  }

  /** In every cycle of every burst the value register shows the selected reduction. */
  lemma {:induction false} ValueShown(c: Daq.Config, past: seq<Daq.Input>, s: Daq.State, first: Daq.Input,
                                      ins: seq<Daq.Input>, wait: nat, m: nat)
    requires Daq.FullBurst(c, past, s, first, ins, wait) && m < |ins|
    ensures Shows(c, After(c, s, first, ins, m + 1).regs.value, First(c, s, first), Daq.Samples(ins), wait, m)
  {
    if c.mode == 0 {
      MeanShown(c, past, s, first, ins, wait, m);
    } else if c.mode < 7 {
      RegisterShown(c, past, s, first, ins, wait, m);
    } else {
      ValueKept(c, s, first, ins, m + 1);
    }
  }

  /** Python sees busy one cycle late: throughout the burst from its second cycle on, in the first cycle only
      if the last burst was still running, and in the second cycle after the burst only if another one
      followed. */
  lemma {:induction false} BusySeen(c: Daq.Config, past: seq<Daq.Input>, s: Daq.State, first: Daq.Input,
                                    ins: seq<Daq.Input>, wait: nat, m: nat, next: Daq.Input)
    requires Daq.FullBurst(c, past, s, first, ins, wait) && m <= |ins|
    ensures After(c, s, first, ins, m).regs.busy <==> m > 0 || s.burst.busy
    ensures Daq.Step(c, After(c, s, first, ins, |ins|), next).regs.busy <==> ins[|ins| - 1].trigger
  {
    if m == 0 {
      assert ins[..0] == [];
    } else {
      AfterNext(c, s, first, ins, m - 1);
      Daq.BurstTrace(c, past, s, first, ins, wait);
      Daq.PinsAt(c, Daq.Step(c, s, first), ins, m - 1);
      BurstGen.BurstBusy(c.burst, c.burst.pulses, wait);
    }
    Daq.BusyAfter(c, past, s, first, ins, wait);
    assert ins[..|ins|] == ins;
  }

  // ---------------------------------------------------------------- complete windows

  /** The samples between the pulse before pulse j and pulse j. */
  function Complete(c: Daq.Config, wait: nat, xs: seq<int>, j: nat): seq<int>
    requires 1 <= j && BurstGen.PulseTime(c.burst, wait, j - 1) <= BurstGen.PulseTime(c.burst, wait, j) <= |xs|
  {
    xs[BurstGen.PulseTime(c.burst, wait, j - 1)..BurstGen.PulseTime(c.burst, wait, j)]
  }

  /** Seen lag cycles before pulse j, or before the end of the burst, the window is the complete one without
      its last lag samples. */
  lemma {:induction false} WindowIsComplete(c: Daq.Config, wait: nat, xs: seq<int>, j: nat, lag: nat)
    requires 1 <= j <= c.burst.pulses + 1 && |xs| == |BurstGen.BurstWave(c.burst, c.burst.pulses, wait)|
    ensures BurstGen.PulseTime(c.burst, wait, j - 1) < BurstGen.PulseTime(c.burst, wait, j) <= |xs|
    ensures j <= c.burst.pulses ==> BurstGen.PulseTime(c.burst, wait, j) < |xs|
    ensures j == c.burst.pulses + 1 ==> BurstGen.PulseTime(c.burst, wait, j) == |xs|
    ensures var w := Complete(c, wait, xs, j);
            && |w| == (if j == 1 then wait + 1 else c.burst.period + 2)
            && (lag < |w| ==> Window(c, wait, xs, BurstGen.PulseTime(c.burst, wait, j) - lag) == w[..|w| - lag])
  {
    var b, e := BurstGen.PulseTime(c.burst, wait, j - 1), BurstGen.PulseTime(c.burst, wait, j);
    BurstGen.PulsesFit(c.burst, c.burst.pulses, wait, j);
    BurstGen.PulseTimesGrow(c.burst, wait, j - 1, j);
    Daq.WindowLength(c, wait, j - 1);
    if lag < e - b {
      BurstGen.LastPulseIs(c.burst, wait, j - 1, e - lag);
      SliceOfSlice(xs, b, e, e - b - lag);
    }
  }

  // ---------------------------------------------------------------- how good the mean is

  /** v is a mean of the window w by way of all but its last lag samples: within the width, as close to
      their share of the mean as the division allows, and at most lag samples' weight further from the
      mean itself. */
  ghost predicate NearMean(c: Daq.Config, v: int, w: seq<int>, lag: nat)
    requires c.Valid() && lag < |w|
  {
    var n, m := |w|, if c.signed then Pow2(c.width - 1) else Pow2(c.width);
    var error := 1.0 + (m * (n - 1)) as real / 65536.0;
    && c.InRange(v, c.width)
    && Abs(v as real - Daq.Sum(w[..n - lag]) as real / n as real) < error
    && Abs(v as real - Daq.Sum(w) as real / n as real) < error + (lag * m) as real / n as real
  }

  /** The sum of all but some samples, and of those. */
  lemma {:induction false} SumOfMost(c: Daq.Config, w: seq<int>, k: nat)
    requires c.Valid() && k <= |w| <= Pow2(c.sumBits) && Daq.InSignal(c, w)
    ensures |w| * Daq.Low(c) <= Daq.Sum(w[..k]) <= |w| * Daq.High(c)
    ensures c.Store(Daq.Sum(w[..k]), c.width + c.sumBits) == Daq.Sum(w[..k])
  {
    Daq.SumFits(c, w[..k]);
    Daq.LowHigh(c);
    Average.MulOrder(k, |w|, Daq.High(c));
    Average.MulOrder(k, |w|, -Daq.Low(c));
    Negate(k, |w|, Daq.Low(c));
  }

  lemma {:induction false} Negate(a: int, b: int, x: int)
    ensures a * -x == -(a * x) && b * -x == -(b * x)
  {
  }

  lemma {:induction false} SumOfLast(w: seq<int>, k: nat, lag: nat, m: nat)
    requires k + lag == |w| && forall i :: 0 <= i < |w| ==> -(m as int) <= w[i] <= m
    ensures -(lag * m) <= Daq.Sum(w) - Daq.Sum(w[..k]) <= lag * m
    decreases lag
  {
    if lag == 0 {
      assert w[..k] == w;
    } else {
      var v := w[..|w| - 1];
      assert v[..k] == w[..k];
      SumOfLast(v, k, lag - 1, m);
      assert lag * m == (lag - 1) * m + m;
    }
  }

  lemma {:induction false} Share(sum: int, part: int, n: int, d: int)
    requires n >= 1 && -d <= sum - part <= d
    ensures Abs(part as real / n as real - sum as real / n as real) <= d as real / n as real
  {
    var s, p, q, h := n as real, part as real / n as real, sum as real / n as real, d as real / n as real;
    DivMul(part as real, s);
    DivMul(sum as real, s);
    DivMul(d as real, s);
    SubMul(p, q, s);
    SubMul(q, p, s);
    MulCancel(p - q, h, s);
    MulCancel(q - p, h, s);
  }

  lemma {:induction false} MeanNear(c: Daq.Config, v: int, w: seq<int>, lag: nat)
    requires c.Valid() && lag < |w| <= Pow2(c.sumBits) && Daq.InSignal(c, w) && c.inverse == 65536 / |w|
    requires v == c.Scaled(c.Store(Daq.Sum(w[..|w| - lag]), c.width + c.sumBits))
    ensures NearMean(c, v, w, lag)
  {
    var n, k, m := |w|, |w| - lag, Daq.Magnitude(c);
    var part := Daq.Sum(w[..k]);
    SumOfMost(c, w, k);
    Daq.LowHigh(c);
    Average.Mean(part, n, Daq.Low(c), Daq.High(c), m);
    Daq.StoreFits(c, (part * c.inverse) / Average.SCALE);
    SumOfLast(w, k, lag, m);
    Share(Daq.Sum(w), part, n, lag * m);
  }

  // ---------------------------------------------------------------- what a complete window gives

  /** v is the reduction of the window w as seen lag cycles before its end: extremes, count and rising
      edges of all but the last lag samples; the mean comes two samples shorter still, and is near the
      mean of the whole window when the sampling period set in Python is the length of it. */
  ghost predicate Reduced(c: Daq.Config, v: int, w: seq<int>, lag: nat)
    requires c.Valid() && lag < |w|
  {
    Extreme(c, v, w[..|w| - lag]) && Counted(c, v, w[..|w| - lag]) && Averaged(c, v, w, lag + 2)
  }

  ghost predicate Extreme(c: Daq.Config, v: int, w: seq<int>) {
    (c.mode == 1 ==> Daq.IsMax(v, w)) && (c.mode == 2 ==> Daq.IsMin(v, w))
  }

  ghost predicate Counted(c: Daq.Config, v: int, w: seq<int>)
    requires c.Valid() && w != []
  {
    && (c.mode == 4 ==> v == c.Store(Edges(c, w), c.width))
    && (c.mode == 4 && |w| <= 0x40_0000 ==> v == c.Store(Daq.Rising(w, c.threshold), c.width))
    && (c.mode == 6 ==> v == c.Store(Trunc(|w| - 1, c.sumBits), c.width))
  }

  /** Windows of up to 2^22 samples do not overflow the edge counter. */
  lemma {:induction false} FewEdges(c: Daq.Config, w: seq<int>)
    ensures |w| <= 0x40_0000 ==> Edges(c, w) == Daq.Rising(w, c.threshold)
  {
    Daq.RisingBound(w, c.threshold);
  }

  ghost predicate Averaged(c: Daq.Config, v: int, w: seq<int>, lag: nat)
    requires c.Valid() && w != []
  {
    c.mode == 0 && lag < |w| <= Pow2(c.sumBits) && c.inverse == 65536 / |w| ==> NearMean(c, v, w, lag)
  }

  lemma {:induction false} MeanOfShown(c: Daq.Config, v: int, r: Daq.Regs, xs: seq<int>, wait: nat, m: nat)
    requires c.Valid() && c.mode == 0 && 2 < m < |xs| && Shows(c, v, r, xs, wait, m)
    ensures v == c.Scaled(c.Store(Daq.Sum(Window(c, wait, xs, m - 2)), c.width + c.sumBits))
  {
  }

  lemma {:induction false} CompleteMean(c: Daq.Config, v: int, r: Daq.Regs, xs: seq<int>, wait: nat, j: nat,
                                        lag: nat, m: nat)
    requires c.Valid() && Daq.InSignal(c, xs) && 1 <= j <= c.burst.pulses + 1
    requires |xs| == |BurstGen.BurstWave(c.burst, c.burst.pulses, wait)|
    requires m + lag == BurstGen.PulseTime(c.burst, wait, j) && m < |xs| && Shows(c, v, r, xs, wait, m)
    ensures BurstGen.PulseTime(c.burst, wait, j - 1) < BurstGen.PulseTime(c.burst, wait, j) <= |xs|
    ensures Averaged(c, v, Complete(c, wait, xs, j), lag + 2)
  {
    WindowIsComplete(c, wait, xs, j, lag + 2);
    var w := Complete(c, wait, xs, j);
    if c.mode == 0 && lag + 2 < |w| <= Pow2(c.sumBits) && c.inverse == 65536 / |w| {
      MeanOfShown(c, v, r, xs, wait, m);
      MeanNear(c, v, w, lag + 2);
    }
  }

  lemma {:induction false} CompleteWindow(c: Daq.Config, v: int, r: Daq.Regs, xs: seq<int>, wait: nat, j: nat,
                                          lag: nat, m: nat)
    requires c.Valid() && Daq.InSignal(c, xs) && 1 <= j <= c.burst.pulses + 1
    requires |xs| == |BurstGen.BurstWave(c.burst, c.burst.pulses, wait)|
    requires m + lag == BurstGen.PulseTime(c.burst, wait, j) && m < |xs| && Shows(c, v, r, xs, wait, m)
    ensures BurstGen.PulseTime(c.burst, wait, j - 1) < BurstGen.PulseTime(c.burst, wait, j) <= |xs|
    ensures lag < |Complete(c, wait, xs, j)| ==> Reduced(c, v, Complete(c, wait, xs, j), lag)
  {
    WindowIsComplete(c, wait, xs, j, lag);
    CompleteMean(c, v, r, xs, wait, j, lag, m);
    var w := Complete(c, wait, xs, j);
    if lag < |w| {
      FewEdges(c, w[..|w| - lag]);
    }
  }

  // ---------------------------------------------------------------- bursts without a break

  /** The registers after the last cycle of a window: complete, but for the mean. */
  ghost predicate Collected(c: Daq.Config, r: Daq.Regs, w: seq<int>) {
    Daq.Holds(c, r, w) && MeanCollected(c, r.average, w)
  }

  ghost predicate MeanCollected(c: Daq.Config, average: int, w: seq<int>)
    requires c.Valid()
  {
    |w| > 2 ==> average == c.Scaled(c.Store(Daq.Sum(w[..|w| - 2]), c.width + c.sumBits))
  }

  lemma {:induction false} AverageDelayed(c: Daq.Config, s: Daq.State, first: Daq.Input, ins: seq<Daq.Input>, m: nat)
    requires c.Valid() && m + 2 <= |ins|
    ensures After(c, s, first, ins, m + 2).regs.average == c.Scaled(After(c, s, first, ins, m).regs.sum)
  {
    ValueInMode(c, s, first, ins, m);
    ValueInMode(c, s, first, ins, m + 1);
  }

  /** Towards the end of a burst the window is the one after its last pulse. */
  lemma {:induction false} WindowAtEnd(c: Daq.Config, wait: nat, xs: seq<int>, b: nat, m: nat)
    requires |xs| == |BurstGen.BurstWave(c.burst, c.burst.pulses, wait)|
    requires b == BurstGen.PulseTime(c.burst, wait, c.burst.pulses) < m <= |xs|
    ensures Window(c, wait, xs, m) == xs[b..m]
  {
    BurstGen.PulsesFit(c.burst, c.burst.pulses, wait, c.burst.pulses + 1);
    BurstGen.LastPulseIs(c.burst, wait, c.burst.pulses, m);
  }

  /** When the next burst follows without a break, the registers in its first cycle have collected the last
      window w of this one. */
  lemma {:induction false} LastWindow(c: Daq.Config, past: seq<Daq.Input>, s: Daq.State, first: Daq.Input,
                                      ins: seq<Daq.Input>, wait: nat, b: nat, w: seq<int>)
    requires Daq.FullBurst(c, past, s, first, ins, wait)
    requires b == BurstGen.PulseTime(c.burst, wait, c.burst.pulses) < |ins| && w == Daq.Samples(ins)[b..]
    ensures Collected(c, After(c, s, first, ins, |ins|).regs, w)
  {
    LastHeld(c, past, s, first, ins, wait, b, w);
    if |w| > 2 {
      LastMean(c, past, s, first, ins, wait, b, w);
    }
  }

  lemma {:induction false} LastHeld(c: Daq.Config, past: seq<Daq.Input>, s: Daq.State, first: Daq.Input,
                                    ins: seq<Daq.Input>, wait: nat, b: nat, w: seq<int>)
    requires Daq.FullBurst(c, past, s, first, ins, wait)
    requires b == BurstGen.PulseTime(c.burst, wait, c.burst.pulses) < |ins| && w == Daq.Samples(ins)[b..]
    ensures Daq.Holds(c, After(c, s, first, ins, |ins|).regs, w)
  {
    var n := |ins|;
    WindowAtEnd(c, wait, Daq.Samples(ins), b, n);
    assert Daq.Samples(ins)[b..n] == w;
    assert Window(c, wait, Daq.Samples(ins), n) == w;
    WindowHeld(c, past, s, first, ins, wait, n);
  }

  lemma {:induction false} SumHeld(c: Daq.Config, past: seq<Daq.Input>, s: Daq.State, first: Daq.Input,
                                   ins: seq<Daq.Input>, wait: nat, m: nat)
    requires Daq.FullBurst(c, past, s, first, ins, wait) && 1 <= m <= |ins|
    ensures After(c, s, first, ins, m).regs.sum
              == c.Store(Daq.Sum(Window(c, wait, Daq.Samples(ins), m)), c.width + c.sumBits)
  {
    WindowHeld(c, past, s, first, ins, wait, m);
  }

  lemma {:induction false} LastMean(c: Daq.Config, past: seq<Daq.Input>, s: Daq.State, first: Daq.Input,
                                    ins: seq<Daq.Input>, wait: nat, b: nat, w: seq<int>)
    requires Daq.FullBurst(c, past, s, first, ins, wait) && |w| > 2
    requires b == BurstGen.PulseTime(c.burst, wait, c.burst.pulses) < |ins| && w == Daq.Samples(ins)[b..]
    ensures MeanCollected(c, After(c, s, first, ins, |ins|).regs.average, w)
  {
    var m := |ins| - 2;
    WindowAtEnd(c, wait, Daq.Samples(ins), b, m);
    assert Daq.Samples(ins)[b..m] == w[..|w| - 2];
    SumHeld(c, past, s, first, ins, wait, m);
    AverageDelayed(c, s, first, ins, m);
  }

  /** The first cycle of the next burst, whose trigger is the last input of this one, is the end of this one. */
  lemma {:induction false} FirstOfNext(c: Daq.Config, s: Daq.State, first: Daq.Input, ins: seq<Daq.Input>)
    requires c.Valid() && ins != []
    ensures First(c, After(c, s, first, ins, |ins| - 1), ins[|ins| - 1]) == After(c, s, first, ins, |ins|).regs
  {
    AfterNext(c, s, first, ins, |ins| - 1);
  }

  lemma {:induction false} LastComplete(c: Daq.Config, wait: nat, xs: seq<int>, b: nat)
    requires |xs| == |BurstGen.BurstWave(c.burst, c.burst.pulses, wait)|
    requires b == BurstGen.PulseTime(c.burst, wait, c.burst.pulses) < |xs|
    ensures BurstGen.PulseTime(c.burst, wait, c.burst.pulses + 1) == |xs|
    ensures Complete(c, wait, xs, c.burst.pulses + 1) == xs[b..]
  {
    BurstGen.PulsesFit(c.burst, c.burst.pulses, wait, c.burst.pulses + 1);
  }

  /** The value register in that cycle, one cycle earlier, has all but the last sample of that window. */
  lemma {:induction false} FirstValueOfNext(c: Daq.Config, past: seq<Daq.Input>, s: Daq.State, first: Daq.Input,
                                            ins: seq<Daq.Input>, wait: nat, b: nat, w: seq<int>)
    requires Daq.FullBurst(c, past, s, first, ins, wait) && Daq.InSignal(c, Daq.Samples(ins))
    requires b == BurstGen.PulseTime(c.burst, wait, c.burst.pulses) < |ins| && w == Daq.Samples(ins)[b..]
    ensures 1 < |w| ==> Reduced(c, After(c, s, first, ins, |ins|).regs.value, w, 1)
  {
    var xs, j, n := Daq.Samples(ins), c.burst.pulses + 1, |ins|;
    var v := After(c, s, first, ins, n).regs.value;
    LastComplete(c, wait, xs, b);
    ValueShown(c, past, s, first, ins, wait, n - 1);
    CompleteWindow(c, v, First(c, s, first), xs, wait, j, 1, n - 1);
  }

  /** So the value register in its second cycle shows the reduction of that window. */
  lemma {:induction false} LastWindowShown(c: Daq.Config, r: Daq.Regs, w: seq<int>, v: int, xs: seq<int>, wait: nat)
    requires Collected(c, r, w) && Daq.InSignal(c, w) && xs != [] && Shows(c, v, r, xs, wait, 0)
    ensures Reduced(c, v, w, 0)
  {
    assert w[..|w|] == w;
    FewEdges(c, w);
    if c.mode == 0 && 2 < |w| <= Pow2(c.sumBits) && c.inverse == 65536 / |w| {
      MeanNear(c, v, w, 2);
    }
  }
}
