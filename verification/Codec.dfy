/** How Python numbers become register contents and back: integer registers with saturation and an
    offset, and fixed-point registers on top of them. Registers cut what is written to their width. */
module Codec {
  import opened Bits
  import opened Reals
  import opened Wrappers

  /** ram: the words come from memory by DMA, always as 32 bits. */
  datatype Register = Register(width: nat, signed: bool, offset: int, min: Option<int>, max: Option<int>, ram: bool)
  {
    predicate Valid() { width >= 1 }

    function IntMax(): int
      requires Valid()
    {
      if signed then Pow2(width - 1) - 1 else Pow2(width) - 1
    }

    function IntMin(): int
      requires Valid()
    {
      if signed then -(Pow2(width - 1) as int) else 0
    }
  }

  /** The plain register's conversion: add the offset, saturate at zero and at 2^width. */
  function FromPython(r: Register, v: int): nat {
    var u := v + r.offset;
    if u < 0 then 0 else if u >= Pow2(r.width) then Pow2(r.width) else u
  }

  /** The limits that the user of a number register sees. */
  function BeforeFromPython(r: Register, v: int): int {
    if r.max.Some? && v > r.max.value then r.max.value
    else if r.min.Some? && v < r.min.value then r.min.value
    else v
  }

  function Saturated(r: Register, v: int): int
    requires r.Valid()
  {
    if v < r.IntMin() then r.IntMin() else if v > r.IntMax() then r.IntMax() else v
  }

  /** Negative numbers are shifted up by 2^width. */
  function Code(r: Register, v: int): int {
    if r.signed && v < 0 then v + Pow2(r.width) else v
  }

  /** The number register's conversion: saturate at the ends of the range, then as the plain register. */
  function FromNumber(r: Register, v: int): nat
    requires r.Valid()
  {
    FromPython(r, Code(r, Saturated(r, v)))
  }

  function Encode(r: Register, v: int): nat
    requires r.Valid()
  {
    FromNumber(r, BeforeFromPython(r, v))
  }

  /** What the register holds after a word was written to it. */
  function Held(r: Register, word: nat): nat {
    Trunc(word, r.width)
  }

  function TransferWidth(r: Register): nat {
    if r.ram then 32 else r.width
  }

  function Decode(r: Register, word: nat): int
    requires r.Valid()
  {
    var w := TransferWidth(r);
    var v := word - r.offset;
    if r.signed && v >= Pow2(w - 1) then v - Pow2(w) else v
  }

  /** The array conversion: one operation on all words after the other, in place on a copy. */
  method DecodeArray(r: Register, words: seq<nat>) returns (values: array<int>)
    requires r.Valid()
    ensures fresh(values) && values.Length == |words|
    ensures forall k :: 0 <= k < |words| ==> values[k] == Decode(r, words[k])
  {
    var w := TransferWidth(r);
    values := new int[|words|](k requires 0 <= k < |words| => words[k]);
    for i := 0 to |words|
      invariant forall k :: 0 <= k < |words| ==> values[k] == if k < i then words[k] - r.offset else words[k]
    {
      values[i] := values[i] - r.offset;
    }
    if r.signed {
      for i := 0 to |words|
        invariant forall k :: 0 <= k < |words| ==>
                    values[k] == if k < i then Decode(r, words[k]) else words[k] - r.offset
      {
        if values[i] >= Pow2(w - 1) {
          values[i] := values[i] - Pow2(w);
        }
      }
    }
  }

  // ---------------------------------------------------------------- integers

  /** A number that the limits and the width leave alone, and its code. */
  lemma {:induction false} CodeRange(r: Register, v: int)
    requires r.Valid()
    ensures var u := Saturated(r, v);
            && r.IntMin() <= u <= r.IntMax()
            && 0 <= Code(r, u) < Pow2(r.width)
            && (u == v <==> r.IntMin() <= v <= r.IntMax())
  {
    assert Pow2(r.width) == 2 * Pow2(r.width - 1);
  }

  /** Reading back a number: it comes back as it was limited and saturated, if and only if the offset
      leaves its code within the width; or, in a signed register, carries a negative number exactly to
      zero, or another one exactly 2^width below zero. */
  lemma {:induction false} RoundTripIff(r: Register, v: int)
    requires r.Valid() && !r.ram
    ensures var u := Saturated(r, BeforeFromPython(r, v));
            Decode(r, Held(r, Encode(r, v))) == u <==>
              || 0 <= Code(r, u) + r.offset < Pow2(r.width)
              || (r.signed && u + r.offset == if u < 0 then 0 else -(Pow2(r.width) as int))
  {
    var u := Saturated(r, BeforeFromPython(r, v));
    CodeRange(r, BeforeFromPython(r, v));
    var x := Code(r, u) + r.offset;
    assert Pow2(r.width) == 2 * Pow2(r.width - 1);
    if 0 <= x < Pow2(r.width) {
      TruncFits(x, r.width);
    } else if x < 0 {
      TruncFits(0, r.width);
    } else {
      ModUnique(Pow2(r.width), Pow2(r.width), 1, 0);
    }
  }

  /** Without an offset every number comes back, limited by max and min (max first) and then clamped to the
      range of its width. */
  lemma {:induction false} RoundTrip(r: Register, v: int, u: int, lo: int, hi: int)
    requires r.width >= 1 && !r.ram && r.offset == 0
    requires u == if r.max.Some? && v > r.max.value then r.max.value
                  else if r.min.Some? && v < r.min.value then r.min.value else v
    requires lo == (if r.signed then -(Pow2(r.width - 1) as int) else 0)
    requires hi == (if r.signed then Pow2(r.width - 1) - 1 else Pow2(r.width) - 1)
    ensures Decode(r, Held(r, Encode(r, v))) == if u < lo then lo else if u > hi then hi else u
  {
    RoundTripIff(r, v);
    CodeRange(r, BeforeFromPython(r, v));
  }

  lemma {:induction false} ComesBack(r: Register, v: int)
    requires r.Valid() && !r.ram && r.offset == 0
    ensures Decode(r, Held(r, Encode(r, v))) == Saturated(r, BeforeFromPython(r, v))
  {
    RoundTripIff(r, v);
    CodeRange(r, BeforeFromPython(r, v));
  }

  /** The period registers, offset by -2 and at least 2: the number, at least 2, clamped at the top. */
  lemma {:induction false} PeriodRoundTrip(r: Register, v: int)
    requires r.width >= 3 && r.signed && !r.ram && r.offset == -2 && r.min == Some(2) && r.max == None
    ensures Decode(r, Held(r, Encode(r, v))) == if v < 2 then 2 else if v > r.IntMax() then r.IntMax() else v
  {
    assert Pow2(r.width - 1) == 2 * Pow2(r.width - 2) && Pow2(r.width - 2) == 2 * Pow2(r.width - 3);
    assert Pow2(r.width) == 2 * Pow2(r.width - 1);
    RoundTripIff(r, v);
  }

  /** The other way round: every word of the register is the encoding of its decoding. */
  lemma {:induction false} CodeRoundTrip(r: Register, word: nat)
    requires r.Valid() && !r.ram && r.offset == 0 && r.min == None && r.max == None && word < Pow2(r.width)
    ensures r.IntMin() <= Decode(r, word) <= r.IntMax() && Encode(r, Decode(r, word)) == word
  {
    assert Pow2(r.width) == 2 * Pow2(r.width - 1);
  }

  /** The plain register saturates at 2^width, which it cannot hold: numbers from the top of the range
      on are stored as zero. What is held is the clamped number exactly below it. */
  lemma {:induction false} PlainSaturation(r: Register, v: int)
    ensures var u := v + r.offset;
            && (u < Pow2(r.width) ==> Held(r, FromPython(r, v)) == if u < 0 then 0 else u)
            && (u >= Pow2(r.width) ==> Held(r, FromPython(r, v)) == 0)
  {
    var u := v + r.offset;
    if u < 0 {
      TruncFits(0, r.width);
    } else if u < Pow2(r.width) {
      TruncFits(u, r.width);
    } else {
      ModUnique(Pow2(r.width), Pow2(r.width), 1, 0);
    }
  }

  // ---------------------------------------------------------------- fixed point

  /** The nearest integer, the even one when two are equally near. */
  function Round(x: real): int {
    var f := x.Floor;
    var rest := x - f as real;
    if rest < 0.5 || (rest == 0.5 && f % 2 == 0) then f else f + 1
  }

  lemma {:induction false} RoundMonotone(x: real, y: real)
    requires x <= y
    ensures Round(x) <= Round(y)
  {
    assert x.Floor <= y.Floor;
  }

  lemma {:induction false} RoundInteger(k: int)
    ensures Round(k as real) == k
  {
  }

  /** No integer is nearer, and of two that are equally near it is the even one. */
  lemma {:induction false} RoundNear(x: real)
    ensures Abs(Round(x) as real - x) <= 0.5
    ensures Abs(Round(x) as real - x) == 0.5 ==> Round(x) % 2 == 0
  {
  }

  /** x in units of 1/s. */
  function Units(x: real, s: real): real {
    x * s
  }

  function InSteps(x: real, s: real): int {
    Round(Units(x, s))
  }

  lemma {:induction false} InStepsMonotone(x: real, y: real, s: real)
    requires x <= y && s > 0.0
    ensures InSteps(x, s) <= InSteps(y, s)
  {
    MulMonotone(x, y, s);
    RoundMonotone(x * s, y * s);
  }

  lemma {:induction false} InStepsExact(v: int, s: real)
    requires s > 0.0
    ensures InSteps(v as real / s, s) == v
  {
    DivMul(v as real, s);
    RoundInteger(v);
  }

  /** The nearest number to x that r holds in units of 1/s, when y is x in those units. */
  function Nearest(r: Register, x: real, y: real, s: real): real
    requires r.Valid() && s > 0.0
  {
    if y < r.IntMin() as real then r.IntMin() as real / s
    else if y > r.IntMax() as real then r.IntMax() as real / s
    else x
  }

  /** A fixed-point register; its limits are real numbers, as the user sees them. */
  datatype Fixed = Fixed(raw: Register, decimals: nat, min: Option<real>, max: Option<real>)
  {
    predicate Valid() { raw.Valid() && raw.offset == 0 && !raw.ram }

    /** The number of steps in one unit. */
    function Steps(): (s: real)
      ensures decimals >= 1 ==> s >= 1.0
    {
      (Pow2(decimals) - 1) as real
    }

    /** The limits that the user sees, applied before any conversion. */
    function Limited(x: real): real {
      if max.Some? && x > max.value then max.value
      else if min.Some? && x < min.value then min.value
      else x
    }

    /** What Python shows for a word; without decimals it divides by zero. */
    function ToFloat(word: nat): Option<real>
      requires Valid()
    {
      if decimals == 0 then None else Some(Decode(raw, word) as real / Steps())
    }

    function FromFloat(x: real): nat
      requires Valid()
    {
      FromNumber(raw, InSteps(Limited(x), Steps()))
    }

    /** The word can be read, and writing what was read stores it again. */
    predicate Survives(word: nat)
      requires Valid()
    {
      ToFloat(word).Some? && FromFloat(ToFloat(word).value) == word
    }

    /** What is read lies within the limits, if it can be read. */
    predicate InLimits(word: nat)
      requires Valid()
    {
      ToFloat(word).Some? ==> Limited(ToFloat(word).value) == ToFloat(word).value
    }
  }

  /** Fixed-point registers work exactly when they have decimals; by default they have none. */
  lemma {:induction false} FixedWorksIff(f: Fixed)
    requires f.Valid()
    ensures (forall word: nat :: word < Pow2(f.raw.width) && f.InLimits(word) ==> f.Survives(word)) <==> f.decimals >= 1
  {
    if f.decimals == 0 {
      assert !f.Survives(0) && f.InLimits(0);
    } else {
      forall word: nat | word < Pow2(f.raw.width) && f.InLimits(word)
        ensures f.Survives(word)
      {
        FixedCodeRoundTrip(f, word);
      }
    }
  }

  /** Every raw word within the limits survives decoding and encoding. */
  lemma {:induction false} FixedCodeRoundTrip(f: Fixed, word: nat)
    requires f.Valid() && f.decimals >= 1 && word < Pow2(f.raw.width) && f.InLimits(word)
    ensures f.FromFloat(f.ToFloat(word).value) == word
  {
    InStepsExact(Decode(f.raw, word), f.Steps());
    CodeRoundTrip(f.raw.(min := None, max := None), word);
  }

  /** One unit has 2^decimals - 1 steps: a word times that is the number it stands for. */
  lemma {:induction false} ReadScale(f: Fixed, word: nat)
    requires f.Valid() && f.decimals >= 1
    ensures f.ToFloat(word).Some?
    ensures f.ToFloat(word).value * (Pow2(f.decimals) - 1) as real == Decode(f.raw, word) as real
  {
    DivMul(Decode(f.raw, word) as real, (Pow2(f.decimals) - 1) as real);
  }

  /** Full scale: plus and minus one are plus and minus 2^decimals - 1, where the width and the limits
      allow. */
  lemma {:induction false} FullScale(f: Fixed, n: nat)
    requires f.Valid() && f.decimals >= 1 && n == Pow2(f.decimals) - 1
    ensures n <= f.raw.IntMax() ==> f.ToFloat(n) == Some(1.0)
    ensures n <= f.raw.IntMax() && f.Limited(1.0) == 1.0 ==> f.FromFloat(1.0) == n
    ensures -(n as int) >= f.raw.IntMin() && f.Limited(-1.0) == -1.0 ==>
              Decode(f.raw, Held(f.raw, f.FromFloat(-1.0))) == -(n as int)
  {
    assert Pow2(f.raw.width) == 2 * Pow2(f.raw.width - 1);
    assert Pow2(f.decimals) == 2 * Pow2(f.decimals - 1);
    OneUnit(n, f.Steps());
    if -(n as int) >= f.raw.IntMin() {
      Stored(f.raw, -(n as int));
    }
  }

  lemma {:induction false} OneUnit(n: nat, s: real)
    requires n >= 1 && s == n as real
    ensures n as real / s == 1.0 && InSteps(1.0, s) == n && InSteps(-1.0, s) == -(n as int)
  {
    assert Units(1.0, s) == n as real && Units(-1.0, s) == (-(n as int)) as real;
    RoundInteger(n);
    RoundInteger(-(n as int));
  }

  /** Every number comes back within half a step of what its limits (max first) and the range of the width
      make of it: y is the limited number, and z the nearest to it that the width allows. */
  lemma {:induction false} FixedError(f: Fixed, x: real, y: real, n: real, z: real)
    requires f.Valid() && f.decimals >= 1 && n == (Pow2(f.decimals) - 1) as real
    requires y == if f.max.Some? && x > f.max.value then f.max.value
                  else if f.min.Some? && x < f.min.value then f.min.value else x
    requires z == if y * n < f.raw.IntMin() as real then f.raw.IntMin() as real / n
                  else if y * n > f.raw.IntMax() as real then f.raw.IntMax() as real / n else y
    ensures Abs(f.ToFloat(Held(f.raw, f.FromFloat(x))).value - z) <= 0.5 / n
  {
    FixedNearest(f, x, y, n);
    NearestIs(f.raw, y, n, z);
  }

  lemma {:induction false} FixedNearest(f: Fixed, x: real, y: real, n: real)
    requires f.Valid() && f.decimals >= 1 && n == f.Steps() && y == f.Limited(x)
    ensures n > 0.0
    ensures Abs(f.ToFloat(Held(f.raw, f.FromFloat(x))).value - Nearest(f.raw, y, Units(y, n), n)) <= 0.5 / n
  {
    StoredFixed(f, x, y, n);
    NearestError(f.raw, y, Units(y, n), n);
  }

  lemma {:induction false} NearestIs(r: Register, y: real, n: real, z: real)
    requires r.Valid() && n > 0.0
    requires z == if y * n < r.IntMin() as real then r.IntMin() as real / n
                  else if y * n > r.IntMax() as real then r.IntMax() as real / n else y
    ensures z == Nearest(r, y, Units(y, n), n)
  {
  }

  /** What a word stored for x reads as, n being the number of steps and y the limited number. */
  lemma {:induction false} StoredFixed(f: Fixed, x: real, y: real, n: real)
    requires f.Valid() && f.decimals >= 1 && n == f.Steps() && y == f.Limited(x)
    ensures n >= 1.0
    ensures f.ToFloat(Held(f.raw, f.FromFloat(x))).value
         == Decode(f.raw, Held(f.raw, FromNumber(f.raw, Round(Units(y, n))))) as real / n
  {
  }

  lemma {:induction false} NearestError(r: Register, x: real, y: real, s: real)
    requires r.Valid() && r.offset == 0 && !r.ram && s > 0.0 && y == Units(x, s)
    ensures Abs(Decode(r, Held(r, FromNumber(r, Round(y)))) as real / s - Nearest(r, x, y, s)) <= 0.5 / s
  {
    if r.IntMin() as real <= y <= r.IntMax() as real {
      StoredError(r, x, y, s);
    } else {
      StoredAtEnd(r, y);
      HalfPositive(s);
    }
  }

  lemma {:induction false} HalfPositive(s: real)
    requires s > 0.0
    ensures 0.5 / s >= 0.0
  {
  }

  /** Beyond the range the end of it is stored. */
  lemma {:induction false} StoredAtEnd(r: Register, y: real)
    requires r.Valid() && r.offset == 0 && !r.ram
    ensures y < r.IntMin() as real ==> Decode(r, Held(r, FromNumber(r, Round(y)))) == r.IntMin()
    ensures y > r.IntMax() as real ==> Decode(r, Held(r, FromNumber(r, Round(y)))) == r.IntMax()
  {
    assert Pow2(r.width) == 2 * Pow2(r.width - 1);
    Stored(r, Round(y));
    RoundInteger(r.IntMin());
    RoundInteger(r.IntMax());
    if y < r.IntMin() as real {
      RoundMonotone(y, r.IntMin() as real);
    } else if y > r.IntMax() as real {
      RoundMonotone(r.IntMax() as real, y);
    }
  }

  /** A number without further limits is stored clamped to the range of the width. */
  lemma {:induction false} Stored(r: Register, v: int)
    requires r.Valid() && r.offset == 0 && !r.ram
    ensures Decode(r, Held(r, FromNumber(r, v))) == Saturated(r, v)
  {
    ComesBack(r.(min := None, max := None), v);
  }

  lemma {:induction false} StoredError(r: Register, x: real, y: real, s: real)
    requires r.Valid() && r.offset == 0 && !r.ram
    requires s > 0.0 && y == x * s && r.IntMin() as real <= y <= r.IntMax() as real
    ensures Abs(Decode(r, Held(r, FromNumber(r, Round(y)))) as real / s - x) <= 0.5 / s
  {
    Stored(r, Round(y));
    InRange(r, y);
    HalfStep(Round(y), x, y, s);
  }

  lemma {:induction false} InRange(r: Register, y: real)
    requires r.Valid() && r.IntMin() as real <= y <= r.IntMax() as real
    ensures Saturated(r, Round(y)) == Round(y) && Abs(Round(y) as real - y) <= 0.5
  {
    RoundMonotone(r.IntMin() as real, y);
    RoundMonotone(y, r.IntMax() as real);
    RoundInteger(r.IntMin());
    RoundInteger(r.IntMax());
    RoundNear(y);
  }

  lemma {:induction false} HalfStep(k: int, x: real, y: real, s: real)
    requires s > 0.0 && y == x * s && Abs(k as real - y) <= 0.5
    ensures Abs(k as real / s - x) <= 0.5 / s
  {
    DivMul(k as real, s);
    DivMul(0.5, s);
    var q, h := k as real / s, 0.5 / s;
    SubMul(q, x, s);
    MulCancelBy(q - x, k as real - y, h, s);
    SubMul(x, q, s);
    MulCancelBy(x - q, y - k as real, h, s);
  }

  lemma {:induction false} MulCancelBy(d: real, p: real, h: real, s: real)
    requires s > 0.0 && d * s == p && h * s == 0.5 && p <= 0.5
    ensures d <= h
  {
    MulCancel(d, h, s);
  }

  /** Writing keeps the order of all numbers, also beyond the limits and where it saturates. */
  lemma {:induction false} FixedMonotone(f: Fixed, x: real, y: real)
    requires f.Valid() && f.decimals >= 1 && x <= y
    requires f.min.Some? && f.max.Some? ==> f.min.value <= f.max.value
    ensures Decode(f.raw, Held(f.raw, f.FromFloat(x))) <= Decode(f.raw, Held(f.raw, f.FromFloat(y)))
  {
    InStepsMonotone(f.Limited(x), f.Limited(y), f.Steps());
    StoredMonotone(f.raw, InSteps(f.Limited(x), f.Steps()), InSteps(f.Limited(y), f.Steps()));
  }

  lemma {:induction false} StoredMonotone(r: Register, u: int, v: int)
    requires r.Valid() && r.offset == 0 && !r.ram && u <= v
    ensures Decode(r, Held(r, FromNumber(r, u))) <= Decode(r, Held(r, FromNumber(r, v)))
  {
    Stored(r, u);
    Stored(r, v);
  }
}
