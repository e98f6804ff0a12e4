/** Arrays in Python: lists of values, converted to words and back, over the access loops of the server. */
module PythonArray {
  import opened Bits
  import opened Clocked
  import opened Sequences
  import opened Wrappers
  import opened ArrayAccess
  import opened ArrayRegister
  import Codec
  import Reals
  import Stream

  /** How a register converts single values. An array of numbers is converted by numpy, all at once; a plain
      or boolean array value by value. */
  datatype Conversion<!V> = Conversion(write: V -> nat, read: nat -> V, numpy: bool)

  function Plain(r: Codec.Register): Conversion<int> {
    Conversion((v: int) => Codec.FromPython(r, v), (word: nat) => word - r.offset, false)
  }

  function Number(r: Codec.Register): Conversion<int>
    requires r.Valid()
  {
    Conversion((v: int) => Codec.Encode(r, v), (word: nat) => Codec.Decode(r, word), true)
  }

  function FixedPoint(f: Codec.Fixed): Conversion<real>
    requires f.Valid() && f.decimals >= 1
  {
    Conversion((x: real) => f.FromFloat(x), (word: nat) => f.ToFloat(word).value, true)
  }

  function Ordered<T>(reverse: bool, list: seq<T>): seq<T> {
    if reverse then Reverse(list) else list
  }

  function ToWords<V>(conv: Conversion<V>, values: seq<V>): seq<nat> {
    seq<nat>(|values|, k requires 0 <= k < |values| => conv.write(values[k]))
  }

  function FromWords<V>(conv: Conversion<V>, words: seq<nat>): seq<V> {
    seq(|words|, k requires 0 <= k < |words| => conv.read(words[k]))
  }

  /** A reversed array is handed to the conversion as an iterator, of which numpy cannot make an array of
      numbers: the read fails. */
  predicate Readable<V>(conv: Conversion<V>, reverse: bool) {
    !(conv.numpy && reverse)
  }

  /** The words that assigning a list of values writes. */
  function Sent<V>(conv: Conversion<V>, reverse: bool, values: seq<V>): seq<nat> {
    ToWords(conv, Ordered(reverse, values))
  }

  /** The list of values that is made of the words read. */
  function Received<V>(conv: Conversion<V>, reverse: bool, words: seq<nat>): Option<seq<V>> {
    if Readable(conv, reverse) then Some(FromWords(conv, Ordered(reverse, words))) else None
  }

  /** Assigns a list of values to the array. */
  method Set<V>(dev: Register, conv: Conversion<V>, reverse: bool, values: seq<V>, stale: nat, gaps: seq<Gap>)
    requires WellFormed(dev.c, dev.View()) && dev.c.width <= 31
    requires |values| >= 2 && |gaps| == Min(|values|, 65533)
    modifies dev
    ensures WellFormed(dev.c, dev.View()) && Cells(dev) == Assigned(dev.c, Sent(conv, reverse, values), old(Cells(dev)))
  {
    var ordered, words := Ordered(reverse, values), [];
    for i := 0 to |ordered|
      invariant words == ToWords(conv, ordered[..i])
    {
      words := words + [conv.write(ordered[i])];
    }
    assert ordered[..|ordered|] == ordered;
    Assign(dev, words, stale, gaps);
  }

  /** Reads the array; the accesses are done even if the conversion then fails. */
  method Get<V>(dev: Register, conv: Conversion<V>, reverse: bool, gaps: seq<Gap>) returns (values: Option<seq<V>>)
    requires WellFormed(dev.c, dev.View())
    requires 2 <= dev.c.depth && |gaps| == Min(dev.c.depth, 65535)
    requires forall k :: 0 <= k < |gaps| ==> gaps[k].between >= 4
    modifies dev
    ensures WellFormed(dev.c, dev.View()) && Cells(dev) == old(Cells(dev))
    ensures values == Received(conv, reverse, Fetched(dev.c, Cells(dev)))
  {
    var words := Fetch(dev, gaps);
    if conv.numpy && reverse {
      return None;
    }
    var ordered, list := Ordered(reverse, words), [];
    for i := 0 to |ordered|
      invariant list == FromWords(conv, ordered[..i])
    {
      list := list + [conv.read(ordered[i])];
    }
    assert ordered[..|ordered|] == ordered;
    values := Some(list);
  }

  // ---------------------------------------------------------------- round trips

  /** What reading the array gives after a list of values was assigned to it. */
  function Back<V>(c: Config, conv: Conversion<V>, reverse: bool, values: seq<V>, cells: seq<nat>): Option<seq<V>>
    requires c.Valid()
  {
    Received(conv, reverse, Fetched(c, Assigned(c, Sent(conv, reverse, values), cells)))
  }

  /** What one cell makes of a value. */
  function Stored<V>(c: Config, conv: Conversion<V>, v: V): V {
    conv.read(Trunc(conv.write(v), c.width))
  }

  /** The cells after a list of values was assigned. */
  function CellsAfter<V>(c: Config, conv: Conversion<V>, reverse: bool, values: seq<V>, cells: seq<nat>): seq<nat>
    requires |values| <= |cells|
  {
    Fit(c, Sent(conv, reverse, values)) + cells[|values|..]
  }

  /** When index and client reach all cells, what can be read is what the cells hold, in order. */
  lemma {:induction false} ReadsCells<V>(c: Config, conv: Conversion<V>, reverse: bool, values: seq<V>, cells: seq<nat>)
    requires c.Valid() && |cells| == c.depth <= Pow2(c.width) && |values| <= c.depth && |values| <= 65533
    requires Readable(conv, reverse) && c.depth <= 65535
    ensures Back(c, conv, reverse, values, cells)
         == Received(conv, reverse, CellsAfter(c, conv, reverse, values, cells))
  {
    var list := CellsAfter(c, conv, reverse, values, cells);
    ArrayAccess.RoundTrip(c, Sent(conv, reverse, values), cells);
    assert Clip(list, Stream.MAX_READ) == list;
  }

  lemma {:induction false} ReceivedAt<V>(conv: Conversion<V>, reverse: bool, words: seq<nat>, k: nat)
    requires Readable(conv, reverse) && k < |words|
    ensures Received(conv, reverse, words).Some? && |Received(conv, reverse, words).value| == |words|
    ensures Received(conv, reverse, words).value[k] == conv.read(words[if reverse then |words| - 1 - k else k])
  {
  }

  lemma {:induction false} CellAt<V>(c: Config, conv: Conversion<V>, reverse: bool, values: seq<V>, cells: seq<nat>,
                                     at: nat)
    requires |values| <= |cells| && at < |cells|
    ensures |CellsAfter(c, conv, reverse, values, cells)| == |cells|
    ensures conv.read(CellsAfter(c, conv, reverse, values, cells)[at])
         == if at < |values| then Stored(c, conv, values[if reverse then |values| - 1 - at else at])
            else conv.read(cells[at])
  {
  }

  /** Round trip: an array that is not reversed gives back each value as its cell holds it, followed by the
      cells beyond the list, which have not changed. */
  lemma {:induction false} RoundTrip<V>(c: Config, conv: Conversion<V>, values: seq<V>, cells: seq<nat>, k: nat)
    requires c.Valid() && |cells| == c.depth <= Pow2(c.width) && |values| <= c.depth && |values| <= 65533
    requires k < c.depth <= 65535
    ensures var back := Back(c, conv, false, values, cells);
            && back.Some? && |back.value| == c.depth
            && back.value[k] == if k < |values| then Stored(c, conv, values[k]) else conv.read(cells[k])
  {
    ReadsCells(c, conv, false, values, cells);
    ReceivedAt(conv, false, CellsAfter(c, conv, false, values, cells), k);
    CellAt(c, conv, false, values, cells, k);
  }

  /** A reversed array that can be read gives back the values at its end, after the cells beyond the list. */
  lemma {:induction false} ReversedRoundTrip<V>(c: Config, conv: Conversion<V>, values: seq<V>, cells: seq<nat>, k: nat)
    requires c.Valid() && |cells| == c.depth <= Pow2(c.width) && |values| <= c.depth && |values| <= 65533
    requires k < c.depth <= 65535 && Readable(conv, true)
    ensures var back, rest := Back(c, conv, true, values, cells), c.depth - |values|;
            && back.Some? && |back.value| == c.depth
            && back.value[k] == if k < rest then conv.read(cells[c.depth - 1 - k])
                                else Stored(c, conv, values[k - rest])
  {
    var list, at := CellsAfter(c, conv, true, values, cells), c.depth - 1 - k;
    ReadsCells(c, conv, true, values, cells);
    CellAt(c, conv, true, values, cells, at);
    ReceivedAt(conv, true, list, k);
    assert |values| - 1 - at == k - (c.depth - |values|);
  }

  /** Plain values come back as long as the offset leaves them within the width; others leave zero. */
  lemma {:induction false} PlainStored(c: Config, r: Codec.Register, v: int)
    requires r.Valid() && r.width == c.width
    ensures 0 <= v + r.offset < Pow2(c.width) ==> Stored(c, Plain(r), v) == v
    ensures !(0 <= v + r.offset < Pow2(c.width)) ==> Stored(c, Plain(r), v) == -r.offset
  {
    Codec.PlainSaturation(r, v);
  }

  /** Numbers in an array that is not reversed come back limited by max and min and clamped to the range of
      the width. */
  lemma {:induction false} NumbersComeBack(c: Config, r: Codec.Register, values: seq<int>, cells: seq<nat>, k: nat,
                                           u: int, lo: int, hi: int)
    requires c.Valid() && |cells| == c.depth <= Pow2(c.width) && |values| <= c.depth <= 65535
             && |values| <= 65533
    requires r.Valid() && r.width == c.width && !r.ram && r.offset == 0 && k < |values|
    requires u == if r.max.Some? && values[k] > r.max.value then r.max.value
                  else if r.min.Some? && values[k] < r.min.value then r.min.value else values[k]
    requires lo == (if r.signed then -(Pow2(r.width - 1) as int) else 0)
    requires hi == (if r.signed then Pow2(r.width - 1) - 1 else Pow2(r.width) - 1)
    ensures var back := Back(c, Number(r), false, values, cells);
            && back.Some? && |back.value| == c.depth
            && back.value[k] == if u < lo then lo else if u > hi then hi else u
  {
    RoundTrip(c, Number(r), values, cells, k);
    Codec.RoundTrip(r, values[k], u, lo, hi);
  }

  /** Fixed-point numbers in an array that is not reversed come back within half a step of what limits and
      width make of them: n is the number of steps in one unit, y the limited number, and z the nearest to
      it that the width allows. */
  lemma {:induction false} FixedPointComesBack(c: Config, f: Codec.Fixed, values: seq<real>, cells: seq<nat>, k: nat,
                                               y: real, n: real, z: real)
    requires c.Valid() && |cells| == c.depth <= Pow2(c.width) && |values| <= c.depth <= 65535
             && |values| <= 65533
    requires f.Valid() && f.decimals >= 1 && f.raw.width == c.width && k < |values|
    requires n == (Pow2(f.decimals) - 1) as real
    requires y == if f.max.Some? && values[k] > f.max.value then f.max.value
                  else if f.min.Some? && values[k] < f.min.value then f.min.value else values[k]
    requires z == if y * n < f.raw.IntMin() as real then f.raw.IntMin() as real / n
                  else if y * n > f.raw.IntMax() as real then f.raw.IntMax() as real / n else y
    ensures var back := Back(c, FixedPoint(f), false, values, cells);
            && back.Some? && |back.value| == c.depth
            && Reals.Abs(back.value[k] - z) <= 0.5 / n
  {
    RoundTrip(c, FixedPoint(f), values, cells, k);
    Codec.FixedError(f, values[k], y, n, z);
  }

  // ---------------------------------------------------------------- what is there from the beginning

  /** The cells at power-up: the default list, converted and then reversed if the register is, and zeros
      where it gives nothing. */
  function Initial<V>(c: Config, conv: Conversion<V>, reverse: bool, default: Option<seq<V>>): seq<nat>
    requires default.Some? ==> |default.value| <= c.depth
  {
    if default.None? then Rep(0, c.depth)
    else
      var words := Fit(c, Ordered(reverse, ToWords(conv, default.value)));
      words + Rep(0, c.depth - |words|)
  }

  /** An array that can be read gives its default list before anything is written, as its cells hold it;
      without a default it reads as zeros. */
  lemma {:induction false} ReadsDefault<V>(c: Config, conv: Conversion<V>, reverse: bool, default: Option<seq<V>>,
                                           cells: seq<nat>, k: nat)
    requires c.Valid() && k < c.depth <= Pow2(c.width) && c.depth <= 65535 && Readable(conv, reverse)
    requires default.Some? ==> |default.value| == c.depth
    requires cells == Initial(c, conv, reverse, default)
    ensures |cells| == c.depth && Words(c, cells)
    ensures var list := Received(conv, reverse, Fetched(c, cells));
            && list.Some? && |list.value| == c.depth
            && list.value[k] == if default.Some? then Stored(c, conv, default.value[k]) else conv.read(0)
  {
    InitialFits(c, conv, reverse, default, cells);
    FetchesAll(c, cells);
    ReadsInitial(c, conv, reverse, default, cells, k);
  }

  lemma {:induction false} InitialFits<V>(c: Config, conv: Conversion<V>, reverse: bool, default: Option<seq<V>>,
                                          cells: seq<nat>)
    requires default.Some? ==> |default.value| == c.depth
    requires cells == Initial(c, conv, reverse, default)
    ensures |cells| == c.depth && Words(c, cells)
  {
    forall at | 0 <= at < |cells|
      ensures |cells| == c.depth && cells[at] < Pow2(c.width)
    {
      InitialAt(c, conv, reverse, default, at);
    }
    if c.depth == 0 {
      assert |cells| == 0;
    }
  }

  lemma {:induction false} ReadsInitial<V>(c: Config, conv: Conversion<V>, reverse: bool, default: Option<seq<V>>,
                                           cells: seq<nat>, k: nat)
    requires k < c.depth == |cells| && Readable(conv, reverse) && (default.Some? ==> |default.value| == c.depth)
    requires cells == Initial(c, conv, reverse, default)
    ensures var list := Received(conv, reverse, cells);
            && list.Some? && |list.value| == c.depth
            && list.value[k] == if default.Some? then Stored(c, conv, default.value[k]) else conv.read(0)
  {
    var at := if reverse then c.depth - 1 - k else k;
    ReceivedAt(conv, reverse, cells, k);
    InitialAt(c, conv, reverse, default, at);
    assert k == if reverse then c.depth - 1 - at else at;
  }

  lemma {:induction false} FetchesAll(c: Config, cells: seq<nat>)
    requires c.Valid() && |cells| == c.depth <= Pow2(c.width) && c.depth <= 65535
    ensures Fetched(c, cells) == cells
  {
    LoadedInPlace(c, c.depth, cells);
    assert cells[..c.depth] == cells;
  }

  lemma {:induction false} InitialAt<V>(c: Config, conv: Conversion<V>, reverse: bool, default: Option<seq<V>>, at: nat)
    requires at < c.depth && (default.Some? ==> |default.value| == c.depth)
    ensures |Initial(c, conv, reverse, default)| == c.depth
    ensures Initial(c, conv, reverse, default)[at]
         == if default.None? then 0
            else Trunc(conv.write(default.value[if reverse then c.depth - 1 - at else at]), c.width)
  {
  }

  // ---------------------------------------------------------------- exactly when lists come back

  /** Every word of the register is the encoding of its decoding. */
  ghost predicate Exact<V>(c: Config, conv: Conversion<V>) {
    forall word: nat :: word < Pow2(c.width) ==> conv.write(conv.read(word)) == word
  }

  /** Every full list of values that the register can hold is read back as it was. */
  ghost predicate FullListsReturn<V(!new)>(c: Config, conv: Conversion<V>, reverse: bool)
    requires c.Valid()
  {
    forall words: seq<nat>, cells: seq<nat> :: Words(c, words) && Words(c, cells) && |words| == |cells| == c.depth ==>
      Back(c, conv, reverse, FromWords(conv, words), cells) == Some(FromWords(conv, words))
  }

  /** Full lists of values come back if and only if those of words do and the array can be read: not for a
      reversed array of numbers. */
  lemma {:induction false} FullListsReturnIff<V(!new)>(c: Config, conv: Conversion<V>, reverse: bool)
    requires c.Valid() && c.width >= 1 && c.depth >= 2 && Exact(c, conv)
    ensures FullListsReturn(c, conv, reverse)
       <==> c.depth <= 65533 && c.depth <= Pow2(c.width) && !(conv.numpy && reverse)
  {
    ArrayAccess.FullListsReturnIff(c);
    if !Readable(conv, reverse) {
      var zeros := Rep(0, c.depth);
      assert Words(c, zeros) && |zeros| == c.depth;
      assert Back(c, conv, reverse, FromWords(conv, zeros), zeros) == None;
    } else if ArrayAccess.FullListsReturn(c) {
      forall words: seq<nat>, cells: seq<nat> | Words(c, words) && Words(c, cells) && |words| == |cells| == c.depth
        ensures Back(c, conv, reverse, FromWords(conv, words), cells) == Some(FromWords(conv, words))
      {
        SentBack(c, conv, reverse, words);
        OrderedTwice(reverse, words);
      }
    } else {
      var list: seq<nat>, cells: seq<nat> :| Words(c, list) && Words(c, cells) && |list| == |cells| == c.depth
                                          && Fetched(c, Assigned(c, list, cells)) != list;
      Distinguished(c, conv, reverse, list, cells);
    }
  }

  lemma {:induction false} OrderedTwice<T>(reverse: bool, list: seq<T>)
    ensures Ordered(reverse, Ordered(reverse, list)) == list
  {
  }

  lemma {:induction false} SentBack<V>(c: Config, conv: Conversion<V>, reverse: bool, words: seq<nat>)
    requires Exact(c, conv) && Words(c, words)
    ensures Sent(conv, reverse, FromWords(conv, words)) == Ordered(reverse, words)
    ensures Words(c, Ordered(reverse, words)) && |Ordered(reverse, words)| == |words|
  {
  }

  lemma {:induction false} Injective<V>(c: Config, conv: Conversion<V>, a: seq<nat>, b: seq<nat>)
    requires Exact(c, conv) && Words(c, a) && Words(c, b) && FromWords(conv, a) == FromWords(conv, b)
    ensures a == b
  {
    SentBack(c, conv, false, a);
    SentBack(c, conv, false, b);
  }

  /** Words that do not come back as they were make values that do not either. */
  lemma {:induction false} Distinguished<V(!new)>(c: Config, conv: Conversion<V>, reverse: bool, list: seq<nat>,
                                           cells: seq<nat>)
    requires c.Valid() && Exact(c, conv) && Readable(conv, reverse) && Words(c, list) && Words(c, cells)
    requires |list| == |cells| == c.depth && Fetched(c, Assigned(c, list, cells)) != list
    ensures !FullListsReturn(c, conv, reverse)
  {
    var words, got := Ordered(reverse, list), Fetched(c, Assigned(c, list, cells));
    var back := Ordered(reverse, got);
    SentBack(c, conv, reverse, list);
    SentBack(c, conv, reverse, words);
    OrderedTwice(reverse, list);
    OrderedTwice(reverse, got);
    FetchedWords(c, list, cells);
    SentBack(c, conv, reverse, got);
    if FromWords(conv, back) == FromWords(conv, words) {
      Injective(c, conv, back, words);
    }
    assert Back(c, conv, reverse, FromWords(conv, words), cells) == Some(FromWords(conv, back));
  }

  /** A register without an offset and without limits of its own. */
  predicate Bare(c: Config, r: Codec.Register) {
    r.Valid() && r.width == c.width && r.offset == 0 && !r.ram && r.min == None && r.max == None
  }

  /** Plain arrays can be reversed or not. */
  lemma {:induction false} PlainArraysReturnIff(c: Config, r: Codec.Register, reverse: bool)
    requires c.Valid() && c.depth >= 2 && Bare(c, r)
    ensures FullListsReturn(c, Plain(r), reverse) <==> c.depth <= 65533 && c.depth <= Pow2(c.width)
  {
    FullListsReturnIff(c, Plain(r), reverse);
  }

  /** Arrays of numbers only come back when they are not reversed. */
  lemma {:induction false} NumberArraysReturnIff(c: Config, r: Codec.Register, reverse: bool)
    requires c.Valid() && c.depth >= 2 && Bare(c, r)
    ensures FullListsReturn(c, Number(r), reverse)
       <==> c.depth <= 65533 && c.depth <= Pow2(c.width) && !reverse
  {
    forall word: nat | word < Pow2(c.width)
      ensures Codec.Encode(r, Codec.Decode(r, word)) == word
    {
      Codec.CodeRoundTrip(r, word);
    }
    FullListsReturnIff(c, Number(r), reverse);
  }

  /** Neither do arrays of fixed-point numbers, such as the reversed one of the waveform generator, which
      can be written and never read. */
  lemma {:induction false} FixedPointArraysReturnIff(c: Config, f: Codec.Fixed, reverse: bool)
    requires c.Valid() && c.depth >= 2 && f.Valid() && f.raw.width == c.width
    requires f.decimals >= 1 && f.min == None && f.max == None
    ensures FullListsReturn(c, FixedPoint(f), reverse)
       <==> c.depth <= 65533 && c.depth <= Pow2(c.width) && !reverse
  {
    forall word: nat | word < Pow2(c.width)
      ensures f.FromFloat(f.ToFloat(word).value) == word
    {
      Codec.FixedCodeRoundTrip(f, word);
    }
    FullListsReturnIff(c, FixedPoint(f), reverse);
  }
}
