/** The software side of an array register: the server's access loops over one mapped word, and
    the array that Python writes and reads through them. */
module ArrayAccess {
  import opened Bits
  import opened Clocked
  import opened ArrayRegister
  import opened Sequences
  import opened Wrappers
  import Stream

  /** Bits of a bus word; the server shifts values in as many. */
  const BUS_BITS: nat := 32

  /** Idle cycles of the bus after the index write and after the access to the value. */
  datatype Gap = Gap(between: nat, after: nat)

  method Wait(dev: Register, n: nat)
    requires dev.c.Valid()
    modifies dev
    ensures dev.View() == Run(Edge(dev.c), old(dev.View()), Idle(n))
  {
    ghost var s := dev.View();
    for i := 0 to n
      invariant dev.View() == Run(Edge(dev.c), s, Idle(i))
    {
      dev.Tick(None);
      RunLast(Edge(dev.c), s, Idle(i + 1));
      assert Idle(i + 1)[..i] == Idle(i);
    }
  }

  ghost function Cells(dev: Register): seq<nat>
    requires dev.c.Valid()
    reads dev
  {
    Drained(dev.c, dev.View()).cells
  }

  /** What the write loop makes of the cells: each word, cut to the width of a cell, at the address
      of its index. */
  function Written(c: Config, words: seq<nat>, cells: seq<nat>): seq<nat>
    requires c.Valid()
    decreases |words|
  {
    if words == [] then cells
    else
      var n := |words| - 1;
      Write(Written(c, words[..n], cells), c.Address(n), Trunc(words[n], c.width))
  }

  function Fit(c: Config, words: seq<nat>): seq<nat> {
    seq(|words|, k requires 0 <= k < |words| => Trunc(words[k], c.width))
  }

  /** Up to the depth and 2^width words land in the first cells and leave the others alone. */
  lemma {:induction false} WrittenInPlace(c: Config, words: seq<nat>, cells: seq<nat>)
    requires c.Valid() && |cells| == c.depth && |words| <= c.depth && |words| <= Pow2(c.width)
    ensures Written(c, words, cells) == Fit(c, words) + cells[|words|..]
    decreases |words|
  {
    if words != [] {
      var n := |words| - 1;
      WrittenInPlace(c, words[..n], cells);
      AddressInRange(c, n);
    }
  }

  /** The bus word for a value writes the value, cut to the width of a cell, at the index. */
  lemma {:induction false} ValueWord(c: Config, p: Plain, v: nat, bits: nat)
    requires c.Valid() && c.width < bits
    ensures PlainWrite(c, p, Trunc(2 * v, bits)) == Plain(p.index, Write(p.cells, p.index, Trunc(v, c.width)))
  {
    assert c.width + 1 + (bits - c.width - 1) == bits;
    TruncTwice(2 * v, c.width + 1, bits - c.width - 1);
    TruncDouble(v, 0, c.width);
    TruncFits(Trunc(v, c.width), c.width);
  }

  /** After a bus write and any number of idle cycles the plain array has taken that word. */
  lemma {:induction false} AfterWord(c: Config, s: State, word: nat, n: nat)
    requires WellFormed(c, s)
    ensures var t := Run(Edge(c), Step(c, s, Some(word)), Idle(n));
            WellFormed(c, t) && Drained(c, t) == PlainWrite(c, Drained(c, s), word)
  {
    var a := Step(c, s, Some(word));
    StepDrains(c, s, Some(word));
    Refines(c, a, Idle(n));
    IdleKeepsPlain(c, Drained(c, a), n);
  }

  method WriteOne(dev: Register, i: nat, v: nat, gap: Gap)
    requires WellFormed(dev.c, dev.View()) && dev.c.width <= 31
    modifies dev
    ensures WellFormed(dev.c, dev.View())
    ensures Cells(dev) == Write(old(Cells(dev)), dev.c.Address(i), Trunc(v, dev.c.width))
  {
    IndexWord(dev.c, i);
    AfterWord(dev.c, dev.View(), 2 * i + 1, gap.between);
    dev.Tick(Some(2 * i + 1));
    Wait(dev, gap.between);
    var word := Trunc(2 * v, BUS_BITS);
    ValueWord(dev.c, Drained(dev.c, dev.View()), v, BUS_BITS);
    AfterWord(dev.c, dev.View(), word, gap.after);
    dev.Tick(Some(word));
    Wait(dev, gap.after);
  }

  /** The server's write: with an index for each of several words, but a single word as it is. */
  method WriteValues(dev: Register, values: array<nat>, len: nat, gaps: seq<Gap>)
    requires WellFormed(dev.c, dev.View()) && dev.c.width <= 31
    requires 1 <= values.Length && len <= values.Length && |gaps| == Max(len, 1)
    modifies dev
    ensures WellFormed(dev.c, dev.View())
    ensures len > 1 ==> Cells(dev) == Written(dev.c, values[..len], old(Cells(dev)))
    ensures len <= 1 ==> Drained(dev.c, dev.View()) == PlainWrite(dev.c, old(Drained(dev.c, dev.View())), values[0])
  {
    ghost var before, c := Cells(dev), dev.c;
    if len > 1 {
      for i := 0 to len
        invariant WellFormed(c, dev.View()) && Cells(dev) == Written(c, values[..i], before)
      {
        WriteOne(dev, i, values[i], gaps[i]);
        assert values[..i + 1][..i] == values[..i];
      }
    } else {
      AfterWord(c, dev.View(), values[0], gaps[0].after);
      dev.Tick(Some(values[0]));
      Wait(dev, gaps[0].after);
    }
  }

  /** What the read loop gets for the first n indices. */
  function Loaded(c: Config, n: nat, cells: seq<nat>): seq<nat>
    requires c.Valid()
  {
    seq(n, k requires 0 <= k < n => Read(cells, c.Address(k)))
  }

  method ReadOne(dev: Register, i: nat, gap: Gap) returns (word: nat)
    requires WellFormed(dev.c, dev.View()) && gap.between >= 4
    modifies dev
    ensures WellFormed(dev.c, dev.View()) && Cells(dev) == old(Cells(dev))
    ensures word == Read(old(Cells(dev)), dev.c.Address(i))
  {
    ReadBackGivesCell(dev.c, dev.View(), i, gap.between);
    dev.Tick(Some(2 * i + 1));
    Wait(dev, gap.between);
    word := dev.storage;
    Rests(dev, gap.after);
  }

  /** The server's read: set the index, wait, read, for each of several words. */
  method ReadValues(dev: Register, buffer: array<nat>, len: nat, gaps: seq<Gap>)
    requires WellFormed(dev.c, dev.View())
    requires 1 <= buffer.Length && len <= buffer.Length && |gaps| == Max(len, 1)
    requires forall k :: 0 <= k < len ==> gaps[k].between >= 4
    modifies dev, buffer
    ensures WellFormed(dev.c, dev.View()) && Cells(dev) == old(Cells(dev))
    ensures len > 1 ==> buffer[..len] == Loaded(dev.c, len, old(Cells(dev)))
    ensures len <= 1 ==> buffer[0] == old(dev.storage)
    ensures buffer[Max(len, 1)..] == old(buffer[Max(len, 1)..])
  {
    ghost var before, c := Cells(dev), dev.c;
    if len > 1 {
      for i := 0 to len
        invariant WellFormed(c, dev.View()) && Cells(dev) == before
        invariant forall k :: 0 <= k < i ==> buffer[k] == Read(before, c.Address(k))
        invariant buffer[len..] == old(buffer[len..])
      {
        buffer[i] := ReadOne(dev, i, gaps[i]);
      }
    } else {
      buffer[0] := dev.storage;
      Rests(dev, gaps[0].after);
    }
  }

  /** Idle cycles change nothing of what the register stands for. */
  method Rests(dev: Register, n: nat)
    requires WellFormed(dev.c, dev.View())
    modifies dev
    ensures WellFormed(dev.c, dev.View()) && Cells(dev) == old(Cells(dev))
  {
    Refines(dev.c, dev.View(), Idle(n));
    IdleKeepsPlain(dev.c, Drained(dev.c, dev.View()), n);
    Wait(dev, n);
  }

  // ---------------------------------------------------------------- lists of words

  /** The cells after a list was written to the array. */
  function Assigned(c: Config, list: seq<nat>, cells: seq<nat>): seq<nat>
    requires c.Valid()
  {
    Written(c, Clip(list, Stream.MAX_WRITE), cells)
  }

  /** The list that reading the array gives. */
  function Fetched(c: Config, cells: seq<nat>): (list: seq<nat>)
    requires c.Valid()
    ensures |list| == Min(c.depth, 65535)
  {
    Loaded(c, Min(c.depth, Stream.MAX_READ), cells)
  }

  /** Writing a list of any length. A single word goes out as it is; for an empty list the server sends
      the word that it still has in its buffer. */
  method Assign(dev: Register, list: seq<nat>, stale: nat, gaps: seq<Gap>)
    requires WellFormed(dev.c, dev.View()) && dev.c.width <= 31
    requires |gaps| == Max(Min(|list|, 65533), 1)
    modifies dev
    ensures WellFormed(dev.c, dev.View())
    ensures |list| >= 2 ==> Cells(dev) == Assigned(dev.c, list, old(Cells(dev)))
    ensures |list| < 2 ==> var word := if list == [] then stale else list[0];
                           Drained(dev.c, dev.View()) == PlainWrite(dev.c, old(Drained(dev.c, dev.View())), word)
  {
    var words := Clip(list, Stream.MAX_WRITE);
    var n := Max(|words|, 1);
    var buffer := new nat[n](k requires 0 <= k < n => if k < |words| then words[k] else stale);
    assert buffer[..|words|] == words;
    WriteValues(dev, buffer, |words|, gaps);
  }

  method Fetch(dev: Register, gaps: seq<Gap>) returns (list: seq<nat>)
    requires WellFormed(dev.c, dev.View())
    requires 2 <= dev.c.depth && |gaps| == Min(dev.c.depth, 65535)
    requires forall k :: 0 <= k < |gaps| ==> gaps[k].between >= 4
    modifies dev
    ensures WellFormed(dev.c, dev.View()) && Cells(dev) == old(Cells(dev))
    ensures list == Fetched(dev.c, Cells(dev))
  {
    var n := Min(dev.c.depth, Stream.MAX_READ);
    var buffer := new nat[n];
    ReadValues(dev, buffer, n, gaps);
    assert buffer[..] == buffer[..n];
    list := buffer[..];
  }

  ghost predicate Words(c: Config, list: seq<nat>) {
    forall k :: 0 <= k < |list| ==> list[k] < Pow2(c.width)
  }

  lemma {:induction false} FitsAlready(c: Config, list: seq<nat>)
    requires Words(c, list)
    ensures Fit(c, list) == list
  {
    forall k | 0 <= k < |list|
      ensures Trunc(list[k], c.width) == list[k]
    {
      TruncFits(list[k], c.width);
    }
  }

  lemma {:induction false} LoadedInPlace(c: Config, n: nat, cells: seq<nat>)
    requires c.Valid() && |cells| == c.depth <= Pow2(c.width) && n <= c.depth
    ensures Loaded(c, n, cells) == cells[..n]
  {
    forall k | 0 <= k < n
      ensures Loaded(c, n, cells)[k] == cells[k]
    {
      AddressInRange(c, k);
    }
  }

  /** A list that fits the array and its index lands in the first cells, each word cut to the width. */
  lemma {:induction false} AssignedInPlace(c: Config, list: seq<nat>, cells: seq<nat>)
    requires c.Valid() && |cells| == c.depth <= Pow2(c.width) && |list| <= c.depth && |list| <= 65533
    ensures Assigned(c, list, cells) == Fit(c, list) + cells[|list|..]
  {
    assert Clip(list, Stream.MAX_WRITE) == list;
    WrittenInPlace(c, list, cells);
  }

  /** Round trip: when the index can reach every cell, a list is read back, each word cut to the width of a
      cell, followed by the cells beyond it, which have not changed. */
  lemma {:induction false} RoundTrip(c: Config, list: seq<nat>, cells: seq<nat>)
    requires c.Valid() && |cells| == c.depth <= Pow2(c.width) && |list| <= c.depth && |list| <= 65533
    ensures var back := Fetched(c, Assigned(c, list, cells));
            && back == Clip(Fit(c, list) + cells[|list|..], 65535)
            && back[..|list|] == Fit(c, list)
            && (Words(c, list) ==> back[..|list|] == list)
  {
    AssignedInPlace(c, list, cells);
    LoadedInPlace(c, Min(c.depth, Stream.MAX_READ), Fit(c, list) + cells[|list|..]);
    if Words(c, list) {
      FitsAlready(c, list);
    }
  }

  /** End to end, over the clocked register: whatever was on its way in the register before, and however
      many idle cycles the accesses take (at least four before each read), a list that is written and
      then read comes back as RoundTrip says, and the cells beyond it are as they were. */
  method AssignAndFetch(dev: Register, list: seq<nat>, writeGaps: seq<Gap>, readGaps: seq<Gap>) returns (back: seq<nat>)
    requires WellFormed(dev.c, dev.View()) && dev.c.width <= 31 && dev.c.depth <= Pow2(dev.c.width)
    requires 2 <= |list| <= dev.c.depth && |list| <= 65533
    requires |writeGaps| == |list| && |readGaps| == Min(dev.c.depth, 65535)
    requires forall k :: 0 <= k < |readGaps| ==> readGaps[k].between >= 4
    modifies dev
    ensures WellFormed(dev.c, dev.View()) && Cells(dev) == Fit(dev.c, list) + old(Cells(dev))[|list|..]
    ensures back == Clip(Cells(dev), 65535)
    ensures Words(dev.c, list) ==> back[..|list|] == list
  {
    ghost var c, before := dev.c, Cells(dev);
    RoundTrip(c, list, before);
    AssignedInPlace(c, list, before);
    Assign(dev, list, 0, writeGaps);
    LoadedInPlace(c, Min(c.depth, Stream.MAX_READ), Cells(dev));
    back := Fetch(dev, readGaps);
  }

  /** Whatever is written, cells hold words of their width. */
  lemma {:induction false} WrittenWords(c: Config, words: seq<nat>, cells: seq<nat>)
    requires c.Valid() && Words(c, cells)
    ensures Words(c, Written(c, words, cells))
    decreases |words|
  {
    if words != [] {
      WrittenWords(c, words[..|words| - 1], cells);
    }
  }

  lemma {:induction false} FetchedWords(c: Config, list: seq<nat>, cells: seq<nat>)
    requires c.Valid() && Words(c, cells)
    ensures Words(c, Fetched(c, Assigned(c, list, cells)))
  {
    WrittenWords(c, Clip(list, Stream.MAX_WRITE), cells);
  }

  /** Every full list of words that fit is read back as it was. */
  ghost predicate FullListsReturn(c: Config)
    requires c.Valid()
  {
    forall list: seq<nat>, cells: seq<nat> :: Words(c, list) && Words(c, cells) && |list| == |cells| == c.depth ==>
      Fetched(c, Assigned(c, list, cells)) == list
  }

  /** The exact limits: full lists come back if and only if there are at most 65533 cells and the
      index, which shares the bus word with the value, can reach all of them. */
  lemma {:induction false} FullListsReturnIff(c: Config)
    requires c.Valid() && c.width >= 1 && c.depth >= 2
    ensures FullListsReturn(c) <==> c.depth <= 65533 && c.depth <= Pow2(c.width)
  {
    if c.depth <= Stream.MAX_WRITE && c.depth <= Pow2(c.width) {
      forall list: seq<nat>, cells: seq<nat> | Words(c, list) && Words(c, cells) && |list| == |cells| == c.depth
        ensures Fetched(c, Assigned(c, list, cells)) == list
      {
        RoundTrip(c, list, cells);
      }
    } else if c.depth > Pow2(c.width) {
      Unreachable(c);
    } else {
      TooManyWords(c);
    }
  }

  /** Beyond 2^width cells, the cell with that index is read where cell 0 is. */
  lemma {:induction false} Unreachable(c: Config)
    requires c.Valid() && c.width >= 1 && c.depth > Pow2(c.width)
    ensures !FullListsReturn(c)
  {
    var n := Pow2(c.width);
    var cells := Rep(0, c.depth);
    var list := cells[n := 1];
    assert Words(c, list) && Words(c, cells);
    var back := Fetched(c, Assigned(c, list, cells));
    AddressInRange(c, 0);
    AddressInRange(c, n);
    ModUnique(n, n, 1, 0);
    assert |back| == c.depth ==> back[0] == back[n];
    assert list[0] != list[n];
  }

  /** Beyond 65533 words the client drops the rest of the list. */
  lemma {:induction false} TooManyWords(c: Config)
    requires c.Valid() && c.width >= 1 && 65533 < c.depth <= Pow2(c.width)
    ensures !FullListsReturn(c)
  {
    var cells, list := Rep(0, c.depth), Rep(1, c.depth);
    assert Words(c, list) && Words(c, cells);
    var after := Assigned(c, list, cells);
    WrittenInPlace(c, Clip(list, Stream.MAX_WRITE), cells);
    assert after[Stream.MAX_WRITE] == 0;
    LoadedInPlace(c, Min(c.depth, Stream.MAX_READ), after);
    assert Fetched(c, after)[Stream.MAX_WRITE] == 0;
  }

  /** A list of a single word skips the index protocol: the word itself acts as an index or as a
      shifted value. It arrives in cell 0 exactly when that cell held it before and the word does not
      address the cell, or when it is zero. */
  lemma {:induction false} SingleWord(c: Config, p: Plain, v: nat)
    requires c.Valid() && |p.cells| == c.depth && v < Pow2(c.width)
    ensures PlainWrite(c, p, v).cells[0] == v <==> if Odd(v) || p.index != 0 then p.cells[0] == v else v == 0
  {
    TruncFits(v, c.width + 1);
    TruncFits(v / 2, c.width);
  }
}
