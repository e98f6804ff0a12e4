/** A register of more than one word: a memory behind a single bus word, whose lowest bit selects
    between setting the index and writing the value at it, and into which the indexed value is
    copied back a few cycles after the index was set. */
module ArrayRegister {
  import opened Bits
  import opened Clocked
  import opened Wrappers

  datatype Config = Config(width: nat, depth: nat)
  {
    predicate Valid() { depth >= 1 }

    /** Width of the memory's address port. */
    function AddressWidth(): nat
      requires Valid()
    {
      Length(depth - 1)
    }

    /** The address an index leads to: it has to pass through the bus word and the address port. */
    function Address(index: nat): nat
      requires Valid()
    {
      Trunc(Trunc(index, width), AddressWidth())
    }
  }

  /** storage, re: the bus register and its one-cycle write strobe; adr, datW, we: the memory port;
      latched: the address the port reads from; pipe0, pipe1, csrWe: the copy-back pipeline. */
  datatype State = State(storage: nat, re: bool, adr: nat, datW: nat, we: bool,
                         latched: nat, pipe0: bool, pipe1: bool, csrWe: bool, mem: seq<nat>)

  function Odd(word: nat): bool { word % 2 == 1 }

  /** What the memory port shows for an address; nothing is there beyond the depth. */
  function Read(mem: seq<nat>, adr: nat): nat {
    if adr < |mem| then mem[adr] else 0
  }

  function Write(mem: seq<nat>, adr: nat, v: nat): seq<nat> {
    if adr < |mem| then mem[adr := v] else mem
  }

  /** One clock cycle, in which the bus writes a word or does not. */
  function Step(c: Config, s: State, bus: Option<nat>): State
    requires c.Valid()
  {
    var updateIndex := s.re && Odd(s.storage);
    State(if bus.Some? then Trunc(bus.value, c.width + 1)
          else if s.csrWe then Trunc(Read(s.mem, s.latched), c.width + 1)
          else s.storage,
          bus.Some?,
          if updateIndex then Trunc(s.storage / 2, c.AddressWidth()) else s.adr,
          Trunc(s.storage / 2, c.width),
          s.re && !Odd(s.storage),
          s.adr,
          updateIndex, s.pipe0, s.pipe1,
          if s.we then Write(s.mem, s.adr, s.datW) else s.mem)
  }

  function Edge(c: Config): (State, Option<nat>) -> State
    requires c.Valid()
  {
    (s, bus) => Step(c, s, bus)
  }

  function PowerUp(c: Config, init: seq<nat>): State {
    State(0, false, 0, 0, false, 0, false, false, false, init)
  }

  class Register {
    const c: Config
    var storage: nat
    var re: bool
    var adr: nat
    var datW: nat
    var we: bool
    var latched: nat
    var wePipeline: (bool, bool)
    var csrWe: bool
    var mem: seq<nat>

    ghost function View(): State
      reads this
    {
      State(storage, re, adr, datW, we, latched, wePipeline.0, wePipeline.1, csrWe, mem)
    }

    constructor (c: Config, init: seq<nat>)
      ensures this.c == c && View() == PowerUp(c, init)
    {
      this.c := c;
      storage, re, adr, datW, we, latched := 0, false, 0, 0, false, 0;
      wePipeline, csrWe, mem := (false, false), false, init;
    }

    method Tick(bus: Option<nat>)
      requires c.Valid()
      modifies this
      ensures View() == Step(c, old(View()), bus)
    {
      var word, strobe, port, datR := storage, re, adr, Read(mem, latched);
      var updateIndex, updateValue := strobe && Odd(word), strobe && !Odd(word);
      if we {
        mem := Write(mem, port, datW);
      }
      latched := port;
      if updateIndex {
        adr := Trunc(word / 2, c.AddressWidth());
      }
      if csrWe {
        storage := Trunc(datR, c.width + 1);
      }
      if bus.Some? {
        storage := Trunc(bus.value, c.width + 1);
      }
      re := bus.Some?;
      csrWe := wePipeline.1;
      wePipeline := (updateIndex, wePipeline.0);
      datW := Trunc(word / 2, c.width);
      we := updateValue;
    }
  }

  // ---------------------------------------------------------------- the plain array behind it

  /** What the software thinks it talks to: an index and the cells. */
  datatype Plain = Plain(index: nat, cells: seq<nat>)

  /** An odd word sets the index, an even word stores its upper bits at the index. */
  function PlainWrite(c: Config, p: Plain, word: nat): Plain
    requires c.Valid()
  {
    var w := Trunc(word, c.width + 1);
    if Odd(w) then p.(index := Trunc(w / 2, c.AddressWidth()))
    else p.(cells := Write(p.cells, p.index, Trunc(w / 2, c.width)))
  }

  function PlainRun(c: Config, p: Plain, ins: seq<Option<nat>>): Plain
    requires c.Valid()
    decreases |ins|
  {
    if ins == [] then p
    else PlainRun(c, if ins[0].Some? then PlainWrite(c, p, ins[0].value) else p, ins[1..])
  }

  /** The plain array a state stands for: what its pipeline will have made of memory and index. */
  function Drained(c: Config, s: State): Plain
    requires c.Valid()
  {
    var p := Plain(s.adr, if s.we then Write(s.mem, s.adr, s.datW) else s.mem);
    if s.re then PlainWrite(c, p, s.storage) else p
  }

  ghost predicate WellFormed(c: Config, s: State) {
    && c.Valid() && s.storage < Pow2(c.width + 1) && s.datW < Pow2(c.width)
    && |s.mem| == c.depth && forall k :: 0 <= k < c.depth ==> s.mem[k] < Pow2(c.width)
  }

  lemma {:induction false} StepDrains(c: Config, s: State, bus: Option<nat>)
    requires WellFormed(c, s)
    ensures WellFormed(c, Step(c, s, bus))
    ensures Drained(c, Step(c, s, bus))
         == if bus.Some? then PlainWrite(c, Drained(c, s), bus.value) else Drained(c, s)
  {
    TruncFits(s.storage, c.width + 1);
    if bus.Some? {
      TruncFits(Trunc(bus.value, c.width + 1), c.width + 1);
    }
  }

  /** Refinement: for every sequence of bus writes, back to back or not, odd or even, in range or
      not, draining the pipeline gives the plain array. There is no hazard. */
  lemma {:induction false} Refines(c: Config, s: State, ins: seq<Option<nat>>)
    requires WellFormed(c, s)
    ensures WellFormed(c, Run(Edge(c), s, ins))
    ensures Drained(c, Run(Edge(c), s, ins)) == PlainRun(c, Drained(c, s), ins)
    decreases |ins|
  {
    if ins != [] {
      StepDrains(c, s, ins[0]);
      Refines(c, Step(c, s, ins[0]), ins[1..]);
    }
  }

  /** Two cycles without a bus write complete everything: memory and index are the plain array's. */
  lemma {:induction false} TwoCyclesDrain(c: Config, s: State)
    requires WellFormed(c, s)
    ensures var t := Step(c, Step(c, s, None), None);
            t.mem == Drained(c, s).cells && t.adr == Drained(c, s).index
  {
    TruncFits(s.storage, c.width + 1);
  }

  // ---------------------------------------------------------------- reading back

  function Idle(n: nat): seq<Option<nat>> {
    Rep(None, n)
  }

  lemma {:induction false} IdleStep(c: Config, s: State, n: nat)
    requires c.Valid() && n >= 1
    ensures Run(Edge(c), s, Idle(n)) == Run(Edge(c), Step(c, s, None), Idle(n - 1))
  {
    assert Idle(n)[1..] == Idle(n - 1);
  }

  lemma {:induction false} IdleKeepsPlain(c: Config, p: Plain, n: nat)
    requires c.Valid()
    ensures PlainRun(c, p, Idle(n)) == p
    decreases n
  {
    if n > 0 {
      assert Idle(n)[1..] == Idle(n - 1);
      IdleKeepsPlain(c, p, n - 1);
    }
  }

  /** Nothing on its way: the register only changes when the bus writes. */
  ghost predicate Quiet(s: State) {
    !s.re && !s.we && !s.pipe0 && !s.pipe1 && !s.csrWe
  }

  lemma {:induction false} QuietStays(c: Config, s: State, n: nat)
    requires WellFormed(c, s) && Quiet(s)
    ensures var t := Run(Edge(c), s, Idle(n)); Quiet(t) && t.storage == s.storage && t.mem == s.mem
    decreases n
  {
    if n > 0 {
      IdleStep(c, s, n);
      QuietStays(c, Step(c, s, None), n - 1);
    }
  }

  /** The state in which the bus reads, n idle cycles after it wrote an index. */
  function ReadBack(c: Config, s: State, index: nat, n: nat): State
    requires c.Valid()
  {
    Run(Edge(c), Step(c, s, Some(2 * index + 1)), Idle(n))
  }

  /** An odd word sets the index. */
  lemma {:induction false} OddSetsIndex(c: Config, p: Plain, v: nat)
    requires c.Valid()
    ensures PlainWrite(c, p, 2 * v + 1) == Plain(c.Address(v), p.cells)
  {
    IndexWord(c, v);
  }

  /** An even word writes its upper bits at the index. */
  lemma {:induction false} EvenWrites(c: Config, p: Plain, v: nat)
    requires c.Valid() && v < Pow2(c.width) && p.index < |p.cells|
    ensures PlainWrite(c, p, 2 * v) == Plain(p.index, p.cells[p.index := v])
  {
    TruncDouble(v, 0, c.width);
    TruncFits(v, c.width);
    TruncFits(Trunc(2 * v, c.width + 1) / 2, c.width);
  }

  lemma {:induction false} IndexWord(c: Config, index: nat)
    requires c.Valid()
    ensures Trunc(2 * index + 1, c.width + 1) == 2 * Trunc(index, c.width) + 1
    ensures Odd(Trunc(2 * index + 1, c.width + 1))
    ensures Trunc(2 * index + 1, c.width + 1) / 2 == Trunc(index, c.width)
  {
    TruncDouble(index, 1, c.width);
  }

  /** An index within the depth and within 2^width leads to its own cell, and an index within the
      depth always to some cell. */
  lemma {:induction false} AddressInRange(c: Config, index: nat)
    requires c.Valid() && index < c.depth
    ensures c.Address(index) < c.depth
    ensures index < Pow2(c.width) ==> c.Address(index) == index
    ensures c.Address(index) == Trunc(index, c.width)
  {
    var t := Trunc(index, c.width);
    ModAtMost(index, Pow2(c.width));
    LengthHolds(c.depth - 1);
    TruncFits(t, c.AddressWidth());
    if index < Pow2(c.width) {
      TruncFits(index, c.width);
    }
  }

  /** For every index: its low bits, as many as the width, and of these as many as the least power of two
      that the depth does not exceed. */
  lemma {:induction false} AddressOf(c: Config, index: nat, bits: nat)
    requires c.Valid() && bits >= 1 && c.depth <= Pow2(bits) && (bits >= 2 ==> Pow2(bits - 1) < c.depth)
    ensures c.Address(index) == (index % Pow2(c.width)) % Pow2(bits)
  {
    LengthIs(c.depth - 1, bits);
  }

  /** The pipeline, cycle by cycle: four idle cycles after an index write it is empty again and the
      indexed cell is in the register. */
  lemma {:induction false} FourCycles(c: Config, s: State, index: nat)
    requires WellFormed(c, s)
    ensures var t := ReadBack(c, s, index, 4);
            && Quiet(t) && t.mem == Drained(c, s).cells
            && t.storage == Read(Drained(c, s).cells, c.Address(index))
  {
    IndexWord(c, index);
    TruncFits(s.storage, c.width + 1);
    var a := Step(c, s, Some(2 * index + 1));
    var b := Step(c, a, None);
    var d := Step(c, b, None);
    var e := Step(c, d, None);
    var f := Step(c, e, None);
    IdleStep(c, a, 4); IdleStep(c, b, 3); IdleStep(c, d, 2); IdleStep(c, e, 1);
    assert Run(Edge(c), f, Idle(0)) == f;
    assert b.mem == Drained(c, s).cells && b.adr == c.Address(index);
    assert e.latched == c.Address(index) && e.csrWe;
    StepDrains(c, s, Some(2 * index + 1)); StepDrains(c, a, None);
    TruncFits(Read(b.mem, c.Address(index)), c.width + 1);
  }

  /** Reading four or more idle cycles after an index write gives the cell of the plain array, and
      leaves the plain array's cells as they are. */
  lemma {:induction false} ReadBackGivesCell(c: Config, s: State, index: nat, n: nat)
    requires WellFormed(c, s) && n >= 4
    ensures var t := ReadBack(c, s, index, n);
            && WellFormed(c, t) && t.storage == Read(Drained(c, s).cells, c.Address(index))
            && Drained(c, t) == Plain(c.Address(index), Drained(c, s).cells)
  {
    var a := Step(c, s, Some(2 * index + 1));
    var t := ReadBack(c, s, index, 4);
    FourCycles(c, s, index);
    IndexWord(c, index);
    StepDrains(c, s, Some(2 * index + 1));
    Refines(c, a, Idle(4));
    QuietStays(c, t, n - 4);
    assert Idle(n) == Idle(4) + Idle(n - 4);
    RunSplit(Edge(c), a, Idle(4), Idle(n - 4));
    Refines(c, a, Idle(n));
    IdleKeepsPlain(c, Drained(c, a), n);
  }

  /** Before anything is written, an array register reads as the list that its memory starts with. */
  lemma {:induction false} ReadsInitial(c: Config, init: seq<nat>, index: nat, n: nat)
    requires c.Valid() && |init| == c.depth && index < c.depth && index < Pow2(c.width) && n >= 4
    requires forall k :: 0 <= k < c.depth ==> init[k] < Pow2(c.width)
    ensures WellFormed(c, PowerUp(c, init)) && Drained(c, PowerUp(c, init)).cells == init
    ensures ReadBack(c, PowerUp(c, init), index, n).storage == init[index]
  {
    ReadBackGivesCell(c, PowerUp(c, init), index, n);
    AddressInRange(c, index);
  }

  /** Reading earlier, on a register at rest, gives the index word itself. */
  lemma {:induction false} TooEarly(c: Config, s: State, index: nat, n: nat)
    requires WellFormed(c, s) && Quiet(s) && n < 4
    ensures ReadBack(c, s, index, n).storage == Trunc(2 * index + 1, c.width + 1)
  {
    IndexWord(c, index);
    var a := Step(c, s, Some(2 * index + 1));
    var b := Step(c, a, None);
    var d := Step(c, b, None);
    if n >= 1 {
      IdleStep(c, a, n);
      if n >= 2 {
        IdleStep(c, b, n - 1);
        if n >= 3 {
          IdleStep(c, d, n - 2);
        }
      }
    }
  }
}
