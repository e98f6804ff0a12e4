/** An array register of an FPGA behind its bus address, and the memory that the FPGA writes by DMA, as the
    server accesses them. */
module Fpga {
  import opened Bits
  import opened Stream
  import opened Wrappers
  import opened ArrayAccess
  import opened ArrayRegister
  import Dma

  /** What the software sees of an array register: the plain array, and the word on the bus. */
  datatype Seen = Seen(plain: Plain, word: nat)

  class Board {
    const address: nat
    const dev: Register
    const ram: Dma.Memory

    ghost predicate Valid()
      reads dev
    {
      WellFormed(dev.c, dev.View()) && dev.c.width <= 31 && forall a :: a in ram ==> ram[a] < 0x1_0000_0000
    }

    ghost function View(): Seen
      requires dev.c.Valid()
      reads dev
    {
      Seen(Drained(dev.c, dev.View()), dev.storage)
    }

    constructor (address: nat, dev: Register, ram: Dma.Memory)
      ensures this.address == address && this.dev == dev && this.ram == ram
    {
      this.address, this.dev, this.ram := address, dev, ram;
    }

    /** Reads into a buffer of at least one word. */
    method ReadRegister(n: nat) returns (words: seq<nat>)
      requires Valid()
      modifies dev
      ensures Valid() && View().plain.cells == old(View().plain.cells)
      ensures |words| == Max(n, 1) && Stream.Words(words)
      ensures words == if n > 1 then Loaded(dev.c, n, old(View().plain.cells)) else [old(View().word)]
    {
      var gaps := Timing(Max(n, 1));
      var buffer := new nat[Max(n, 1)];
      SmallWords(dev.c, dev.View(), n);
      ReadValues(dev, buffer, n, gaps);
      words := buffer[..];
      assert buffer[..] == buffer[..Max(n, 1)];
    }

    method WriteRegister(values: seq<nat>, stale: nat)
      requires Valid()
      modifies dev
      ensures Valid() && WrittenTo(dev.c, values, stale, old(View().plain), View().plain)
    {
      var n := |values|;
      var gaps := Timing(Max(n, 1));
      var buffer := new nat[Max(n, 1)](k requires 0 <= k < Max(n, 1) => if k < n then values[k] else stale);
      assert buffer[..n] == values;
      WriteValues(dev, buffer, n, gaps);
    }

    /** Does what a request asks for. */
    method Access(r: Request, stale: nat) returns (served: seq<nat>)
      requires Valid() && Mapped(this, r)
      modifies dev
      ensures Valid() && Stream.Words(served) && Did(this, r, old(View()), View(), served)
    {
      served := [];
      match r {
        case Read(_, n) =>
          var words := ReadRegister(n);
          served := words[..n];
        case ReadRam(offset, n) =>
          served := Dma.Served(ram, offset, n);
          forall k | 0 <= k < n
            ensures served[k] == Dma.Word(ram, 0xA00_0000 + offset % 0x200_0000 + 4 * k)
          {
            Dma.ServedAt(ram, offset, n, k);
          }
        case Write(_, values) =>
          WriteRegister(values, stale);
        case Close =>
        case Unknown =>
      }
    }
  }

  /** The idle cycles of n accesses: whatever the bus takes, but at least four before each read. */
  method Timing(n: nat) returns (gaps: seq<Gap>)
    ensures |gaps| == n && forall k :: 0 <= k < n ==> gaps[k].between >= 4
  {
    gaps := [];
    for i := 0 to n
      invariant |gaps| == i && forall k :: 0 <= k < i ==> gaps[k].between >= 4
    {
      var between: nat, after: nat := *, *;
      gaps := gaps + [Gap(4 + between, after)];
    }
  }

  /** All words that such a register can show have 32 bits. */
  lemma {:induction false} SmallWords(c: Config, s: State, n: nat)
    requires WellFormed(c, s) && c.width <= 31
    ensures s.storage < 0x1_0000_0000
    ensures Stream.Words(Loaded(c, n, Drained(c, s).cells))
  {
    Pow2Monotone(c.width, 32);
    Pow2Monotone(c.width + 1, 32);
    WordSize();
    TwoCyclesDrain(c, s);
    StepDrains(c, s, None);
    StepDrains(c, Step(c, s, None), None);
  }

  lemma {:induction false} WordSize()
    ensures Pow2(32) == 0x1_0000_0000
  {
    assert Pow2(8) == 256;
    Pow2Add(8, 8);
    Pow2Add(16, 16);
  }

  /** Requests name the address of the register. */
  predicate Mapped(board: Board, r: Request) {
    r.Read? || r.Write? ==> r.address == board.address
  }

  /** What writing does: with an index for each of several words, a single word as it is, and for none
      the word left over in the server's buffer. */
  ghost predicate WrittenTo(c: Config, values: seq<nat>, stale: nat, p: Plain, q: Plain)
    requires c.Valid()
  {
    if |values| > 1 then q.cells == Written(c, values, p.cells)
    else q == PlainWrite(c, p, if values == [] then stale else values[0])
  }

  /** What a request makes of the register, and the words served for it: the cells, or the word on the bus if
      it asks for a single one. */
  ghost predicate Did(board: Board, r: Request, p: Seen, q: Seen, served: seq<nat>) {
    board.dev.c.Valid() &&
    match r
    case Read(_, n) =>
      && q.plain.cells == p.plain.cells
      && served == if n > 1 then Loaded(board.dev.c, n, p.plain.cells) else if n == 1 then [p.word] else []
    case Write(_, values) =>
      served == [] && exists stale: nat :: WrittenTo(board.dev.c, values, stale, p.plain, q.plain)
    case ReadRam(offset, n) =>
      && q == p && |served| == n
      && forall k :: 0 <= k < n ==> served[k] == Dma.Word(board.ram, 0xA00_0000 + offset % 0x200_0000 + 4 * k)
    case _ => q == p && served == []
  }
}
