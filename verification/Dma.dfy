/** The direct memory path of the data acquisition: address generation, the AXI writer, and how
    Python finds each sample again in the words it reads from memory. */
module Dma {
  import opened Bits
  import opened Clocked
  import opened Wrappers
  import Codec

  const RAM_START: nat := 0xA000000
  const RAM_SIZE: nat := 0x2000000
  const BLOCK: nat := 0x800000
  const POSITIONS: nat := 0x100000

  // ---------------------------------------------------------------- bitwise operations

  function And(a: nat, b: nat): nat {
    if a == 0 then 0 else 2 * And(a / 2, b / 2) + if a % 2 == 1 && b % 2 == 1 then 1 else 0
  }

  function Or(a: nat, b: nat): nat {
    if a == 0 then b else 2 * Or(a / 2, b / 2) + if a % 2 == 1 || b % 2 == 1 then 1 else 0
  }

  /** One more bit at the bottom of a mask. */
  lemma {:induction false} AndStep(m: nat, x: nat)
    requires m > 0 && And(m - 1, x / 2) == (x / 2) % m
    ensures And(2 * m - 1, x) == x % (2 * m)
  {
    HalfModulo(x, m, 2 * m);
    assert (2 * m - 1) / 2 == m - 1 && (2 * m - 1) % 2 == 1;
  }

  lemma {:induction false} AndMask(n: nat, x: nat)
    ensures And(Pow2(n) - 1, x) == x % Pow2(n)
  {
    if n > 0 {
      AndMask(n - 1, x / 2);
      AndStep(Pow2(n - 1), x);
    } else {
      ModUnique(x, 1, x, 0);
    }
  }

  lemma {:induction false} HalfModulo(x: nat, m: nat, p: nat)
    requires m > 0 && p == 2 * m
    ensures x % p == 2 * ((x / 2) % m) + x % 2
  {
    var q, r := (x / 2) / m, (x / 2) % m;
    assert x / 2 == q * m + r;
    assert q * p == 2 * (q * m);
    ModUnique(x, p, q, 2 * r + x % 2);
  }

  function Shift(a: nat, n: nat): nat {
    if n == 0 then a else 2 * Shift(a, n - 1)
  }

  lemma {:induction false} TwiceProduct(a: nat, m: nat)
    ensures a * (2 * m) == 2 * (a * m)
  {
  }

  lemma {:induction false} ShiftIsProduct(a: nat, n: nat)
    ensures Shift(a, n) == a * Pow2(n)
  {
    if n > 0 {
      ShiftIsProduct(a, n - 1);
      TwiceProduct(a, Pow2(n - 1));
    }
  }

  /** The bits from position n on are combined among themselves, and so are those below. */
  lemma {:induction false} OrSplit(n: nat, a: nat, x: nat, b: nat, y: nat)
    requires x < Pow2(n) && y < Pow2(n)
    ensures Or(x, y) < Pow2(n)
    ensures Or(Shift(a, n) + x, Shift(b, n) + y) == Shift(Or(a, b), n) + Or(x, y)
    decreases n
  {
    if n > 0 {
      OrSplit(n - 1, a, x / 2, b, y / 2);
      OrStep(x, y);
      ShiftHalf(a, n, x);
      ShiftHalf(b, n, y);
      OrUp(Shift(a, n) + x, Shift(b, n) + y, x, y, Shift(Or(a, b), n - 1));
    }
  }

  lemma {:induction false} ShiftHalf(a: nat, n: nat, x: nat)
    requires n > 0
    ensures (Shift(a, n) + x) / 2 == Shift(a, n - 1) + x / 2 && (Shift(a, n) + x) % 2 == x % 2
  {
  }

  lemma {:induction false} OrUp(u: nat, v: nat, x: nat, y: nat, high: nat)
    requires u % 2 == x % 2 && v % 2 == y % 2 && Or(u / 2, v / 2) == high + Or(x / 2, y / 2)
    ensures Or(u, v) == 2 * high + Or(x, y)
  {
    OrStep(u, v);
    OrStep(x, y);
  }

  lemma {:induction false} OrStep(a: nat, b: nat)
    ensures Or(a, b) == 2 * Or(a / 2, b / 2) + if a % 2 == 1 || b % 2 == 1 then 1 else 0
  {
  }

  // ---------------------------------------------------------------- addresses

  /** The write address for a count: the count in units of eight bytes, cut to the size of the
      memory region, on top of the start of the block of the AXI port. */
  function Address(port: nat, count: nat): nat {
    Or(RAM_START + port * BLOCK, And(RAM_SIZE - 1, 8 * count))
  }

  /** Where the address lies: in a block whose number is the port's, with bits 20 and 21 of the
      count on top, at the remaining bits of the count. */
  lemma {:induction false} AddressSplit(port: nat, count: nat)
    requires port < 4
    ensures Address(port, count) == Or(20 + port, (count / POSITIONS) % 4) * BLOCK + 8 * (count % POSITIONS)
  {
    var q, y := (count / POSITIONS) % 4, 8 * (count % POSITIONS);
    RegionSizes();
    AndMask(25, 8 * count);
    Remainder(count);
    ShiftIsProduct(20 + port, 23);
    ShiftIsProduct(q, 23);
    ShiftIsProduct(Or(20 + port, q), 23);
    OrSplit(23, 20 + port, 0, q, y);
  }

  lemma {:induction false} RegionSizes()
    ensures Pow2(20) == POSITIONS && Pow2(23) == BLOCK && Pow2(25) == RAM_SIZE
  {
    assert Pow2(5) == 32;
    Pow2Add(5, 5); Pow2Add(10, 10); Pow2Add(20, 3); Pow2Add(20, 5);
  }

  lemma {:induction false} Remainder(count: nat)
    ensures (8 * count) % RAM_SIZE == ((count / POSITIONS) % 4) * BLOCK + 8 * (count % POSITIONS)
  {
  }

  /** No count, however large, leads out of the memory region reserved for the FPGA. */
  lemma {:induction false} AddressInRegion(port: nat, count: nat)
    requires port < 4
    ensures RAM_START <= Address(port, count) < RAM_START + RAM_SIZE
  {
    AddressSplit(port, count);
    BlockNumbers(port, (count / POSITIONS) % 4);
  }

  lemma {:induction false} BlockNumbers(port: nat, q: nat)
    requires port < 4 && q < 4
    ensures 20 <= Or(20 + port, q) <= 23
    ensures Or(20 + port, 0) == 20 + port
    ensures Or(20 + port, q) == 20 + port <==> Or(port, q) == port
  {
    assert Pow2(2) == 4 && Shift(5, 2) == 20 && Or(5, 0) == 5;
    OrSplit(2, 5, port, 0, q);
    assert Or(port, 0) == port by {
      OrZero(port);
    }
    OrZero(20 + port);
  }

  lemma {:induction false} OrZero(a: nat)
    ensures Or(a, 0) == a
  {
    if a > 0 {
      OrZero(a / 2);
    }
  }

  /** For counts below 2^20 the address is the count-th pair of words of the port's own block. */
  lemma {:induction false} AddressOfPosition(port: nat, count: nat)
    requires port < 4 && count < POSITIONS
    ensures Address(port, count) == RAM_START + port * BLOCK + 8 * count
  {
    assert count / POSITIONS == 0 && count % POSITIONS == count;
    AddressSplit(port, count);
    BlockNumbers(port, 0);
    assert Address(port, count) == (20 + port) * BLOCK + 8 * count;
  }

  /** The block that a port's counts lead to, by their bits 20 and 21. */
  function BlockOf(port: nat, q: nat): nat {
    if q == 0 || q == port then port else if port == 0 then q else 3
  }

  lemma {:induction false} OrTable(port: nat, q: nat)
    requires port < 4 && q < 4
    ensures Or(port, q) == BlockOf(port, q)
  {
    OrStep(port, q);
    OrStep(port / 2, q / 2);
    assert port / 2 / 2 == 0 && q / 2 / 2 == 0;
  }

  /** Every address in numbers. */
  lemma {:induction false} AddressIs(port: nat, count: nat)
    requires port < 4
    ensures Address(port, count)
         == 0xA00_0000 + BlockOf(port, (count / 0x10_0000) % 4) * 0x80_0000 + 8 * (count % 0x10_0000)
  {
    var q := (count / POSITIONS) % 4;
    AddressSplit(port, count);
    assert Pow2(2) == 4 && Shift(5, 2) == 20 && Or(5, 0) == 5;
    OrSplit(2, 5, port, 0, q);
    OrTable(port, q);
  }

  /** Exactly which counts stay in the port's own block: those whose bits 20 and 21 are zero or those of the
      port number. Only port 3 keeps all counts to itself. */
  lemma {:induction false} OwnBlockIff(port: nat, count: nat)
    requires port < 4
    ensures 0xA00_0000 + port * 0x80_0000 <= Address(port, count) < 0xA00_0000 + (port + 1) * 0x80_0000
       <==> (count / 0x10_0000) % 4 == 0 || (count / 0x10_0000) % 4 == port || port == 3
  {
    AddressIs(port, count);
  }

  // ---------------------------------------------------------------- the writer

  /** Memory by the byte address of its 32-bit words. */
  type Memory = map<nat, nat>

  function Word(mem: Memory, address: nat): nat {
    if address in mem then mem[address] else 0
  }

  /** A 64-bit write of a sign-extended sample, low word first. */
  function WritePair(mem: Memory, address: nat, value: int): Memory {
    var bits := Trunc(value, 64);
    mem[address := Trunc(bits, 32)][address + 4 := bits / Pow2(32)]
  }

  /** Address register, valid bits, and what has reached the memory. */
  datatype State = State(address: nat, awValid: bool, wValid: bool, mem: Memory)

  /** count, we: from the burst generator; value: the reduced sample; ready: both AXI channels. */
  datatype Input = Input(count: nat, we: bool, value: int, ready: bool)

  function Step(port: nat, s: State, i: Input): State {
    State(Address(port, i.count), i.we, i.we,
          if s.awValid && s.wValid && i.ready then WritePair(s.mem, s.address, i.value) else s.mem)
  }

  function Edge(port: nat): (State, Input) -> State {
    (s, i) => Step(port, s, i)
  }

  class Writer {
    const port: nat
    var address: nat
    var awValid: bool
    var wValid: bool

    constructor (port: nat)
      ensures this.port == port && address == 0 && !awValid && !wValid
    {
      this.port := port;
      address, awValid, wValid := 0, false, false;
    }

    /** One cycle; mem is the memory behind the AXI port, written when a valid pair is accepted. */
    method Tick(i: Input, mem: Memory) returns (mem': Memory)
      modifies this
      ensures State(address, awValid, wValid, mem') == Step(port, old(State(address, awValid, wValid, mem)), i)
    {
      mem' := mem;
      if awValid && wValid && i.ready {
        mem' := WritePair(mem, address, i.value);
      }
      address := Address(port, i.count);
      if i.we {
        awValid := true;
      } else if i.ready {
        awValid := false;
      } else {
        awValid := false;
      }
      if i.we {
        wValid := true;
      } else if i.ready {
        wValid := false;
      } else {
        wValid := false;
      }
    }
  }

  // ---------------------------------------------------------------- the array in Python

  /** The words that the server sends for an offset into the region and a number of words. */
  function Served(mem: Memory, offset: nat, words: nat): seq<nat> {
    var base := RAM_START + And(RAM_SIZE - 1, offset);
    seq(words, k requires 0 <= k < words => Word(mem, base + 4 * k))
  }

  /** For every offset and length: the words from that offset on, which is taken modulo the size of the
      region. */
  lemma {:induction false} ServedAt(mem: Memory, offset: nat, words: nat, k: nat)
    requires k < words
    ensures |Served(mem, offset, words)| == words
    ensures Served(mem, offset, words)[k] == Word(mem, 0xA00_0000 + offset % 0x200_0000 + 4 * k)
  {
    RegionSizes();
    AndMask(25, offset);
  }

  function EverySecond(words: seq<nat>): seq<nat> {
    seq((|words| + 1) / 2, k requires 0 <= k < (|words| + 1) / 2 => words[2 * k])
  }

  /** The array of a port, before its words are decoded. */
  function Fetched(mem: Memory, port: nat, depth: nat): (words: seq<nat>)
    ensures |words| == depth
  {
    EverySecond(Served(mem, port * BLOCK, 2 * depth))
  }

  predicate Sampled(r: Codec.Register, v: int) {
    if r.signed then FitsSigned(v, 32) else 0 <= v < Pow2(32)
  }

  predicate FromRam(r: Codec.Register) {
    r.Valid() && r.ram && r.offset == 0
  }

  lemma {:induction false} LowWordDecodes(r: Codec.Register, v: int)
    requires FromRam(r) && Sampled(r, v)
    ensures Codec.Decode(r, Trunc(Trunc(v, 64), 32)) == v
  {
    TruncTwice(v, 32, 32);
    assert Pow2(32) == 2 * Pow2(31);
    if v >= 0 {
      TruncFits(v, 32);
    } else {
      ModUnique(v, Pow2(32), -1, v + Pow2(32));
    }
  }

  lemma {:induction false} FetchedAt(mem: Memory, port: nat, depth: nat, k: nat)
    requires port < 4 && k < depth
    ensures |Fetched(mem, port, depth)| == depth
    ensures Fetched(mem, port, depth)[k] == Word(mem, RAM_START + port * BLOCK + 8 * k)
  {
    RegionSizes();
    AndMask(25, port * BLOCK);
    ModUnique(port * BLOCK, RAM_SIZE, 0, port * BLOCK);
  }

  // ---------------------------------------------------------------- what a run leaves in memory

  /** The samples a run records, oldest first: for each pulse the count of that cycle and the value of
      the next one, provided that the memory is ready in that next cycle; the writer does not wait.
      valid and count are those of the cycle before. */
  function Samples(valid: bool, count: nat, ins: seq<Input>): seq<(nat, int)>
    decreases |ins|
  {
    if ins == [] then []
    else (if valid && ins[0].ready then [(count, ins[0].value)] else [])
         + Samples(ins[0].we, ins[0].count, ins[1..])
  }

  function WriteAll(port: nat, mem: Memory, samples: seq<(nat, int)>): Memory
    decreases |samples|
  {
    if samples == [] then mem
    else WriteAll(port, WritePair(mem, Address(port, samples[0].0), samples[0].1), samples[1..])
  }

  /** Both channels are valid or neither, and if so with the address of count. */
  predicate InStep(port: nat, s: State, count: nat) {
    s.awValid == s.wValid && (s.awValid ==> s.address == Address(port, count))
  }

  /** Alignment: address, data and valid of every write belong to the same sample. */
  lemma {:induction false} Aligned(port: nat, s: State, count: nat, ins: seq<Input>)
    requires InStep(port, s, count)
    ensures Run(Edge(port), s, ins).mem == WriteAll(port, s.mem, Samples(s.awValid, count, ins))
    decreases |ins|
  {
    if ins != [] {
      Aligned(port, Step(port, s, ins[0]), ins[0].count, ins[1..]);
      var rest := Samples(ins[0].we, ins[0].count, ins[1..]);
      if s.awValid && ins[0].ready {
        assert ([(count, ins[0].value)] + rest)[1..] == rest;
      } else {
        assert [] + rest == rest;
      }
    }
  }

  /** The last of the samples recorded for a count. */
  function Last(samples: seq<(nat, int)>, k: nat): Option<int>
    decreases |samples|
  {
    if samples == [] then None
    else
      var later := Last(samples[1..], k);
      if later.None? && samples[0].0 == k then Some(samples[0].1) else later
  }

  ghost predicate Countable(samples: seq<(nat, int)>) {
    forall i :: 0 <= i < |samples| ==> samples[i].0 < POSITIONS
  }

  /** Each position of each port has words of its own: a write changes no other one. */
  lemma {:induction false} WriteHits(port: nat, mem: Memory, count: nat, v: int, port': nat, k: nat)
    requires port < 4 && port' < 4 && count < POSITIONS && k < POSITIONS
    ensures Word(WritePair(mem, Address(port, count), v), RAM_START + port' * BLOCK + 8 * k)
         == if port == port' && count == k then Trunc(Trunc(v, 64), 32)
            else Word(mem, RAM_START + port' * BLOCK + 8 * k)
  {
    AddressOfPosition(port, count);
  }

  lemma {:induction false} WordAfter(port: nat, mem: Memory, samples: seq<(nat, int)>, port': nat, k: nat)
    requires port < 4 && port' < 4 && k < POSITIONS && Countable(samples)
    ensures Word(WriteAll(port, mem, samples), RAM_START + port' * BLOCK + 8 * k)
         == if port == port' && Last(samples, k).Some? then Trunc(Trunc(Last(samples, k).value, 64), 32)
            else Word(mem, RAM_START + port' * BLOCK + 8 * k)
    decreases |samples|
  {
    if samples != [] {
      WriteHits(port, mem, samples[0].0, samples[0].1, port', k);
      WordAfter(port, WritePair(mem, Address(port, samples[0].0), samples[0].1), samples[1..], port', k);
    }
  }

  /** The high word of each pair is that of the same sample. */
  lemma {:induction false} HighAfter(port: nat, mem: Memory, samples: seq<(nat, int)>, k: nat, v: int)
    requires port < 4 && k < POSITIONS && Countable(samples) && Last(samples, k) == Some(v)
    ensures Word(WriteAll(port, mem, samples), RAM_START + port * BLOCK + 8 * k + 4) == Trunc(v, 64) / Pow2(32)
    decreases |samples|
  {
    var count, value := samples[0].0, samples[0].1;
    var mem', rest := WritePair(mem, Address(port, count), value), samples[1..];
    AddressOfPosition(port, count);
    if Last(rest, k).Some? {
      HighAfter(port, mem', rest, k, v);
    } else {
      assert count == k && value == v;
      HighKept(port, mem', rest, k);
    }
  }

  lemma {:induction false} HighKept(port: nat, mem: Memory, samples: seq<(nat, int)>, k: nat)
    requires port < 4 && k < POSITIONS && Countable(samples) && Last(samples, k) == None
    ensures Word(WriteAll(port, mem, samples), RAM_START + port * BLOCK + 8 * k + 4)
         == Word(mem, RAM_START + port * BLOCK + 8 * k + 4)
    decreases |samples|
  {
    if samples != [] {
      AddressOfPosition(port, samples[0].0);
      HighKept(port, WritePair(mem, Address(port, samples[0].0), samples[0].1), samples[1..], k);
    }
  }

  lemma {:induction false} HalvesOf(v: int)
    requires -0x8000_0000 <= v < 0x1_0000_0000
    ensures Trunc(Trunc(v, 64), 32) == v % 0x1_0000_0000
    ensures Trunc(v, 64) / Pow2(32) == if v < 0 then 0xFFFF_FFFF else 0
  {
    WordSizes();
    TruncTwice(v, 32, 32);
    if v >= 0 {
      TruncFits(v, 64);
    } else {
      ModUnique(v, 0x1_0000_0000_0000_0000, -1, v + 0x1_0000_0000_0000_0000);
    }
  }

  lemma {:induction false} WordSizes()
    ensures Pow2(32) == 0x1_0000_0000 && Pow2(64) == 0x1_0000_0000_0000_0000
  {
    assert Pow2(8) == 256;
    Pow2Add(8, 8); Pow2Add(16, 16); Pow2Add(32, 32);
  }

  /** Reading the two words of a position gives both halves of the last sample recorded for it, which is
      extended to 64 bits with its sign. */
  lemma {:induction false} BothHalves(port: nat, s: State, ins: seq<Input>, k: nat, v: int)
    requires port < 4 && k < POSITIONS && !s.awValid && !s.wValid && Countable(Samples(false, 0, ins))
    requires Last(Samples(false, 0, ins), k) == Some(v) && -0x8000_0000 <= v < 0x1_0000_0000
    ensures Served(Run(Edge(port), s, ins).mem, port * 0x80_0000 + 8 * k, 2)
         == [v % 0x1_0000_0000, if v < 0 then 0xFFFF_FFFF else 0]
  {
    var mem', samples := Run(Edge(port), s, ins).mem, Samples(false, 0, ins);
    Aligned(port, s, 0, ins);
    TwoWords(mem', port * 0x80_0000 + 8 * k);
    WordAfter(port, s.mem, samples, port, k);
    HighAfter(port, s.mem, samples, k, v);
    HalvesOf(v);
  }

  lemma {:induction false} TwoWords(mem: Memory, offset: nat)
    requires offset < 0x200_0000
    ensures Served(mem, offset, 2) == [Word(mem, 0xA00_0000 + offset), Word(mem, 0xA00_0000 + offset + 4)]
  {
    ServedAt(mem, offset, 2, 0);
    ServedAt(mem, offset, 2, 1);
  }

  lemma {:induction false} WriteAllSplit(port: nat, mem: Memory, a: seq<(nat, int)>, b: seq<(nat, int)>)
    ensures WriteAll(port, mem, a + b) == WriteAll(port, WriteAll(port, mem, a), b)
    decreases |a|
  {
    if a == [] {
      assert a + b == b;
    } else {
      assert (a + b)[1..] == a[1..] + b;
      WriteAllSplit(port, WritePair(mem, Address(port, a[0].0), a[0].1), a[1..], b);
    }
  }

  /** When from some sample on all counts are below 2^20, position k is the last of those for count k,
      whatever counts came before. */
  lemma {:induction false} RecordedLast(port: nat, r: Codec.Register, s: State, count: nat, ins: seq<Input>, depth: nat,
                                        k: nat, from: nat, v: int)
    requires port < 4 && FromRam(r) && k < depth <= POSITIONS && InStep(port, s, count)
    requires from <= |Samples(s.awValid, count, ins)| && Countable(Samples(s.awValid, count, ins)[from..])
    requires Last(Samples(s.awValid, count, ins)[from..], k) == Some(v) && Sampled(r, v)
    ensures Codec.Decode(r, Fetched(Run(Edge(port), s, ins).mem, port, depth)[k]) == v
  {
    var mem', samples := Run(Edge(port), s, ins).mem, Samples(s.awValid, count, ins);
    Aligned(port, s, count, ins);
    assert samples == samples[..from] + samples[from..];
    WriteAllSplit(port, s.mem, samples[..from], samples[from..]);
    WordAfter(port, WriteAll(port, s.mem, samples[..from]), samples[from..], port, k);
    FetchedAt(mem', port, depth, k);
    LowWordDecodes(r, v);
  }

  /** DMA round trip: after any run of the writer with counts below 2^20, position k of the port's
      array in Python is the last sample recorded for count k, or what it was if there is none; and
      the arrays of the other ports are as they were. */
  lemma {:induction false} RoundTrip(port: nat, r: Codec.Register, s: State, ins: seq<Input>, depth: nat, k: nat)
    requires port < 4 && FromRam(r) && k < depth <= POSITIONS && !s.awValid && !s.wValid
    requires Countable(Samples(false, 0, ins))
    requires var last := Last(Samples(false, 0, ins), k); last.Some? ==> Sampled(r, last.value)
    ensures var mem', last := Run(Edge(port), s, ins).mem, Last(Samples(false, 0, ins), k);
            && |Fetched(mem', port, depth)| == |Fetched(s.mem, port, depth)| == depth
            && Codec.Decode(r, Fetched(mem', port, depth)[k])
               == (if last.Some? then last.value else Codec.Decode(r, Fetched(s.mem, port, depth)[k]))
            && forall p :: 0 <= p < 4 && p != port ==> Fetched(mem', p, depth) == Fetched(s.mem, p, depth)
  {
    var mem', samples := Run(Edge(port), s, ins).mem, Samples(false, 0, ins);
    Aligned(port, s, 0, ins);
    FetchedAt(mem', port, depth, k);
    FetchedAt(s.mem, port, depth, k);
    WordAfter(port, s.mem, samples, port, k);
    if Last(samples, k).Some? {
      LowWordDecodes(r, Last(samples, k).value);
    }
    forall p | 0 <= p < 4 && p != port
      ensures Fetched(mem', p, depth) == Fetched(s.mem, p, depth)
    {
      OthersKept(port, s.mem, samples, p, depth);
    }
  }

  lemma {:induction false} OthersKept(port: nat, mem: Memory, samples: seq<(nat, int)>, p: nat, depth: nat)
    requires port < 4 && p < 4 && p != port && depth <= POSITIONS && Countable(samples)
    ensures Fetched(WriteAll(port, mem, samples), p, depth) == Fetched(mem, p, depth)
  {
    forall k | 0 <= k < depth
      ensures |Fetched(WriteAll(port, mem, samples), p, depth)| == |Fetched(mem, p, depth)| == depth
      ensures Fetched(WriteAll(port, mem, samples), p, depth)[k] == Fetched(mem, p, depth)[k]
    {
      FetchedAt(WriteAll(port, mem, samples), p, depth, k);
      FetchedAt(mem, p, depth, k);
      WordAfter(port, mem, samples, p, k);
    }
    if depth == 0 {
      assert Fetched(mem, p, 0) == [];
    }
  }
}
