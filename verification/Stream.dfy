/** The byte stream between the Python client and the server: command headers, replies, and why the
    two sides never lose their place in it. */
module Stream {
  import opened Bits
  import opened Sequences
  import opened Wrappers

  type Byte = b: int | 0 <= b < 256

  /** The most words in one command. */
  const MAX_READ: nat := 65535
  const MAX_WRITE: nat := 65533
  const MAX_RAM: nat := 0x800000

  /** The command letters. */
  const R: Byte := 114
  const D: Byte := 100
  const W: Byte := 119
  const C: Byte := 99

  /** What the client is asked to do. */
  datatype Command =
    | Reads(address: nat, length: nat)
    | ReadFromRam(offset: nat, length: nat)
    | Writes(address: nat, values: seq<nat>)

  /** What the server understands. */
  datatype Request =
    | Read(address: nat, length: nat)
    | ReadRam(offset: nat, length: nat)
    | Write(address: nat, values: seq<nat>)
    | Close
    | Unknown

  // ---------------------------------------------------------------- words and bytes

  /** The four bytes of a 32-bit word, lowest first. */
  function Bytes(v: nat): (b: seq<Byte>)
    ensures |b| == 4
  {
    [v % 256, v / 256 % 256, v / 0x1_0000 % 256, v / 0x100_0000 % 256]
  }

  function Value(b: seq<Byte>): nat
    requires |b| == 4
  {
    b[0] as int + b[1] as int * 256 + b[2] as int * 0x1_0000 + b[3] as int * 0x100_0000
  }

  function AllBytes(words: seq<nat>): (b: seq<Byte>)
    ensures |b| == 4 * |words|
  {
    if words == [] then [] else Bytes(words[0]) + AllBytes(words[1..])
  }

  function AllValues(b: seq<Byte>): seq<nat>
    requires |b| % 4 == 0
  {
    if b == [] then [] else [Value(b[..4])] + AllValues(b[4..])
  }

  ghost predicate Words(words: seq<nat>) {
    forall k :: 0 <= k < |words| ==> words[k] < 0x1_0000_0000
  }

  lemma {:induction false} BytesRoundTrip(v: nat)
    requires v < 0x1_0000_0000
    ensures Value(Bytes(v)) == v
  {
    var a, b, d := v / 256, v / 0x1_0000, v / 0x100_0000;
    assert b == a / 256 && d == b / 256 && d < 256;
    assert v == 256 * a + v % 256 && a == 256 * b + a % 256 && b == 256 * d + b % 256;
  }

  lemma {:induction false} AllBytesRoundTrip(words: seq<nat>)
    requires Words(words)
    ensures AllValues(AllBytes(words)) == words
    decreases |words|
  {
    if words != [] {
      var rest := AllBytes(words[1..]);
      BytesRoundTrip(words[0]);
      AllBytesRoundTrip(words[1..]);
      assert (Bytes(words[0]) + rest)[..4] == Bytes(words[0]);
      assert (Bytes(words[0]) + rest)[4..] == rest;
    }
  }

  // ---------------------------------------------------------------- frames

  /** The header of a read or a write: letter, a reserved byte, 16 bits of length, 32 of address. */
  function Header(letter: Byte, length: nat, address: nat): (h: seq<Byte>)
    ensures |h| == 8
  {
    [letter, 0, length % 256, length / 256 % 256] + Bytes(address)
  }

  /** The header of a memory read has 24 bits of length. */
  function RamHeader(length: nat, offset: nat): (h: seq<Byte>)
    ensures |h| == 8
  {
    [D, length % 256, length / 256 % 256, length / 0x1_0000 % 256] + Bytes(offset)
  }

  /** The header the client sends for a command; it refuses memory reads that are too long. */
  function HeaderOf(c: Command): seq<Byte> {
    match c
    case Reads(address, length) => Header(R, Min(length, MAX_READ), address)
    case ReadFromRam(offset, length) => RamHeader(length, offset)
    case Writes(address, values) => Header(W, |Clip(values, MAX_WRITE)|, address)
  }

  predicate Refused(c: Command) {
    c.ReadFromRam? && c.length >= MAX_RAM
  }

  function Frame(c: Command): seq<Byte> {
    HeaderOf(c) + if c.Writes? then AllBytes(Clip(c.values, MAX_WRITE)) else []
  }

  /** What the server should make of a command. */
  function Meant(c: Command): Request {
    match c
    case Reads(address, length) => Read(address, Min(length, MAX_READ))
    case ReadFromRam(offset, length) => ReadRam(offset, length)
    case Writes(address, values) => Write(address, Clip(values, MAX_WRITE))
  }

  /** Addresses and values are 32-bit numbers. */
  ghost predicate InLimits(c: Command) {
    && !Refused(c)
    && match c
       case Reads(address, _) => address < 0x1_0000_0000
       case ReadFromRam(offset, _) => offset < 0x1_0000_0000
       case Writes(address, values) => address < 0x1_0000_0000 && Words(values)
  }

  function LengthField(h: seq<Byte>): nat
    requires |h| == 8
  {
    h[2] as int + h[3] as int * 256
  }

  function RamLengthField(h: seq<Byte>): nat
    requires |h| == 8
  {
    h[1] as int + h[2] as int * 256 + h[3] as int * 0x1_0000
  }

  /** The next request in a stream of bytes and what follows it, if all of it is there. */
  function Parse(b: seq<Byte>): Option<(Request, seq<Byte>)> {
    if |b| < 8 then None
    else
      var h, rest := b[..8], b[8..];
      var n := LengthField(h);
      if h[0] == R then Some((Read(Value(h[4..]), n), rest))
      else if h[0] == D then Some((ReadRam(Value(h[4..]), RamLengthField(h)), rest))
      else if h[0] == W then
        if |rest| < 4 * n then None else Some((Write(Value(h[4..]), AllValues(rest[..4 * n])), rest[4 * n..]))
      else if h[0] == C then Some((Close, rest))
      else Some((Unknown, rest))
  }

  lemma {:induction false} FieldsDecode(letter: Byte, length: nat, address: nat)
    requires length < 0x1_0000 && address < 0x1_0000_0000
    ensures LengthField(Header(letter, length, address)) == length
    ensures Value(Header(letter, length, address)[4..]) == address
  {
    BytesRoundTrip(address);
    assert Header(letter, length, address)[4..] == Bytes(address);
  }

  lemma {:induction false} ThreeBytes(v: nat)
    requires v < 0x100_0000
    ensures v % 256 + v / 256 % 256 * 256 + v / 0x1_0000 % 256 * 0x1_0000 == v
  {
    var a, b := v / 256, v / 0x1_0000;
    assert b == a / 256 && b < 256;
    assert v == 256 * a + v % 256 && a == 256 * b + a % 256;
  }

  lemma {:induction false} RamFieldsDecode(length: nat, offset: nat)
    requires length < 0x100_0000 && offset < 0x1_0000_0000
    ensures RamLengthField(RamHeader(length, offset)) == length
    ensures Value(RamHeader(length, offset)[4..]) == offset
  {
    BytesRoundTrip(offset);
    ThreeBytes(length);
    assert RamHeader(length, offset)[4..] == Bytes(offset);
  }

  lemma {:induction false} ReadParses(b: seq<Byte>, address: nat, length: nat, rest: seq<Byte>)
    requires address < 0x1_0000_0000 && length <= 65535 && b == Header(R, length, address) + rest
    ensures Parse(b) == Some((Read(address, length), rest))
  {
    assert b[..8] == Header(R, length, address) && b[8..] == rest;
    FieldsDecode(R, length, address);
  }

  lemma {:induction false} RamParses(b: seq<Byte>, offset: nat, length: nat, rest: seq<Byte>)
    requires offset < 0x1_0000_0000 && length < 0x800000 && b == RamHeader(length, offset) + rest
    ensures Parse(b) == Some((ReadRam(offset, length), rest))
  {
    assert b[..8] == RamHeader(length, offset) && b[8..] == rest;
    RamFieldsDecode(length, offset);
  }

  lemma {:induction false} WriteParses(b: seq<Byte>, address: nat, values: seq<nat>, rest: seq<Byte>)
    requires address < 0x1_0000_0000 && Words(values) && |values| <= 65533
    requires b == Header(W, |values|, address) + AllBytes(values) + rest
    ensures Parse(b) == Some((Write(address, values), rest))
  {
    var payload := AllBytes(values);
    assert b[..8] == Header(W, |values|, address) && b[8..] == payload + rest;
    assert (payload + rest)[..|payload|] == payload && (payload + rest)[|payload|..] == rest;
    FieldsDecode(W, |values|, address);
    AllBytesRoundTrip(values);
  }

  // ---------------------------------------------------------------- the bytes themselves

  /** A 32-bit number, lowest byte first. */
  ghost predicate LowestFirst(b: seq<Byte>, v: nat) {
    |b| == 4 && b[0] == v % 256 && b[1] == v / 256 % 256 && b[2] == v / 65536 % 256 && b[3] == v / 16777216
  }

  lemma {:induction false} BytesAre(v: nat)
    requires v < 0x1_0000_0000
    ensures LowestFirst(Bytes(v), v)
  {
  }

  /** The header of each command, byte by byte: the letters r, d and w, the length and the address. */
  lemma {:induction false} HeaderBytes(c: Command, n: nat)
    requires InLimits(c)
    requires c.Reads? ==> n == (if c.length <= 65535 then c.length else 65535)
    requires c.ReadFromRam? ==> n == c.length
    requires c.Writes? ==> n == (if |c.values| <= 65533 then |c.values| else 65533)
    ensures var h := HeaderOf(c);
            && |h| == 8 && h <= Frame(c)
            && (c.Reads? ==> h[..4] == [114, 0, n % 256, n / 256] && LowestFirst(h[4..], c.address))
            && (c.ReadFromRam? ==> h[..4] == [100, n % 256, n / 256 % 256, n / 65536] && LowestFirst(h[4..], c.offset))
            && (c.Writes? ==> h[..4] == [119, 0, n % 256, n / 256] && LowestFirst(h[4..], c.address))
  {
    match c {
      case Reads(address, _) => HeaderAt(114, n, address);
      case ReadFromRam(offset, _) => RamHeaderAt(n, offset);
      case Writes(address, _) => HeaderAt(119, n, address);
    }
  }

  lemma {:induction false} HeaderAt(letter: Byte, length: nat, address: nat)
    requires length <= 65535 && address < 0x1_0000_0000
    ensures var h := Header(letter, length, address);
            h[..4] == [letter, 0, length % 256, length / 256] && LowestFirst(h[4..], address)
  {
    BytesAre(address);
    assert Header(letter, length, address)[4..] == Bytes(address);
  }

  lemma {:induction false} RamHeaderAt(length: nat, offset: nat)
    requires length < 0x100_0000 && offset < 0x1_0000_0000
    ensures var h := RamHeader(length, offset);
            h[..4] == [100, length % 256, length / 256 % 256, length / 65536] && LowestFirst(h[4..], offset)
  {
    BytesAre(offset);
    assert RamHeader(length, offset)[4..] == Bytes(offset);
  }

  /** Behind the header of a write come its words, lowest byte first. */
  lemma {:induction false} WordBytes(words: seq<nat>, k: nat)
    requires Words(words) && k < |words|
    ensures LowestFirst(AllBytes(words)[4 * k..4 * k + 4], words[k])
    decreases k
  {
    BytesAre(words[0]);
    if k == 0 {
      assert AllBytes(words)[0..4] == Bytes(words[0]);
    } else {
      WordBytes(words[1..], k - 1);
      assert AllBytes(words)[4 * k..4 * k + 4] == AllBytes(words[1..])[4 * (k - 1)..4 * (k - 1) + 4];
    }
  }

  /** Lists of up to 65533 words are sent whole, longer ones cut to that; up to 65535 words are read at a
      time; and reads from memory of 2^23 words or more are refused. */
  lemma {:induction false} Limits(c: Command)
    ensures c.Writes? && |c.values| <= 65533 ==> Meant(c) == Write(c.address, c.values)
    ensures c.Writes? && |c.values| > 65533 ==> Meant(c) == Write(c.address, c.values[..65533])
    ensures c.Writes? && |c.values| <= 65533 ==> Frame(c)[8..] == AllBytes(c.values)
    ensures c.Reads? && c.length <= 65535 ==> Meant(c) == Read(c.address, c.length)
    ensures c.Reads? && c.length > 65535 ==> Meant(c) == Read(c.address, 65535)
    ensures Refused(c) <==> c.ReadFromRam? && c.length >= 8388608
  {
    if c.Writes? && |c.values| <= 65533 {
      assert Clip(c.values, MAX_WRITE) == c.values;
    }
  }

  /** The letter c ends a connection, and any other letter than the four is an error. */
  lemma {:induction false} OtherLetters(b: seq<Byte>)
    requires |b| >= 8
    ensures b[0] == 99 ==> Parse(b) == Some((Close, b[8..]))
    ensures b[0] !in [114, 100, 119, 99] ==> Parse(b) == Some((Unknown, b[8..]))
  {
  }

  /** Frame alignment: whatever follows in the stream, the server takes exactly the bytes of the frame
      and understands exactly the command. */
  lemma {:induction false} FrameParses(c: Command, rest: seq<Byte>)
    requires InLimits(c)
    ensures Parse(Frame(c) + rest) == Some((Meant(c), rest))
  {
    var b := Frame(c) + rest;
    match c {
      case Reads(address, length) => ReadParses(b, address, Min(length, MAX_READ), rest);
      case ReadFromRam(offset, length) => RamParses(b, offset, length, rest);
      case Writes(address, values) => WriteParses(b, address, Clip(values, MAX_WRITE), rest);
    }
  }

  function Stream(cs: seq<Command>): seq<Byte> {
    if cs == [] then [] else Frame(cs[0]) + Stream(cs[1..])
  }

  function Requests(b: seq<Byte>): seq<Request>
    decreases |b|
  {
    match Parse(b)
    case None => []
    case Some((r, rest)) => [r] + Requests(rest)
  }

  /** So for any sequence of commands the server sees exactly these requests. */
  lemma {:induction false} StreamParses(cs: seq<Command>)
    requires forall k :: 0 <= k < |cs| ==> InLimits(cs[k])
    ensures |Requests(Stream(cs))| == |cs|
    ensures forall k :: 0 <= k < |cs| ==> Requests(Stream(cs))[k] == Meant(cs[k])
    decreases |cs|
  {
    if cs != [] {
      FrameParses(cs[0], Stream(cs[1..]));
      StreamParses(cs[1..]);
    }
  }
}
