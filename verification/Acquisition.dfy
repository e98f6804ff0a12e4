/** Reading the acquired data: from the memory of the board over the connection into Python. */
module Acquisition {
  import BurstGen
  import Codec
  import Daq
  import DaqMemory
  import Dma
  import Fpga
  import Recording
  import Session
  import Stream

  /** The array of a port, as Python reads it: every second word from its block of the memory, decoded. */
  method ReadData(client: Session.Client, conn: Session.Connection, server: Session.Server, board: Fpga.Board,
                  r: Codec.Register, port: nat, depth: nat) returns (values: seq<int>)
    requires server.Valid() && board.Valid() && conn.toServer == [] && conn.toClient == []
    requires port < 4 && depth <= Dma.POSITIONS && r.Valid()
    modifies conn, server.dataBuffer, board.dev
    ensures conn.toServer == [] && conn.toClient == [] && board.Valid()
    ensures |values| == depth
    ensures forall k :: 0 <= k < depth ==> values[k] == DaqMemory.InPython(r, board.ram, port, depth, k)
  {
    var command := Stream.ReadFromRam(port * Dma.BLOCK, 2 * depth);
    var result, request, served := client.Fetch(conn, server, board, command);
    SameWords(board.ram, port * Dma.BLOCK, 2 * depth, served);
    var decoded := Codec.DecodeArray(r, Dma.EverySecond(result.words));
    values := decoded[..];
  }

  lemma {:induction false} SameWords(mem: Dma.Memory, offset: nat, n: nat, served: seq<nat>)
    requires |served| == n
    requires forall k :: 0 <= k < n ==> served[k] == Dma.Word(mem, 0xA00_0000 + offset % 0x200_0000 + 4 * k)
    ensures served == Dma.Served(mem, offset, n)
  {
    forall k | 0 <= k < n
      ensures |Dma.Served(mem, offset, n)| == n && served[k] == Dma.Served(mem, offset, n)[k]
    {
      Dma.ServedAt(mem, offset, n, k);
    }
    if n == 0 {
      assert Dma.Served(mem, offset, n) == [];
    }
  }

  /** From samples to Python over the connection: after a burst, position k of what is read is what the value
      register showed in the cycle after the pulse of count k. */
  method ReadBurst(client: Session.Client, conn: Session.Connection, server: Session.Server, board: Fpga.Board,
                   r: Codec.Register, port: nat, depth: nat,
                   ghost c: Daq.Config, ghost u: DaqMemory.State, ghost past: seq<Daq.Input>,
                   ghost first: DaqMemory.Input, ghost ins: seq<DaqMemory.Input>, ghost next: DaqMemory.Input,
                   ghost wait: nat)
    returns (values: seq<int>)
    requires server.Valid() && board.Valid() && conn.toServer == [] && conn.toClient == []
    requires port < 4 && depth <= Dma.POSITIONS && DaqMemory.Recorded(c, u, past, first, ins, next, wait)
    requires DaqMemory.FromRam(c, r) && board.ram == DaqMemory.Final(c, port, u, first, ins, next)
    modifies conn, server.dataBuffer, board.dev
    ensures |values| == depth
    ensures forall k :: 0 <= k < depth && k <= c.burst.pulses ==> Shown(c, values[k], u, first, ins, wait, k)
  {
    values := ReadData(client, conn, server, board, r, port, depth);
    forall k | 0 <= k < depth && k <= c.burst.pulses
      ensures Shown(c, values[k], u, first, ins, wait, k)
    {
      var e := BurstGen.PulseTime(c.burst, wait, c.burst.pulses - k);
      DaqMemory.ArrayAfterBurst(c, port, r, u, past, first, ins, next, wait, depth, k, e);
    }
  }

  /** v is what the value register showed in the cycle after the pulse of count k. */
  ghost predicate Shown(c: Daq.Config, v: int, u: DaqMemory.State, first: DaqMemory.Input, ins: seq<DaqMemory.Input>,
                        wait: nat, k: nat)
    requires c.Valid() && k <= c.burst.pulses
  {
    var e := BurstGen.PulseTime(c.burst, wait, c.burst.pulses - k);
    && e < |ins|
    && Recording.Shows(c, v, Recording.First(c, u.daq, DaqMemory.ToDaq(first)),
                       Daq.Samples(DaqMemory.DaqInputs(ins)), wait, e)
  }
}
