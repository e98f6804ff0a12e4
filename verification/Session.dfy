/** The client and the server at the two ends of a connection: what each takes from and puts on
    the two byte streams, however the network cuts replies into pieces, and what the server does with the
    registers and the memory of its board. */
module Session {
  import opened Bits
  import opened Stream
  import opened Sequences
  import opened Wrappers
  import opened Fpga
  import ArrayAccess
  import ArrayRegister

  datatype Result = Ok(words: seq<nat>) | WrongControl | TooLong

  /** Bytes under way in both directions. */
  class Connection {
    var toServer: seq<Byte>
    var toClient: seq<Byte>

    constructor ()
      ensures toServer == [] && toClient == []
    {
      toServer, toClient := [], [];
    }

    /** Receives up to n bytes, as many as the network happens to deliver; none if there are none. */
    method Recv(n: nat) returns (b: seq<Byte>)
      requires n >= 1
      modifies this`toClient
      ensures |b| <= n && old(toClient) == b + toClient
      ensures b == [] <==> old(toClient) == []
    {
      if toClient == [] {
        b := [];
      } else {
        var k: nat :| 1 <= k <= n && k <= |toClient|;
        b, toClient := toClient[..k], toClient[k..];
      }
    }
  }

  /** The words of a reply follow its header. */
  lemma {:induction false} ReplySplits(header: seq<Byte>, served: seq<nat>)
    requires |header| == 8 && Words(served)
    ensures var reply := header + AllBytes(served);
            |reply| == 8 + 4 * |served| && reply[..8] == header && AllValues(reply[8..]) == served
  {
    var reply := header + AllBytes(served);
    assert reply[8..] == AllBytes(served);
    AllBytesRoundTrip(served);
  }

  /** What the server sends back: the header, and the words it was asked for. */
  function Reply(header: seq<Byte>, r: Request, served: seq<nat>): seq<Byte> {
    if r.Close? || r.Unknown? then [] else header + AllBytes(served)
  }

  class Server {
    const dataBuffer: array<Byte>

    ghost predicate Valid() { dataBuffer.Length == 8 + 4 * MAX_READ }

    constructor ()
      ensures Valid() && fresh(dataBuffer)
    {
      dataBuffer := new Byte[8 + 4 * MAX_READ](_ => 0);
    }

    /** Copies bytes into the buffer. */
    method Put(b: seq<Byte>, at: nat)
      requires at + |b| <= dataBuffer.Length
      modifies dataBuffer
      ensures dataBuffer[..at] == old(dataBuffer[..at])
      ensures dataBuffer[at..at + |b|] == b
    {
      for i := 0 to |b|
        invariant dataBuffer[..at] == old(dataBuffer[..at])
        invariant forall k :: 0 <= k < i ==> dataBuffer[at + k] == b[k]
      {
        dataBuffer[at + i] := b[i];
      }
    }

    /** Takes the next frame off the stream and makes out what it asks for. */
    method Receive(conn: Connection) returns (r: Request, header: seq<Byte>)
      requires Valid() && Parse(conn.toServer).Some?
      modifies conn`toServer, dataBuffer
      ensures Some((r, conn.toServer)) == Parse(old(conn.toServer))
      ensures header == old(conn.toServer)[..8] == dataBuffer[..8] && (r.Read? ==> r.length <= 65535)
    {
      ghost var before := conn.toServer;
      header := conn.toServer[..8];
      Put(header, 0);
      conn.toServer := conn.toServer[8..];
      var length := dataBuffer[2] as int + dataBuffer[3] as int * 256;
      var address := Value(dataBuffer[4..8]);
      assert dataBuffer[..8] == header && dataBuffer[4..8] == before[..8][4..];
      if dataBuffer[0] == R {
        r := Read(address, length);
      } else if dataBuffer[0] == D {
        r := ReadRam(address, dataBuffer[1] as int + dataBuffer[2] as int * 256 + dataBuffer[3] as int * 0x1_0000);
      } else if dataBuffer[0] == W {
        Put(conn.toServer[..4 * length], 8);
        conn.toServer := conn.toServer[4 * length..];
        r := Write(address, AllValues(dataBuffer[8..8 + 4 * length]));
      } else if dataBuffer[0] == C {
        r := Close;
      } else {
        r := Unknown;
      }
    }

    /** One turn of the service loop. */
    method Serve(conn: Connection, board: Board) returns (r: Request, served: seq<nat>)
      requires Valid() && board.Valid() && Parse(conn.toServer).Some? && Mapped(board, Parse(conn.toServer).value.0)
      modifies conn, dataBuffer, board.dev
      ensures Some((r, conn.toServer)) == Parse(old(conn.toServer))
      ensures conn.toClient == old(conn.toClient) + Reply(old(conn.toServer)[..8], r, served)
      ensures board.Valid() && Did(board, r, old(board.View()), board.View(), served) && Words(served)
    {
      var header;
      r, header := Receive(conn);
      served := Answer(conn, header, board, r);
    }

    /** Does what was asked for, and replies; the word left over in the buffer is written if there is no other. */
    method Answer(conn: Connection, header: seq<Byte>, board: Board, r: Request) returns (served: seq<nat>)
      requires Valid() && board.Valid() && Mapped(board, r) && |header| == 8 && dataBuffer[..8] == header
      requires r.Read? ==> r.length <= 65535
      modifies conn`toClient, dataBuffer, board.dev
      ensures conn.toClient == old(conn.toClient) + Reply(header, r, served)
      ensures board.Valid() && Did(board, r, old(board.View()), board.View(), served) && Words(served)
    {
      var stale := Value(dataBuffer[8..12]);
      served := board.Access(r, stale);
      Respond(conn, header, r, served);
    }

    /** Sends header and words, by way of the buffer or straight from memory. */
    method Respond(conn: Connection, header: seq<Byte>, r: Request, served: seq<nat>)
      requires Valid() && |header| == 8 && dataBuffer[..8] == header
      requires r.Read? ==> |served| == r.length <= 65535
      requires r.ReadRam? ==> |served| == r.length
      requires r.Write? ==> served == []
      modifies conn`toClient, dataBuffer
      ensures conn.toClient == old(conn.toClient) + Reply(header, r, served)
    {
      match r {
        case Read(_, length) =>
          Put(AllBytes(served), 8);
          assert dataBuffer[..8 + 4 * length] == header + AllBytes(served);
          conn.toClient := conn.toClient + dataBuffer[..8 + 4 * length];
        case ReadRam(_, points) =>
          conn.toClient := conn.toClient + dataBuffer[..8];
          if points > 0 {
            conn.toClient := conn.toClient + AllBytes(served);
          }
        case Write(_, _) =>
          conn.toClient := conn.toClient + dataBuffer[..8];
        case Close =>
        case Unknown =>
      }
    }
  }

  class Client {
    constructor () {}

    /** Collects a reply of a known length, in as many pieces as it takes. */
    method Receive(conn: Connection, total: nat) returns (data: seq<Byte>, complete: bool)
      requires total >= 1
      modifies conn`toClient
      ensures complete <==> |old(conn.toClient)| >= total
      ensures old(conn.toClient) == data + conn.toClient
      ensures complete ==> |data| == total
    {
      data := conn.Recv(total);
      complete := true;
      while |data| < total
        invariant old(conn.toClient) == data + conn.toClient && |data| <= total
        decreases |conn.toClient|
      {
        var piece := conn.Recv(total - |data|);
        data := data + piece;
        if piece == [] {
          complete := false;
          return;
        }
      }
    }

    /** Throws away what is under way, in at most a hundred pieces. */
    method ClearSocket(conn: Connection) returns (pieces: nat)
      modifies conn`toClient
      ensures pieces <= 100 && (pieces < 100 ==> conn.toClient == [])
      ensures |old(conn.toClient)| <= 100 ==> conn.toClient == []
      ensures |conn.toClient| <= |old(conn.toClient)|
      ensures conn.toClient == old(conn.toClient)[|old(conn.toClient)| - |conn.toClient|..]
    {
      ghost var all := conn.toClient;
      pieces := 0;
      for i := 0 to 100
        invariant pieces == i
        invariant |conn.toClient| <= |all| && conn.toClient == all[|all| - |conn.toClient|..]
        invariant conn.toClient == [] || |conn.toClient| + i <= |all|
      {
        var piece := conn.Recv(16384);
        if piece == [] {
          break;
        }
        pieces := pieces + 1;
      }
    }

    /** Compares the control sequence; when it is wrong what is under way is thrown away. */
    method CheckAcknowledgement(conn: Connection, header: seq<Byte>, ack: seq<Byte>) returns (ok: bool)
      modifies conn`toClient
      ensures ok <==> ack == header
      ensures ok ==> conn.toClient == old(conn.toClient)
      ensures !ok && |old(conn.toClient)| <= 100 ==> conn.toClient == []
    {
      ok := ack == header;
      if !ok {
        var pieces := ClearSocket(conn);
      }
    }

    /** Sends a whole command, which the server then serves. */
    method Send(conn: Connection, server: Server, board: Board, c: Command) returns (r: Request, served: seq<nat>)
      requires server.Valid() && board.Valid() && InLimits(c) && Mapped(board, Meant(c)) && conn.toServer == []
               && conn.toClient == []
      modifies conn, server.dataBuffer, board.dev
      ensures r == Meant(c) && conn.toServer == []
      ensures conn.toClient == HeaderOf(c) + AllBytes(served)
      ensures board.Valid() && Did(board, Meant(c), old(board.View()), board.View(), served) && Words(served)
    {
      conn.toServer := conn.toServer + Frame(c);
      FrameParses(c, []);
      assert Frame(c) + [] == conn.toServer;
      assert conn.toServer[..8] == HeaderOf(c);
      r, served := server.Serve(conn, board);
    }

    /** A command that is answered with words, from registers or from memory. */
    method Fetch(conn: Connection, server: Server, board: Board, c: Command)
      returns (result: Result, r: Request, served: seq<nat>)
      requires server.Valid() && board.Valid() && InLimits(c) && Mapped(board, Meant(c)) && !c.Writes?
      requires conn.toServer == [] && conn.toClient == []
      modifies conn, server.dataBuffer, board.dev
      ensures r == Meant(c) && result == Ok(served)
      ensures conn.toServer == [] && conn.toClient == []
      ensures board.Valid() && Did(board, Meant(c), old(board.View()), board.View(), served)
    {
      r, served := Send(conn, server, board, c);
      result := Collect(conn, HeaderOf(c), if c.Reads? then Min(c.length, MAX_READ) else c.length, served);
    }

    /** Takes the reply with n words; words is what the server put into it. */
    method Collect(conn: Connection, header: seq<Byte>, n: nat, ghost words: seq<nat>) returns (result: Result)
      requires |header| == 8 && Words(words) && |words| == n && conn.toClient == header + AllBytes(words)
      modifies conn`toClient
      ensures result == Ok(words) && conn.toClient == []
    {
      ReplySplits(header, words);
      var data, complete := Receive(conn, 4 * n + 8);
      assert data == header + AllBytes(words) && conn.toClient == [];
      var ok := CheckAcknowledgement(conn, header, data[..8]);
      result := Ok(AllValues(data[8..]));
    }

    /** A write: its acknowledgement is received in a single piece, of whatever size. It succeeds exactly
        when that piece holds all eight bytes; the server has done the write in any case. */
    method Writes(conn: Connection, server: Server, board: Board, c: Command)
      returns (result: Result, r: Request, piece: nat)
      requires server.Valid() && board.Valid() && InLimits(c) && Mapped(board, Meant(c)) && c.Writes?
      requires conn.toServer == [] && conn.toClient == []
      modifies conn, server.dataBuffer, board.dev
      ensures r == Meant(c) && 1 <= piece <= 8
      ensures result == if piece == 8 then Ok([]) else WrongControl
      ensures conn.toServer == [] && conn.toClient == []
      ensures board.Valid() && Did(board, Meant(c), old(board.View()), board.View(), [])
    {
      var header, served := HeaderOf(c), [];
      r, served := Send(conn, server, board, c);
      assert conn.toClient == header;
      var ack := conn.Recv(8);
      piece := |ack|;
      var ok := CheckAcknowledgement(conn, header, ack);
      result := if ok then Ok([]) else WrongControl;
    }

    /** Runs one command; a memory read that is too long is refused without touching anything. */
    method Execute(conn: Connection, server: Server, board: Board, c: Command)
      returns (result: Result, r: Option<Request>, served: seq<nat>)
      requires server.Valid() && board.Valid() && Sendable(board, c) && conn.toServer == [] && conn.toClient == []
      modifies conn, server.dataBuffer, board.dev
      ensures r == if Refused(c) then None else Some(Meant(c))
      ensures Answered(c, served, result)
      ensures conn.toServer == [] && conn.toClient == []
      ensures board.Valid() && Effect(board, c, old(board.View()), board.View(), served)
    {
      served := [];
      if Refused(c) {
        return TooLong, None, served;
      }
      var request: Request;
      if c.Writes? {
        var piece: nat;
        result, request, piece := Writes(conn, server, board, c);
      } else {
        result, request, served := Fetch(conn, server, board, c);
      }
      r := Some(request);
    }

    /** Stream synchronisation: for every sequence of commands, whatever the network does to the
        replies, the server receives and performs exactly these commands, each read returns exactly the
        words served for it, and nothing is left in either direction. The states are those of the
        registers before the first command and after each. */
    method Play(conn: Connection, server: Server, board: Board, cs: seq<Command>)
      returns (results: seq<Result>, requests: seq<Option<Request>>, served: seq<seq<nat>>, ghost states: seq<Seen>)
      requires server.Valid() && board.Valid() && conn.toServer == [] && conn.toClient == []
      requires forall k :: 0 <= k < |cs| ==> Sendable(board, cs[k])
      modifies conn, server.dataBuffer, board.dev
      ensures |results| == |requests| == |served| == |cs| == |states| - 1
      ensures forall k :: 0 <= k < |cs| ==> requests[k] == if Refused(cs[k]) then None else Some(Meant(cs[k]))
      ensures forall k :: 0 <= k < |cs| ==> Answered(cs[k], served[k], results[k])
      ensures conn.toServer == [] && conn.toClient == []
      ensures board.Valid() && states[0] == old(board.View()) && states[|cs|] == board.View()
      ensures forall k :: 0 <= k < |cs| ==> Effect(board, cs[k], states[k], states[k + 1], served[k])
    {
      results, requests, served, states := [], [], [], [board.View()];
      for i := 0 to |cs|
        invariant |results| == |requests| == |served| == i == |states| - 1
        invariant forall k :: 0 <= k < i ==> requests[k] == if Refused(cs[k]) then None else Some(Meant(cs[k]))
        invariant forall k :: 0 <= k < i ==> Answered(cs[k], served[k], results[k])
        invariant conn.toServer == [] && conn.toClient == []
        invariant board.Valid() && states[0] == old(board.View()) && states[i] == board.View()
        invariant forall k :: 0 <= k < i ==> Effect(board, cs[k], states[k], states[k + 1], served[k])
      {
        var result, request, words := Execute(conn, server, board, cs[i]);
        results, requests, served := results + [result], requests + [request], served + [words];
        states := states + [board.View()];
      }
    }

    /** The round trip through everything: a list written to the array register and read back, as bytes over
        the connection and words over the bus, comes back, followed by the cells beyond it. */
    method WriteAndRead(conn: Connection, server: Server, board: Board, list: seq<nat>)
      returns (written: Result, back: Result)
      requires server.Valid() && board.Valid() && conn.toServer == [] && conn.toClient == []
               && board.address < 0x1_0000_0000
      requires Storable(board.dev.c, list)
      modifies conn, server.dataBuffer, board.dev
      ensures written == Ok([]) || written == WrongControl
      ensures back == Ok(Clip(list + old(board.View()).plain.cells[|list|..], 65535))
      ensures conn.toServer == [] && conn.toClient == [] && board.Valid()
    {
      ghost var before := board.View();
      ArrayWords(board.dev.c, list);
      var request, piece, served := Unknown, 0, [];
      written, request, piece := Writes(conn, server, board, Command.Writes(board.address, list));
      ghost var between := board.View();
      back, request, served := Fetch(conn, server, board, Command.Reads(board.address, board.dev.c.depth));
      ReadAfterWrite(board, list, before, between, board.View(), served);
    }
  }

  /** A list of several words that the cells of an array register can all hold and its index all reach. */
  ghost predicate Storable(c: ArrayRegister.Config, list: seq<nat>) {
    2 <= |list| <= c.depth <= Pow2(c.width) && |list| <= 65533 && ArrayAccess.Words(c, list)
  }

  /** Such words fit the stream. */
  lemma {:induction false} ArrayWords(c: ArrayRegister.Config, list: seq<nat>)
    requires c.width <= 31 && ArrayAccess.Words(c, list)
    ensures Words(list)
  {
    Pow2Monotone(c.width, 32);
    WordSize();
  }

  lemma {:induction false} ReadAfterWrite(board: Board, list: seq<nat>, p: Seen, q: Seen,
                                          s: Seen, served: seq<nat>)
    requires Storable(board.dev.c, list) && |p.plain.cells| == board.dev.c.depth
    requires Did(board, Meant(Command.Writes(board.address, list)), p, q, [])
    requires Did(board, Meant(Command.Reads(board.address, board.dev.c.depth)), q, s, served)
    ensures served == Clip(list + p.plain.cells[|list|..], 65535)
  {
    var c := board.dev.c;
    assert Clip(list, MAX_WRITE) == list;
    ArrayAccess.AssignedInPlace(c, list, p.plain.cells);
    ArrayAccess.FitsAlready(c, list);
    ArrayAccess.LoadedInPlace(c, Min(c.depth, MAX_READ), q.plain.cells);
  }

  /** A command that the client refuses or that fits the stream and names a register that is there. */
  ghost predicate Sendable(board: Board, c: Command) {
    Refused(c) || (InLimits(c) && Mapped(board, Meant(c)))
  }

  /** What a command makes of the registers. */
  ghost predicate Effect(board: Board, c: Command, p: Seen, q: Seen, served: seq<nat>) {
    if Refused(c) then q == p else Did(board, Meant(c), p, q, served)
  }

  /** A read gets its words; a write succeeds or, when its acknowledgement came in pieces, fails. */
  predicate Answered(c: Command, served: seq<nat>, result: Result) {
    if Refused(c) then result == TooLong
    else result == Ok(served) || (c.Writes? && result == WrongControl)
  }
}
