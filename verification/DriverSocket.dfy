/** The byte streams of a connected driver-socket pair (kernel/src/hel/dsocket.cpp). */
module DriverSockets {
  import opened Basics
  import opened Klibc

  /** `DSOCK_BUFF_SIZE`, the size both buffers of a pair are allocated with. */
  const BUFFER_SIZE: nat := 4096

  /** `(std::size_t)-k_hel_error_not_connected`. */
  const NOT_CONNECTED: nat := 0xFFFF_FFFF_FFFF_FFFA

  class Pair {
    const clientBuffer: array<bv8>
    var clientPos: nat
    const serverBuffer: array<bv8>
    var serverPos: nat

    ghost predicate Valid()
      reads this
    {
      && clientBuffer != serverBuffer
      && clientBuffer.Length == serverBuffer.Length == BUFFER_SIZE
      && clientPos <= BUFFER_SIZE && serverPos <= BUFFER_SIZE
    }

    /** Bytes on their way to the accepting side. */
    ghost function ToServer(): seq<bv8>
      requires Valid()
      reads this, serverBuffer
    {
      serverBuffer[..serverPos]
    }

    /** Bytes on their way to the connecting side. */
    ghost function ToClient(): seq<bv8>
      requires Valid()
      reads this, clientBuffer
    {
      clientBuffer[..clientPos]
    }

    /** The pair an accept sets up: both buffers empty. */
    constructor ()
      ensures Valid() && fresh(clientBuffer) && fresh(serverBuffer)
      ensures ToServer() == [] && ToClient() == []
    {
      clientBuffer := new bv8[BUFFER_SIZE];
      serverBuffer := new bv8[BUFFER_SIZE];
      clientPos, serverPos := 0, 0;
    }
  }

  class Socket {
    var pair: Pair?

    /** `dsocket_send`: with no pair the answer is the error. */
    method Send(input: array<bv8>, limit: nat) returns (r: nat)
      requires limit <= input.Length
      requires pair != null ==> pair.Valid() && input !in {pair.clientBuffer, pair.serverBuffer} && |pair.ToServer()| + limit <= BUFFER_SIZE
      modifies if pair == null then {} else {pair, pair.serverBuffer}
      ensures r == if pair == null then NOT_CONNECTED else limit
      ensures pair != null ==> pair.Valid() && pair.ToServer() == old(pair.ToServer()) + input[..limit] && pair.ToClient() == old(pair.ToClient())
    {
      if pair == null {
        return NOT_CONNECTED;
      }
      Memcpy(pair.serverBuffer, pair.serverPos, input, 0, limit);
      pair.serverPos := pair.serverPos + limit;
      return limit;
    }

    /** `dsocket_accept_send`. */
    method AcceptSend(input: array<bv8>, limit: nat) returns (r: nat)
      requires limit <= input.Length
      requires pair != null ==> pair.Valid() && input !in {pair.clientBuffer, pair.serverBuffer} && |pair.ToClient()| + limit <= BUFFER_SIZE
      modifies if pair == null then {} else {pair, pair.clientBuffer}
      ensures r == if pair == null then NOT_CONNECTED else limit
      ensures pair != null ==> pair.Valid() && pair.ToClient() == old(pair.ToClient()) + input[..limit] && pair.ToServer() == old(pair.ToServer())
    {
      if pair == null {
        return NOT_CONNECTED;
      }
      Memcpy(pair.clientBuffer, pair.clientPos, input, 0, limit);
      pair.clientPos := pair.clientPos + limit;
      return limit;
    }

    /** `dsocket_recv`: what is buffered, up to `limit` bytes, moves to `output`; the rest moves up. */
    method Recv(output: array<bv8>, limit: nat) returns (r: nat)
      requires limit <= output.Length
      requires pair != null ==> pair.Valid() && output !in {pair.clientBuffer, pair.serverBuffer}
      modifies if pair == null then {} else {pair, pair.clientBuffer, output}
      ensures r == if pair == null then NOT_CONNECTED else limit
      ensures pair != null ==> pair.Valid() && pair.ToServer() == old(pair.ToServer())
      ensures pair != null ==> var n := Min(limit, |old(pair.ToClient())|);
                               output[..] == old(pair.ToClient())[..n] + old(output[..])[n..] && pair.ToClient() == old(pair.ToClient())[n..]
    {
      if pair == null {
        return NOT_CONNECTED;
      }
      var toCopy := Min(limit, pair.clientPos);
      Memcpy(output, 0, pair.clientBuffer, 0, toCopy);
      Memmove(pair.clientBuffer, 0, toCopy, pair.clientPos - toCopy);
      pair.clientPos := pair.clientPos - toCopy;
      return limit;
    }

    /** `dsocket_accept_recv`. */
    method AcceptRecv(output: array<bv8>, limit: nat) returns (r: nat)
      requires limit <= output.Length
      requires pair != null ==> pair.Valid() && output !in {pair.clientBuffer, pair.serverBuffer}
      modifies if pair == null then {} else {pair, pair.serverBuffer, output}
      ensures r == if pair == null then NOT_CONNECTED else limit
      ensures pair != null ==> pair.Valid() && pair.ToClient() == old(pair.ToClient())
      ensures pair != null ==> var n := Min(limit, |old(pair.ToServer())|);
                               output[..] == old(pair.ToServer())[..n] + old(output[..])[n..] && pair.ToServer() == old(pair.ToServer())[n..]
    {
      if pair == null {
        return NOT_CONNECTED;
      }
      var toCopy := Min(limit, pair.serverPos);
      Memcpy(output, 0, pair.serverBuffer, 0, toCopy);
      Memmove(pair.serverBuffer, 0, toCopy, pair.serverPos - toCopy);
      pair.serverPos := pair.serverPos - toCopy;
      return limit;
    }
  }

  // ----- interleavings -----

  /** One direction: what was sent, what was received, and what is buffered in between. */
  datatype Stream = Stream(sent: seq<bv8>, received: seq<bv8>, buffered: seq<bv8>)

  datatype State = State(toServer: Stream, toClient: Stream)

  datatype Op = Send(data: seq<bv8>) | AcceptSend(data: seq<bv8>) | Recv(limit: nat) | AcceptRecv(limit: nat)

  function Pushed(s: Stream, data: seq<bv8>): Stream {
    Stream(s.sent + data, s.received, s.buffered + data)
  }

  function Pulled(s: Stream, limit: nat): Stream {
    var n := Min(limit, |s.buffered|);
    Stream(s.sent, s.received + s.buffered[..n], s.buffered[n..])
  }

  function Apply(s: State, op: Op): State {
    match op
    case Send(data) => s.(toServer := Pushed(s.toServer, data))
    case AcceptSend(data) => s.(toClient := Pushed(s.toClient, data))
    case Recv(limit) => s.(toClient := Pulled(s.toClient, limit))
    case AcceptRecv(limit) => s.(toServer := Pulled(s.toServer, limit))
  }

  /** The streams `s` are those of the pair: what is buffered in each is what its buffer holds. */
  ghost predicate Carries(pair: Pair, s: State)
    reads pair, pair.clientBuffer, pair.serverBuffer
  {
    pair.Valid() && s.toServer.buffered == pair.ToServer() && s.toClient.buffered == pair.ToClient()
  }

  /**
    * A send or receive at either end of a connected pair is one step of an interleaving, and what a
    * receive puts into `bytes` is what its stream receives.
    */
  method Perform(client: Socket, server: Socket, op: Op, bytes: array<bv8>, ghost s: State, ghost pair: Pair)
    requires client.pair == server.pair == pair && Carries(pair, s) && bytes !in {pair.clientBuffer, pair.serverBuffer}
    requires match op
             case Send(data) => |data| <= bytes.Length && bytes[..|data|] == data && |s.toServer.buffered| + |data| <= BUFFER_SIZE
             case AcceptSend(data) => |data| <= bytes.Length && bytes[..|data|] == data && |s.toClient.buffered| + |data| <= BUFFER_SIZE
             case Recv(limit) => limit <= bytes.Length
             case AcceptRecv(limit) => limit <= bytes.Length
    modifies pair, pair.clientBuffer, pair.serverBuffer, bytes
    ensures Carries(pair, Apply(s, op))
    ensures op.Recv? ==> var n := Min(op.limit, |s.toClient.buffered|);
                         Apply(s, op).toClient.received == s.toClient.received + bytes[..n]
    ensures op.AcceptRecv? ==> var n := Min(op.limit, |s.toServer.buffered|);
                               Apply(s, op).toServer.received == s.toServer.received + bytes[..n]
  {
    match op {
      case Send(data) =>
        var r := client.Send(bytes, |data|);
      case AcceptSend(data) =>
        var r := server.AcceptSend(bytes, |data|);
      case Recv(limit) =>
        var r := client.Recv(bytes, limit);
      case AcceptRecv(limit) =>
        var r := server.AcceptRecv(bytes, limit);
    }
  }

  function After(s: State, ops: seq<Op>): State
    decreases |ops|
  {
    if ops == [] then s else After(Apply(s, ops[0]), ops[1..])
  }

  /** The bytes the connecting side sends, and the accepting side, over a run. */
  function SentBy(ops: seq<Op>, client: bool): seq<bv8> {
    if ops == [] then []
    else (if (client && ops[0].Send?) || (!client && ops[0].AcceptSend?) then ops[0].data else []) + SentBy(ops[1..], client)
  }

  ghost predicate Conserved(s: Stream) {
    s.received + s.buffered == s.sent
  }

  /**
    * In every interleaving of sends and receives, each side receives a prefix of exactly the bytes
    * the other sent, in order, and the rest is what is buffered: the two directions never mix.
    */
  lemma {:induction false} StreamsKeepOrder(s: State, ops: seq<Op>)
    requires Conserved(s.toServer) && Conserved(s.toClient)
    ensures var t := After(s, ops);
            && t.toServer.received + t.toServer.buffered == s.toServer.sent + SentBy(ops, true) == t.toServer.sent
            && t.toClient.received + t.toClient.buffered == s.toClient.sent + SentBy(ops, false) == t.toClient.sent
    decreases |ops|
  {
    if ops == [] {
      NothingSent(s.toServer.sent);
      NothingSent(s.toClient.sent);
    } else {
      var t, op := Apply(s, ops[0]), ops[0];
      PushKeeps(s.toServer, if op.Send? then op.data else []);
      PushKeeps(s.toClient, if op.AcceptSend? then op.data else []);
      PullKeeps(s.toServer, if op.AcceptRecv? then op.limit else 0);
      PullKeeps(s.toClient, if op.Recv? then op.limit else 0);
      StreamsKeepOrder(t, ops[1..]);
      Associative(s.toServer.sent, if op.Send? then op.data else [], SentBy(ops[1..], true));
      Associative(s.toClient.sent, if op.AcceptSend? then op.data else [], SentBy(ops[1..], false));
      NothingSent(s.toServer.sent);
      NothingSent(s.toClient.sent);
    }
  }

  lemma NothingSent(a: seq<bv8>)
    ensures a + [] == a
  {}

  lemma PushKeeps(s: Stream, data: seq<bv8>)
    requires Conserved(s)
    ensures Conserved(Pushed(s, data))
  {
    Associative(s.received, s.buffered, data);
  }

  lemma Associative(a: seq<bv8>, b: seq<bv8>, c: seq<bv8>)
    ensures a + (b + c) == (a + b) + c
  {}

  lemma PullKeeps(s: Stream, limit: nat)
    requires Conserved(s)
    ensures Conserved(Pulled(s, limit))
  {
    var n := Min(limit, |s.buffered|);
    Associative(s.received, s.buffered[..n], s.buffered[n..]);
    assert s.buffered[..n] + s.buffered[n..] == s.buffered;
  }

  /** The answer of a receive is always `limit`; it counts the bytes that arrived exactly when enough were buffered. */
  lemma RecvAnswer(s: Stream, limit: nat)
    ensures |Pulled(s, limit).received| - |s.received| == limit <==> limit <= |s.buffered|
  {}
}
