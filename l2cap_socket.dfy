/**
 * The loopback L2CAP socket of the test suite. Client sockets wait in a registry of
 * pending clients, one first-in first-out queue per server address, until the server
 * accepts them; accepting links the client and a new server-side socket to each other.
 * Sending appends one chunk to the peer's receive queue and receiving pops the oldest
 * chunk. Every event a socket fires is appended to its `events` log.
 */
module TestL2CAP {
  import opened Wrappers
  import opened Integers
  import opened Addresses

  datatype PosixError = EAGAIN | ECONNRESET

  datatype SecurityLevel = Sdp | Low | Medium | High | Fips

  /** The events the loopback socket fires. */
  datatype SocketEvent = Connection | Read | DidWrite(count: nat) | DidRead(count: nat)

  /** What `receive` does: return a chunk, throw, or wait for a chunk that another thread must send. */
  datatype ReceiveResult = Received(data: seq<uint8>) | Thrown(error: PosixError) | Blocks

  // ---------------------------------------------------------------------------
  // The pending-client queues, as values

  /** The clients waiting for `server`; a missing entry reads as an empty queue. */
  function PendingOf<T>(queues: map<Address, seq<T>>, server: Address): (r: seq<T>)
    ensures server !in queues ==> r == []
    ensures server in queues ==> r == queues[server]
  {
    if server in queues then queues[server] else []
  }

  /** `queue(client:server:)`: the client joins the back of the server's queue, created when missing. */
  function Enqueued<T>(queues: map<Address, seq<T>>, server: Address, client: T): (r: map<Address, seq<T>>)
    ensures r.Keys == queues.Keys + {server}
    ensures PendingOf(r, server) == PendingOf(queues, server) + [client]
    ensures forall other :: other != server ==> PendingOf(r, other) == PendingOf(queues, other)
  {
    queues[server := PendingOf(queues, server) + [client]]
  }

  /**
   * `dequeue(server:)`: the oldest client waiting for `server` leaves the queue, whose
   * entry stays; with nobody waiting, nothing is returned and nothing changes.
   */
  function Dequeued<T>(queues: map<Address, seq<T>>, server: Address): (r: (Option<T>, map<Address, seq<T>>))
    ensures r.0.None? <==> PendingOf(queues, server) == []
    ensures r.0.None? ==> r.1 == queues
    ensures r.0.Some? ==> r.1.Keys == queues.Keys && [r.0.value] + PendingOf(r.1, server) == PendingOf(queues, server)
    ensures forall other :: other != server ==> PendingOf(r.1, other) == PendingOf(queues, other)
  {
    var waiting := PendingOf(queues, server);
    if waiting == [] then (None, queues)
    else (Some(waiting[0]), queues[server := waiting[1..]])
  }

  /** The clients in the order successive dequeues hand them out, until the queue is empty. */
  function Drained<T>(queues: map<Address, seq<T>>, server: Address): seq<T>
    decreases |PendingOf(queues, server)|
  {
    match Dequeued(queues, server)
    case (None, _) => []
    case (Some(client), rest) => [client] + Drained(rest, server)
  }

  /** Clients queued one after another, in that order. */
  function EnqueuedAll<T>(queues: map<Address, seq<T>>, server: Address, clients: seq<T>): map<Address, seq<T>>
    decreases |clients|
  {
    if clients == [] then queues
    else EnqueuedAll(Enqueued(queues, server, clients[0]), server, clients[1..])
  }

  /** Dequeuing hands out exactly the waiting clients, oldest first. */
  lemma {:induction false} DrainedIsPending<T>(queues: map<Address, seq<T>>, server: Address)
    ensures Drained(queues, server) == PendingOf(queues, server)
    decreases |PendingOf(queues, server)|
  {
    match Dequeued(queues, server)
    case (None, _) =>
    case (Some(client), rest) =>
      DrainedIsPending(rest, server);
  }

  /** Queuing clients appends them, in order, behind those already waiting. */
  lemma {:induction false} EnqueuedAllAppends<T>(queues: map<Address, seq<T>>, server: Address, clients: seq<T>)
    ensures PendingOf(EnqueuedAll(queues, server, clients), server) == PendingOf(queues, server) + clients
    ensures forall other :: other != server ==>
      PendingOf(EnqueuedAll(queues, server, clients), other) == PendingOf(queues, other)
    decreases |clients|
  {
    if clients != [] {
      var next := Enqueued(queues, server, clients[0]);
      EnqueuedAllAppends(next, server, clients[1..]);
      assert PendingOf(next, server) + clients[1..] == PendingOf(queues, server) + clients;
    }
  }

  /** First in, first out: the server accepts clients in the order they were created. */
  lemma QueueIsFifo<T>(queues: map<Address, seq<T>>, server: Address, clients: seq<T>)
    ensures Drained(EnqueuedAll(queues, server, clients), server) == PendingOf(queues, server) + clients
  {
    EnqueuedAllAppends(queues, server, clients);
    DrainedIsPending(EnqueuedAll(queues, server, clients), server);
  }

  // ---------------------------------------------------------------------------
  // The registry and the sockets

  /** The registry of pending clients (a static table in the test suite). */
  class Registry {
    var pending: map<Address, seq<Socket>>

    constructor()
      ensures pending == map[]
    {
      pending := map[];
    }

    function PendingFor(server: Address): seq<Socket>
      reads this
    {
      PendingOf(pending, server)
    }

    method Queue(client: Socket, server: Address)
      modifies this
      ensures pending == Enqueued(old(pending), server, client)
    {
      pending := Enqueued(pending, server, client);
    }

    method Dequeue(server: Address) returns (client: Socket?)
      modifies this
      ensures var (next, rest) := Dequeued(old(pending), server);
        pending == rest && (next.None? <==> client == null) && (next.Some? ==> client == next.value)
    {
      var waiting := PendingOf(pending, server);
      if waiting == [] {
        return null;
      }
      client := waiting[0];
      pending := pending[server := waiting[1..]];
    }
  }

  class Socket {
    const address: Address
    const name: string
    var level: SecurityLevel
    /** The peer; `null` once the peer is gone (a weak reference in the test suite). */
    var target: Socket?
    var receivedData: seq<seq<uint8>>
    var cache: seq<seq<uint8>>
    var events: seq<SocketEvent>

    /** A socket as created: security level SDP, no peer, nothing received, nothing fired. */
    predicate Initial()
      reads this
    {
      level == Sdp && target == null && receivedData == [] && cache == [] && events == []
    }

    constructor(address: Address, name: string)
      ensures this.address == address && this.name == name && Initial()
    {
      this.address := address;
      this.name := name;
      level := Sdp;
      target := null;
      receivedData := [];
      cache := [];
      events := [];
    }

    /** `lowEnergyClient`: a new "Client" socket, queued behind the clients already waiting for `destination`. */
    static method LowEnergyClient(registry: Registry, address: Address, destination: Address, isRandom: bool)
      returns (socket: Socket)
      modifies registry
      ensures fresh(socket) && socket.address == address && socket.name == "Client" && socket.Initial()
      ensures registry.pending == Enqueued(old(registry.pending), destination, socket)
    {
      socket := new Socket(address, "Client");
      registry.Queue(socket, destination);
    }

    /** `lowEnergyServer`: a new "Server" socket; the registry is not touched. */
    static method LowEnergyServer(address: Address, isRandom: bool, backlog: int) returns (socket: Socket)
      ensures fresh(socket) && socket.address == address && socket.name == "Server" && socket.Initial()
    {
      socket := new Socket(address, "Server");
    }

    method GetSecurityLevel() returns (result: SecurityLevel)
      ensures result == level
    {
      result := level;
    }

    method SetSecurityLevel(securityLevel: SecurityLevel)
      modifies this
      ensures level == securityLevel
      ensures target == old(target) && receivedData == old(receivedData) && cache == old(cache) && events == old(events)
    {
      level := securityLevel;
    }

    /** `close()` does nothing. */
    method Close()
      ensures unchanged(this)
    {
    }

    /**
     * `accept()`: takes the oldest client waiting for this socket's address and returns
     * a new "Server connection" socket carrying the client's address, the two linked to
     * each other, each having fired `Connection`. With no client waiting, `EAGAIN` and no
     * change.
     */
    method Accept(registry: Registry) returns (r: Result<Socket, PosixError>)
      modifies registry, if registry.PendingFor(address) == [] then {} else {registry.PendingFor(address)[0]}
      ensures old(registry.PendingFor(address)) == [] ==> r == Err(EAGAIN) && registry.pending == old(registry.pending)
      ensures old(registry.PendingFor(address)) != [] ==>
        var client := old(registry.PendingFor(address))[0];
        && registry.pending == Dequeued(old(registry.pending), address).1
        && r.Ok? && fresh(r.value)
        && r.value.address == client.address && r.value.name == "Server connection"
        && r.value.target == client && r.value.events == [Connection]
        && r.value.level == Sdp && r.value.receivedData == [] && r.value.cache == []
        && client.target == r.value && client.events == old(client.events) + [Connection]
        && client.level == old(client.level) && client.receivedData == old(client.receivedData)
        && client.cache == old(client.cache)
    {
      var client := registry.Dequeue(address);
      if client == null {
        return Err(EAGAIN);
      }
      var newConnection := new Socket(client.address, "Server connection");
      newConnection.ConnectTo(client);
      client.ConnectTo(newConnection);
      return Ok(newConnection);
    }

    /**
     * `send(_:)`: without a peer, `ECONNRESET` and no change; otherwise the data arrives
     * at the peer as one chunk, the peer fires `Read` and then this socket `DidWrite`.
     */
    method Send(data: seq<uint8>) returns (r: Outcome<PosixError>)
      modifies this, target
      ensures old(target) == null ==> r == Fail(ECONNRESET) && unchanged(this)
      ensures old(target) != null ==> r == Pass && target == old(target) && level == old(level) && cache == old(cache)
      ensures old(target) == this ==>
        receivedData == old(receivedData) + [data] && events == old(events) + [Read, DidWrite(|data|)]
      ensures old(target) != null && old(target) != this ==>
        && receivedData == old(receivedData) && events == old(events) + [DidWrite(|data|)]
        && target.receivedData == old(target.receivedData) + [data]
        && target.events == old(target.events) + [Read]
        && target.target == old(target.target) && target.level == old(target.level)
        && target.cache == old(target.cache)
    {
      var peer := target;
      if peer == null {
        return Fail(ECONNRESET);
      }
      peer.Deliver(data);
      events := events + [DidWrite(|data|)];
      return Pass;
    }

    /**
     * `receive(_:)`: pops the oldest chunk, whole whatever `bufferSize` is, keeps it in
     * `cache` and fires `DidRead`. With nothing buffered it throws `ECONNRESET` when the
     * peer is gone and otherwise waits.
     */
    method Receive(bufferSize: int) returns (r: ReceiveResult)
      modifies this
      ensures old(receivedData) != [] ==>
        var chunk := old(receivedData)[0];
        && r == Received(chunk) && receivedData == old(receivedData)[1..]
        && cache == old(cache) + [chunk] && events == old(events) + [DidRead(|chunk|)]
        && target == old(target) && level == old(level)
      ensures old(receivedData) == [] ==>
        r == (if target == null then Thrown(ECONNRESET) else Blocks) && unchanged(this)
    {
      if receivedData == [] {
        if target == null {
          return Thrown(ECONNRESET);
        }
        return Blocks;
      }
      var chunk := receivedData[0];
      receivedData := receivedData[1..];
      cache := cache + [chunk];
      events := events + [DidRead(|chunk|)];
      return Received(chunk);
    }

    /** `receive(_ data:)`: a chunk from the peer joins the back of the receive queue; fires `Read`. */
    method Deliver(data: seq<uint8>)
      modifies this
      ensures receivedData == old(receivedData) + [data] && events == old(events) + [Read]
      ensures target == old(target) && level == old(level) && cache == old(cache)
    {
      receivedData := receivedData + [data];
      events := events + [Read];
    }

    /** `connect(to:)`: the socket becomes this one's peer; fires `Connection`. */
    method ConnectTo(socket: Socket)
      modifies this
      ensures target == socket && events == old(events) + [Connection]
      ensures level == old(level) && receivedData == old(receivedData) && cache == old(cache)
    {
      target := socket;
      events := events + [Connection];
    }

    /** The peer is deallocated, which clears the weak reference to it. */
    method ReleasePeer()
      modifies this
      ensures target == null
      ensures level == old(level) && receivedData == old(receivedData) && cache == old(cache) && events == old(events)
    {
      target := null;
    }
  }

  // ---------------------------------------------------------------------------
  // Whole exchanges between fresh sockets

  /**
   * A client connects to a server and each side sends the other one message: the server
   * side socket carries the client's address, each side receives exactly what the other
   * sent, and the client's log shows the connection, its write, the arrival and its read.
   */
  method Exchange(serverAddress: Address, clientAddress: Address, request: seq<uint8>, response: seq<uint8>)
    returns (connectionAddress: Option<Address>, atServer: ReceiveResult, atClient: ReceiveResult,
             clientEvents: seq<SocketEvent>)
    ensures connectionAddress == Some(clientAddress)
    ensures atServer == Received(request) && atClient == Received(response)
    ensures clientEvents == [Connection, DidWrite(|request|), Read, DidRead(|response|)]
  {
    var registry := new Registry();
    var server := Socket.LowEnergyServer(serverAddress, false, 1);
    var client := Socket.LowEnergyClient(registry, clientAddress, serverAddress, false);
    var accepted := server.Accept(registry);
    var connection := accepted.value;
    connectionAddress := Some(connection.address);
    var sent := client.Send(request);
    atServer := connection.Receive(1024);
    sent := connection.Send(response);
    atClient := client.Receive(1024);
    clientEvents := client.events;
  }

  /** The address an accept result carries, or its error. */
  function AcceptedAddress(r: Result<Socket, PosixError>): Result<Address, PosixError>
  {
    match r
    case Ok(connection) => Ok(connection.address)
    case Err(e) => Err(e)
  }

  /**
   * Two clients queue for one server: the first accept takes the first client, the second
   * the second, and a third throws `EAGAIN`. The client still waiting after the first
   * accept has not been connected to anything.
   */
  method AcceptInArrivalOrder(serverAddress: Address, firstAddress: Address, secondAddress: Address)
    returns (first: Result<Address, PosixError>, second: Result<Address, PosixError>,
             third: Result<Address, PosixError>, secondUntouched: bool)
    ensures first == Ok(firstAddress) && second == Ok(secondAddress) && third == Err(EAGAIN)
    ensures secondUntouched
  {
    var registry := new Registry();
    var server := Socket.LowEnergyServer(serverAddress, false, 1);
    var a := Socket.LowEnergyClient(registry, firstAddress, serverAddress, false);
    var b := Socket.LowEnergyClient(registry, secondAddress, serverAddress, false);
    assert registry.PendingFor(serverAddress) == [a, b];
    var r := server.Accept(registry);
    first := AcceptedAddress(r);
    assert registry.PendingFor(serverAddress) == [b];
    secondUntouched := b.target == null && b.events == [] && b.receivedData == [];
    r := server.Accept(registry);
    second := AcceptedAddress(r);
    r := server.Accept(registry);
    third := AcceptedAddress(r);
  }

  /**
   * Chunks keep their boundaries: two sends arrive as two chunks, read back in order,
   * and the reader's cache holds both.
   */
  method ChunksKeepBoundaries(firstChunk: seq<uint8>, secondChunk: seq<uint8>)
    returns (first: ReceiveResult, second: ReceiveResult, cached: seq<seq<uint8>>)
    ensures first == Received(firstChunk) && second == Received(secondChunk)
    ensures cached == [firstChunk, secondChunk]
  {
    var writer := new Socket(Zero, "Writer");
    var reader := new Socket(Zero, "Reader");
    writer.ConnectTo(reader);
    var sent := writer.Send(firstChunk);
    sent := writer.Send(secondChunk);
    first := reader.Receive(1);
    second := reader.Receive(1);
    cached := reader.cache;
  }

  /**
   * Once the peer is gone, chunks it already sent stay readable, after which `receive`
   * throws `ECONNRESET`, and so does `send`.
   */
  method ReadAfterPeerGone(data: seq<uint8>)
    returns (first: ReceiveResult, second: ReceiveResult, reply: Outcome<PosixError>)
    ensures first == Received(data) && second == Thrown(ECONNRESET) && reply == Fail(ECONNRESET)
  {
    var writer := new Socket(Zero, "Writer");
    var reader := new Socket(Zero, "Reader");
    writer.ConnectTo(reader);
    reader.ConnectTo(writer);
    var sent := writer.Send(data);
    reader.ReleasePeer();
    first := reader.Receive(16);
    second := reader.Receive(16);
    reply := reader.Send(data);
  }

  /** With nothing buffered and the peer still there, `receive` waits. */
  method ReceiveWhileConnectedWaits() returns (r: ReceiveResult)
    ensures r == Blocks
  {
    var a := new Socket(Zero, "A");
    var b := new Socket(Zero, "B");
    a.ConnectTo(b);
    r := a.Receive(16);
  }

  /** The security level starts at SDP and reads back as the last value set. */
  method SecurityLevelReadsBack(first: SecurityLevel, second: SecurityLevel)
    returns (initial: SecurityLevel, afterFirst: SecurityLevel, afterSecond: SecurityLevel)
    ensures initial == Sdp && afterFirst == first && afterSecond == second
  {
    var socket := Socket.LowEnergyServer(Zero, false, 1);
    initial := socket.GetSecurityLevel();
    socket.SetSecurityLevel(first);
    afterFirst := socket.GetSecurityLevel();
    socket.Close();
    socket.SetSecurityLevel(second);
    afterSecond := socket.GetSecurityLevel();
  }
}
