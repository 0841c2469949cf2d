/** The relay end to end: `bob` joins pool GO, `alice` joins pool C and says
    `hello there`, and what bob's socket is sent is alice's line, named. */
module Scenario {
  import opened Wire
  import opened Net
  import opened LineCodec
  import opened Chat
  import opened DoubleServer

  const ALICE: Bytes := Ascii("alice")
  const BOB: Bytes := Ascii("bob")
  const HELLO_THERE: Bytes := Ascii("hello there")

  /** A byte string without a CR byte has no terminator. */
  lemma NoCrNoCrLf(s: Bytes)
    requires forall i :: 0 <= i < |s| ==> s[i] != CR
    ensures HasNoCrLf(s)
  {
  }

  /** A connection whose only event so far is one chunk holding `line`, its
      terminator and `rest`: its first poll gives `line` and keeps `rest`. */
  lemma FirstPollOfChunk(line: Bytes, rest: Bytes)
    requires HasNoCrLf(line)
    ensures NextLine([], [Data(line + CRLF + rest)]) == Polled(Ready(Some(line)), rest, [])
  {
    var chunk := line + CRLF + rest;
    assert ReadStep([Data(chunk)]) == (Ready(chunk), []);
    FillWhenIdle(chunk, []);
    assert [] + chunk == chunk;
    SplitLineUnique(line, rest);
  }

  /** One message relayed into a registry holding only another, empty queue. */
  lemma RelayToTheOther(other: SocketAddr, from: SocketAddr, message: Message)
    requires other != from
    ensures Relay(map[other := []], from, [message]) == map[other := [message]]
  {
    var peers := map[other := []];
    assert [message][..0] == [];
    assert Relay(peers, from, []) == peers;
    var r := Relay(peers, from, [message]);
    assert r == Broadcasted(peers, from, message);
    assert r.Keys == peers.Keys;
    assert r[other] == [message];
  }

  /** A client connects to `pool` from `addr`, sends its name, its terminator and
      `rest` in one chunk, and is then idle; its socket will accept writes as
      `writes` says. */
  method Connect(server: Server, pool: Pool, addr: SocketAddr, name: Bytes, rest: Bytes,
                 writes: seq<WriteEvent>) returns (peer: Peer)
    requires server.Valid() && HasNoCrLf(name)
    modifies server.RegistryOf(pool)
    ensures fresh(peer) && fresh(peer.lines) && fresh(peer.lines.socket)
    ensures peer.Valid() && peer.name == name && peer.addr == addr
    ensures peer.own == server.RegistryOf(pool) && peer.target == server.RegistryOf(TargetOf(pool))
    ensures peer.lines.rd == rest && peer.lines.wr == []
    ensures peer.lines.socket.incoming == [] && peer.lines.socket.writes == writes
    ensures peer.lines.socket.delivered == []
    ensures server.RegistryOf(pool).peers == Register(old(server.RegistryOf(pool).peers), addr)
  {
    var socket := new TcpStream(addr, [Data(name + CRLF + rest)], writes);
    var lines := new Lines(socket);
    FirstPollOfChunk(name, rest);
    var joined := server.Join(pool, lines);
    peer := joined.peer;
  }

  /** An idle peer with nothing queued that has read one whole line relays it,
      named, to the peers of its target pool. */
  method Say(peer: Peer, line: Bytes)
    requires peer.Valid() && HasNoCrLf(line)
    requires QueueOf(peer.own.peers, peer.addr) == [] && peer.lines.wr == []
    requires peer.lines.rd == line + CRLF && peer.lines.socket.incoming == []
    modifies peer.lines, peer.lines.socket, peer.own, peer.target
    ensures peer.target.peers == Relay(old(peer.target.peers), peer.addr, [FormatMessage(peer.name, line)])
  {
    assert Framed([line]) + [] == line + CRLF;
    DecodeFramed([line], [], []);
    assert Formatted(peer.name, [line]) == [FormatMessage(peer.name, line)];
    var _, _ := peer.Poll();
  }

  /** A peer with one message queued and a socket that accepts it in one write
      sends exactly that message. */
  method Hear(peer: Peer, message: Message, room: nat)
    requires peer.Valid() && |message| <= room
    requires QueueOf(peer.own.peers, peer.addr) == [message] && peer.lines.wr == []
    requires peer.lines.socket.writes == [Accept(room)] && peer.lines.socket.delivered == []
    modifies peer.lines, peer.lines.socket, peer.own, peer.target
    ensures peer.lines.socket.delivered == message
  {
    assert DrainCount([message]) == 1;
    assert Concat([message][..1]) == message by {
      assert [message][..1] == [message];
      assert Concat([message]) == message + Concat([message][1..]);
      assert [message][1..] == [];
    }
    assert [] + message == message;
    var _, _ := peer.Poll();
  }

  /** The worked example run through the server: returns every byte bob's socket
      was sent. */
  method AliceTellsBob() returns (heard: Bytes)
    ensures heard == FormatMessage(ALICE, HELLO_THERE)
    ensures heard == Ascii("alice: hello there\r\n")
  {
    NoCrNoCrLf(ALICE);
    NoCrNoCrLf(BOB);
    NoCrNoCrLf(HELLO_THERE);
    var server := new Server();
    var bobAt := SocketAddr([10, 0, 0, 2], 5002);
    var aliceAt := SocketAddr([10, 0, 0, 1], 5001);
    var bob := Connect(server, GO, bobAt, BOB, [], [Accept(64)]);
    var alice := Connect(server, C, aliceAt, ALICE, HELLO_THERE + CRLF, []);
    var message := FormatMessage(ALICE, HELLO_THERE);
    RelayToTheOther(bobAt, aliceAt, message);
    Say(alice, HELLO_THERE);
    Hear(bob, message, 64);
    heard := bob.lines.socket.delivered;
    AliceSaysHelloThere();
  }
}
