/** The peers of one pool and the per-connection agent. A registry maps each joined
    peer's address to its queue of outbound messages; a peer drains its own queue
    into its socket and relays each line it reads to every other peer of the target
    registry. */
module Chat {
  import opened Wire
  import opened Net
  import opened LineCodec

  type Message = Bytes

  /** Joined peers by address, each with the messages queued for it, oldest first. */
  type Registry = map<SocketAddr, seq<Message>>

  /** The most queued messages one activation of a peer moves to its socket. */
  const LINES_PER_TICK: nat := 10

  /** Joining: the address gets a new, empty queue. */
  function Register(peers: Registry, addr: SocketAddr): (r: Registry)
    ensures r.Keys == peers.Keys + {addr} && r[addr] == []
    ensures forall a :: a in peers && a != addr ==> r[a] == peers[a]
  {
    peers[addr := []]
  }

  /** Leaving: the address and its queue are gone. */
  function Unregister(peers: Registry, addr: SocketAddr): (r: Registry)
    ensures r.Keys == peers.Keys - {addr}
    ensures forall a :: a in r ==> r[a] == peers[a]
  {
    peers - {addr}
  }

  /** Leaving undoes joining for an address that was not there before. */
  lemma UnregisterUndoesRegister(peers: Registry, addr: SocketAddr)
    requires addr !in peers
    ensures Unregister(Register(peers, addr), addr) == peers
  {
    assert Unregister(Register(peers, addr), addr).Keys == peers.Keys;
  }

  /** Leaving twice is leaving once, and leaving without having joined changes nothing. */
  lemma UnregisterIsIdempotent(peers: Registry, addr: SocketAddr)
    ensures Unregister(Unregister(peers, addr), addr) == Unregister(peers, addr)
    ensures addr !in peers ==> Unregister(peers, addr) == peers
  {
    if addr !in peers {
      assert Unregister(peers, addr).Keys == peers.Keys;
    }
  }

  /** The messages queued for `addr`; none for an address that is not registered. */
  function QueueOf(peers: Registry, addr: SocketAddr): seq<Message> {
    if addr in peers then peers[addr] else []
  }

  /** The registry after the first `k` messages of `addr`'s queue were received. */
  function Received(peers: Registry, addr: SocketAddr, k: nat): (r: Registry)
    requires k <= |QueueOf(peers, addr)|
    ensures r.Keys == peers.Keys
    ensures QueueOf(r, addr) == QueueOf(peers, addr)[k..]
    ensures forall a :: a in peers && a != addr ==> r[a] == peers[a]
  {
    if addr in peers then peers[addr := peers[addr][k..]] else peers
  }

  /** One message sent to every registered address other than `from`. */
  function Broadcasted(peers: Registry, from: SocketAddr, msg: Message): Registry {
    map a | a in peers :: if a == from then peers[a] else peers[a] + [msg]
  }

  /** The messages `msgs` broadcast one after the other from `from`. */
  function Relay(peers: Registry, from: SocketAddr, msgs: seq<Message>): Registry
    decreases |msgs|
  {
    if msgs == [] then peers
    else Broadcasted(Relay(peers, from, msgs[..|msgs| - 1]), from, msgs[|msgs| - 1])
  }

  /** Relaying keeps the registered addresses, leaves the sender's own queue alone,
      and appends all messages, in the order sent, to every other queue. */
  lemma {:induction false} RelayAppendsToOthers(peers: Registry, from: SocketAddr, msgs: seq<Message>)
    ensures Relay(peers, from, msgs).Keys == peers.Keys
    ensures forall a :: a in peers && a != from ==> Relay(peers, from, msgs)[a] == peers[a] + msgs
    ensures from in peers ==> Relay(peers, from, msgs)[from] == peers[from]
  {
    if msgs != [] {
      var init := msgs[..|msgs| - 1];
      RelayAppendsToOthers(peers, from, init);
      assert msgs == init + [msgs[|msgs| - 1]];
    }
  }

  /** Relaying one more line is one more broadcast. */
  lemma RelayFormattedStep(peers: Registry, from: SocketAddr, name: Bytes, sent: seq<Bytes>, line: Bytes)
    ensures Relay(peers, from, Formatted(name, sent + [line]))
         == Broadcasted(Relay(peers, from, Formatted(name, sent)), from, FormatMessage(name, line))
  {
    assert Formatted(name, sent + [line])[..|sent|] == Formatted(name, sent);
  }

  /** The relayed form of each line a peer named `name` sent. */
  function Formatted(name: Bytes, lines: seq<Bytes>): (r: seq<Message>)
    ensures |r| == |lines|
    ensures forall i :: 0 <= i < |lines| ==> r[i] == FormatMessage(name, lines[i])
  {
    seq(|lines|, i requires 0 <= i < |lines| => FormatMessage(name, lines[i]))
  }

  /** The lines a client reads from what it is relayed: each line of the sender,
      prefixed with the sender's name and ": ". */
  function Named(name: Bytes, lines: seq<Bytes>): seq<Bytes> {
    seq(|lines|, i requires 0 <= i < |lines| => name + NAME_SEP + lines[i])
  }

  /** The bytes sent for the relayed lines, one message after the other, are the
      framing of the named lines. */
  lemma {:induction false} FormattedIsFramed(name: Bytes, lines: seq<Bytes>)
    ensures Concat(Formatted(name, lines)) == Framed(Named(name, lines))
  {
    if lines != [] {
      var f := Formatted(name, lines);
      var n := Named(name, lines);
      assert f[1..] == Formatted(name, lines[1..]);
      assert n[1..] == Named(name, lines[1..]);
      FormattedIsFramed(name, lines[1..]);
      assert f[0] == n[0] + CRLF;
    }
  }

  /** A client that reads, with the same codec and in chunks of any size, the
      messages relayed for lines a named peer sent gets back exactly those lines,
      each prefixed with the name and ": ", in the order sent. */
  lemma RelayedLinesDecode(name: Bytes, lines: seq<Bytes>, chunks: seq<ReadEvent>)
    requires HasNoCrLf(name) && forall i :: 0 <= i < |lines| ==> HasNoCrLf(lines[i])
    requires AllChunks(chunks) && DataOf(chunks) == Concat(Formatted(name, lines))
    ensures DecodeAll([], chunks) == Decoded(Named(name, lines), NotReady, [], [])
  {
    var named := Named(name, lines);
    forall i | 0 <= i < |named| ensures HasNoCrLf(named[i]) {
      NamedLineHasNoCrLf(name, lines[i]);
    }
    FormattedIsFramed(name, lines);
    assert HasNoCrLf([]);
    assert DataOf(chunks) == Framed(named) + [];
    DecodeFramedChunks(named, [], chunks, []);
    assert chunks + [] == chunks;
  }

  /** How many queued messages one activation receives: all of them, up to the budget. */
  function DrainCount(q: seq<Message>): (k: nat)
    ensures k <= |q| && k <= LINES_PER_TICK
    ensures k == LINES_PER_TICK || k == |q|
  {
    if |q| < LINES_PER_TICK then |q| else LINES_PER_TICK
  }

  /** The batches successive activations move from a queue no one adds to: a peer
      that used its whole budget wakes itself again, so batches follow until one
      finds fewer than the budget. */
  function Rounds(q: seq<Message>): seq<seq<Message>>
    decreases |q|
  {
    var k := DrainCount(q);
    if k == LINES_PER_TICK then [q[..k]] + Rounds(q[k..]) else [q]
  }

  /** No queued message is dropped by the per-activation budget: the batches
      together are the whole queue in order, every batch but the last is a full
      budget (so the peer woke itself again), and the last empties the queue. */
  lemma {:induction false} RoundsDeliverEverything(q: seq<Message>)
    ensures var r := Rounds(q);
      && |r| >= 1
      && Concat(r) == q
      && (forall i :: 0 <= i < |r| - 1 ==> |r[i]| == LINES_PER_TICK)
      && |r[|r| - 1]| < LINES_PER_TICK
  {
    var k := DrainCount(q);
    if k == LINES_PER_TICK {
      var rest := Rounds(q[k..]);
      RoundsDeliverEverything(q[k..]);
      var r := [q[..k]] + rest;
      assert r[1..] == rest;
      assert Concat(r) == q[..k] + q[k..];
      assert q[..k] + q[k..] == q;
      forall i | 0 <= i < |r| - 1 ensures |r[i]| == LINES_PER_TICK {
        if i > 0 { assert r[i] == rest[i - 1]; }
      }
    } else {
      assert Concat([q]) == q + Concat([q][1..]);
      assert [q][1..] == [];
    }
  }

  /** The shared state of one pool: its registered peers. */
  class Shared {
    var peers: Registry

    constructor ()
      ensures peers == map[]
    {
      peers := map[];
    }

    /** Adds `addr` with an empty queue; an address already there gets a new one. */
    method Insert(addr: SocketAddr)
      modifies this
      ensures peers == Register(old(peers), addr)
    {
      peers := peers[addr := []];
    }

    /** Removes `addr`, if it is there. */
    method Remove(addr: SocketAddr)
      modifies this
      ensures peers == Unregister(old(peers), addr)
    {
      peers := peers - {addr};
    }

    /** Takes the oldest message queued for `addr`, if any. */
    method Receive(addr: SocketAddr) returns (m: Option<Message>)
      modifies this
      ensures old(QueueOf(peers, addr)) == [] ==> m == None && peers == old(peers)
      ensures old(QueueOf(peers, addr)) != [] ==>
        m == Some(old(QueueOf(peers, addr))[0]) && peers == Received(old(peers), addr, 1)
    {
      if addr in peers && peers[addr] != [] {
        m := Some(peers[addr][0]);
        peers := peers[addr := peers[addr][1..]];
      } else {
        m := None;
      }
    }

    /** Sends `msg` to every registered peer other than `from`, one address at a
        time, in no particular order. */
    method Broadcast(from: SocketAddr, msg: Message)
      modifies this
      ensures peers == Broadcasted(old(peers), from, msg)
    {
      var todo := peers.Keys;
      while todo != {}
        invariant todo <= peers.Keys == old(peers).Keys
        invariant forall a :: a in todo ==> peers[a] == old(peers)[a]
        invariant forall a :: a in peers && a !in todo ==>
          peers[a] == if a == from then old(peers)[a] else old(peers)[a] + [msg]
        decreases todo
      {
        var a :| a in todo;
        if a != from {
          peers := peers[a := peers[a] + [msg]];
        }
        todo := todo - {a};
      }
    }
  }

  /** One connected, named client: it is registered in `own` and relays what it
      reads to the peers registered in `target`. */
  class Peer {
    const name: Bytes
    const addr: SocketAddr
    const lines: Lines
    const own: Shared
    const target: Shared

    ghost predicate Valid() {
      own != target && addr == lines.socket.peer
    }

    /** Registers the new peer, under its socket's remote address, in its own pool only. */
    constructor (name: Bytes, own: Shared, target: Shared, lines: Lines)
      requires own != target
      modifies own
      ensures Valid()
      ensures this.name == name && this.own == own && this.target == target && this.lines == lines
      ensures addr == lines.socket.peer
      ensures own.peers == Register(old(own.peers), lines.socket.peer)
      ensures target.peers == old(target.peers)
    {
      this.name := name;
      this.addr := lines.socket.peer;
      this.lines := lines;
      this.own := own;
      this.target := target;
      new;
      own.Insert(addr);
    }

    /** Moves up to the budget of queued messages, oldest first, into the codec's
        write buffer; `notify` is set exactly when the budget was used up. */
    method ReceiveMessages() returns (notify: bool)
      modifies own, lines
      ensures var q := old(QueueOf(own.peers, addr));
        var k := DrainCount(q);
        && notify == (k == LINES_PER_TICK)
        && own.peers == Received(old(own.peers), addr, k)
        && lines.wr == old(lines.wr) + Concat(q[..k])
      ensures lines.rd == old(lines.rd)
    {
      ghost var q := QueueOf(own.peers, addr);
      notify := false;
      for i := 0 to LINES_PER_TICK
        invariant i <= |q|
        invariant own.peers == Received(old(own.peers), addr, i)
        invariant lines.wr == old(lines.wr) + Concat(q[..i])
        invariant lines.rd == old(lines.rd)
        invariant notify == (i == LINES_PER_TICK)
      {
        var m := own.Receive(addr);
        if m.None? {
          break;
        }
        lines.Buffer(m.value);
        ConcatAppend(q[..i], [q[i]]);
        assert q[..i + 1] == q[..i] + [q[i]];
        assert Concat([q[i]]) == q[i] + Concat([q[i]][1..]);
        assert [q[i]][1..] == [];
        if i + 1 == LINES_PER_TICK {
          notify := true;
        }
      }
    }

    /** Relays one more line to every peer of the target pool, extending what the
        relay so far has produced. */
    method Announce(ghost start: Registry, ghost sent: seq<Bytes>, message: Bytes)
      requires target.peers == Relay(start, addr, Formatted(name, sent))
      modifies target
      ensures target.peers == Relay(start, addr, Formatted(name, sent + [message]))
    {
      target.Broadcast(addr, FormatMessage(name, message));
      RelayFormattedStep(start, addr, name, sent, message);
    }

    /** Reads every complete line available and relays each, formatted with this
        peer's name, to every other peer of the target registry; stops at the first
        poll that gives no line. */
    method RelayLines() returns (p: Poll<()>)
      modifies lines, lines.socket, target
      ensures var d := DecodeAll(old(lines.rd), old(lines.socket.incoming));
        && p == d.end
        && lines.rd == d.rd && lines.socket.incoming == d.incoming
        && target.peers == Relay(old(target.peers), addr, Formatted(name, d.lines))
      ensures lines.wr == old(lines.wr) && lines.socket.writes == old(lines.socket.writes)
      ensures lines.socket.delivered == old(lines.socket.delivered)
    {
      ghost var d0 := DecodeAll(lines.rd, lines.socket.incoming);
      ghost var sent: seq<Bytes> := [];
      assert sent + d0.lines == d0.lines;
      while true
        invariant ResumesAt(d0, sent, lines.rd, lines.socket.incoming)
        invariant target.peers == Relay(old(target.peers), addr, Formatted(name, sent))
        invariant lines.wr == old(lines.wr) && lines.socket.writes == old(lines.socket.writes)
        invariant lines.socket.delivered == old(lines.socket.delivered)
        decreases |Unread(lines.rd, lines.socket.incoming)|
      {
        ghost var rd0, incoming0 := lines.rd, lines.socket.incoming;
        var r := lines.Poll();
        if r.Ready? && r.value.Some? {
          var message := r.value.value;
          Announce(old(target.peers), sent, message);
          ResumeAfterLine(d0, sent, rd0, incoming0);
          sent := sent + [message];
        } else {
          ResumeAtEnd(d0, sent, rd0, incoming0);
          return EndOf(r);
        }
      }
    }

    /** One activation: receive queued messages into the write buffer, flush it, then
        relay every complete line read. `Ready(())` means the client has disconnected;
        `notify` asks to be run again at once. */
    method Poll() returns (p: Poll<()>, notify: bool)
      requires Valid()
      modifies lines, lines.socket, own, target
      ensures var q := old(QueueOf(own.peers, addr));
        var k := DrainCount(q);
        && notify == (k == LINES_PER_TICK)
        && own.peers == Received(old(own.peers), addr, k)
        && var f := Flush(old(lines.wr) + Concat(q[..k]), old(lines.socket.writes));
           && lines.wr == f.wr && lines.socket.writes == f.writes
           && lines.socket.delivered == old(lines.socket.delivered) + f.written
           && if f.status.Failed? then
                && p == f.status
                && lines.rd == old(lines.rd) && lines.socket.incoming == old(lines.socket.incoming)
                && target.peers == old(target.peers)
              else
                var d := DecodeAll(old(lines.rd), old(lines.socket.incoming));
                && p == d.end
                && lines.rd == d.rd && lines.socket.incoming == d.incoming
                && target.peers == Relay(old(target.peers), addr, Formatted(name, d.lines))
    {
      notify := ReceiveMessages();
      var flushed := lines.PollFlush();
      if flushed.Failed? {
        return flushed, notify;
      }
      p := RelayLines();
    }

    /** The peer is gone: its address leaves its own pool, whether it was there or not. */
    method Drop()
      modifies own
      ensures own.peers == Unregister(old(own.peers), addr)
    {
      own.Remove(addr);
    }
  }
}
