/** The two chat pools of the server and the way a new connection joins one: a
    client of pool C is heard by the clients of pool GO, and the other way round. */
module DoubleServer {
  import opened Wire
  import opened Net
  import opened LineCodec
  import opened Chat

  /** The two listeners a client can connect to. */
  datatype Pool = C | GO

  /** The pool whose clients receive what a client of `pool` says. */
  function TargetOf(pool: Pool): (r: Pool)
    ensures r != pool
  {
    if pool == C then GO else C
  }

  /** How the first poll of a new connection ended: the client named itself and
      joined, closed before naming itself, has not sent a whole line yet, or the
      connection broke. */
  datatype Joining = Joined(peer: Peer) | Closed | Waiting | Broken(error: IoError)

  /** What the first poll's outcome makes of a connection, apart from the peer a
      name creates. */
  function JoiningOf(status: Poll<Option<Bytes>>): (r: Joining)
    requires !(status.Ready? && status.value.Some?)
    ensures r.Closed? <==> status == Ready(None)
    ensures r.Waiting? <==> status.NotReady?
    ensures r.Broken? <==> status.Failed?
    ensures r.Broken? ==> r.error == status.error
  {
    match status
    case Ready(_) => Closed
    case NotReady => Waiting
    case Failed(e) => Broken(e)
  }

  /** The two registries, one per pool, shared by every connection of the server. */
  class Server {
    const c: Shared
    const go: Shared

    ghost predicate Valid() {
      c != go
    }

    constructor ()
      ensures Valid() && fresh(c) && fresh(go)
      ensures c.peers == map[] && go.peers == map[]
    {
      c := new Shared();
      go := new Shared();
    }

    /** The registry of `pool`. */
    function RegistryOf(pool: Pool): Shared {
      if pool == C then c else go
    }

    /** A connection accepted on `pool` waits for its first line. The line is the
        client's name: only then is a peer made for it, registered in the pool's own
        registry and relaying to the other pool's. A connection that closes, breaks
        or has no whole line yet registers nothing. */
    method Join(pool: Pool, lines: Lines) returns (j: Joining)
      requires Valid()
      modifies lines, lines.socket, RegistryOf(pool)
      ensures var n := NextLine(old(lines.rd), old(lines.socket.incoming));
        && lines.rd == n.rd && lines.socket.incoming == n.incoming
        && (n.status.Ready? && n.status.value.Some? ==>
              && j.Joined? && fresh(j.peer) && j.peer.Valid()
              && j.peer.name == n.status.value.value && j.peer.lines == lines
              && j.peer.addr == lines.socket.peer
              && j.peer.own == RegistryOf(pool) && j.peer.target == RegistryOf(TargetOf(pool))
              && RegistryOf(pool).peers == Register(old(RegistryOf(pool).peers), lines.socket.peer))
        && (!(n.status.Ready? && n.status.value.Some?) ==>
              && j == JoiningOf(n.status)
              && RegistryOf(pool).peers == old(RegistryOf(pool).peers))
      ensures RegistryOf(TargetOf(pool)).peers == old(RegistryOf(TargetOf(pool)).peers)
      ensures lines.wr == old(lines.wr) && lines.socket.writes == old(lines.socket.writes)
      ensures lines.socket.delivered == old(lines.socket.delivered)
    {
      var first := lines.Poll();
      if first.Ready? && first.value.Some? {
        var peer := new Peer(first.value.value, RegistryOf(pool), RegistryOf(TargetOf(pool)), lines);
        j := Joined(peer);
      } else {
        j := JoiningOf(first);
      }
    }
  }
}
