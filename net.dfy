/** The boundary to the network: the result shape of a non-blocking operation and a
    TCP stream whose behaviour is given as a script of what its reads and writes will
    return. */
module Net {
  import opened Wire

  /** Why an operation stopped: an error from the socket, or a write of a non-empty
      buffer that accepted no bytes, which the codec treats as a broken invariant and
      aborts on. */
  datatype IoError = Transport | ZeroLengthWrite

  /** The outcome of polling a non-blocking operation: done with a value, not ready
      yet (the task will be woken later), or failed. */
  datatype Poll<T> = Ready(value: T) | NotReady | Failed(error: IoError)

  /** What one read of the socket yields. `Data([])` is end of input; once it is
      reached every later read reports it again. */
  datatype ReadEvent = Data(bytes: Bytes) | ReadBlocked | ReadError

  /** What one write of the socket does: accept up to `count` bytes of the buffer,
      report that it would block, or fail. */
  datatype WriteEvent = Accept(count: nat) | WriteBlocked | WriteError

  /** The remote socket address of a connection. */
  datatype SocketAddr = SocketAddr(host: Bytes, port: nat)

  /** All bytes a sequence of read events carries, in order. */
  function DataOf(events: seq<ReadEvent>): Bytes {
    if events == [] then []
    else (if events[0].Data? then events[0].bytes else []) + DataOf(events[1..])
  }

  /** One read: its result and the events still to come. An exhausted script
      would block. */
  function ReadStep(incoming: seq<ReadEvent>): (r: (Poll<Bytes>, seq<ReadEvent>))
    ensures DataOf(incoming) == (if r.0.Ready? then r.0.value else []) + DataOf(r.1)
    ensures r.0 == Ready([]) ==> r.1 == incoming
    ensures r.0.Ready? && r.0.value != [] ==> |r.1| < |incoming|
    ensures |r.1| <= |incoming|
  {
    if incoming == [] then (NotReady, [])
    else match incoming[0]
      case Data(bytes) => if bytes == [] then (Ready([]), incoming) else (Ready(bytes), incoming[1..])
      case ReadBlocked => (NotReady, incoming[1..])
      case ReadError => (Failed(Transport), incoming[1..])
  }

  /** One write of `buf`: how many bytes were accepted and the events still to
      come. An exhausted script would block. */
  function WriteStep(buf: Bytes, writes: seq<WriteEvent>): (r: (Poll<nat>, seq<WriteEvent>))
    ensures r.0.Ready? ==> r.0.value <= |buf|
    ensures writes == [] ==> r == (NotReady, [])
    ensures writes != [] ==> r.1 == writes[1..]
  {
    if writes == [] then (NotReady, [])
    else match writes[0]
      case Accept(count) => (Ready(if count < |buf| then count else |buf|), writes[1..])
      case WriteBlocked => (NotReady, writes[1..])
      case WriteError => (Failed(Transport), writes[1..])
  }

  /** A connected TCP stream. `incoming` and `writes` say what its reads and writes
      will return; `delivered` is every byte the remote end has been sent. */
  class TcpStream {
    const peer: SocketAddr
    var incoming: seq<ReadEvent>
    var writes: seq<WriteEvent>
    var delivered: Bytes

    constructor (peer: SocketAddr, incoming: seq<ReadEvent>, writes: seq<WriteEvent>)
      ensures this.peer == peer && this.incoming == incoming && this.writes == writes
      ensures delivered == []
    {
      this.peer := peer;
      this.incoming := incoming;
      this.writes := writes;
      delivered := [];
    }

    /** Reads whatever bytes are available; `Ready([])` means the stream is closed. */
    method ReadBuf() returns (r: Poll<Bytes>)
      modifies this
      ensures (r, incoming) == ReadStep(old(incoming))
      ensures writes == old(writes) && delivered == old(delivered)
    {
      var step := ReadStep(incoming);
      r, incoming := step.0, step.1;
    }

    /** Writes a prefix of `buf` and says how long it was. */
    method PollWrite(buf: Bytes) returns (r: Poll<nat>)
      modifies this
      ensures (r, writes) == WriteStep(buf, old(writes))
      ensures delivered == old(delivered) + (if r.Ready? then buf[..r.value] else [])
      ensures incoming == old(incoming)
    {
      var step := WriteStep(buf, writes);
      r, writes := step.0, step.1;
      if r.Ready? {
        delivered := delivered + buf[..r.value];
      }
    }
  }
}
