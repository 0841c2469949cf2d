# Double chat server, modelled in Dafny

The model covers the sequential core of `double_server.rs`, the tokio example
chat server that listens on two ports. Each of pools C and GO has its own
registry of joined clients. A client announces itself with one line holding its
name. After that, every line it sends goes to every client of the *other* pool,
as `name ": " line CR LF`.

The model has five modules:

- `Wire`: the byte-level framing.
  - `FindCrLf` is the search for the first CR LF over the two-byte windows of the read buffer.
  - `SplitLine` splits the line off that the poll returns.
  - `FormatMessage` builds the relayed message.
  - `Framed` is what a sender writes to frame a sequence of lines.
- `Net`: the non-blocking result shape `Poll` (ready / not ready / failed) and the
  socket. A `TcpStream` is a class with three fields:
  - what its reads will return (`incoming`; `Data([])` is end of input and stays so);
  - what its writes will do (`writes`; `Accept(n)` takes up to `n` bytes);
  - every byte it has delivered to the remote end (`delivered`).
- `LineCodec`: the `Lines` codec, a class with `rd` and `wr` buffers. Its methods are
  `Buffer`, `PollFlush`, `FillReadBuf` and `Poll` (the `Stream` poll). Each method is
  proved equal to a pure function of the old state: `Flush`, `Fill`, `NextLine`.
  `DecodeAll` is polling lines until a poll gives no line.
- `Chat`: the registry and the per-connection agent.
  - `Shared` holds `peers`, a map from socket address to the queue of messages sent
    to that peer. The queue stands for the peer's unbounded channel.
  - `Peer` is the one agent that replaces `CPeer` and `GOPeer`. It is parameterised
    by its `own` registry (where it is registered and receives) and its `target`
    registry (where it relays).
  - `Peer.Poll` is one activation. It drains at most `LINES_PER_TICK` (10) queued
    messages into the write buffer, flushes, then relays every complete line read.
- `DoubleServer`: the two registries and the name gate of `c_process` /
  `go_process`. A connection becomes a peer, registered in its own pool and relaying
  to the other pool, only once its first line (its name) has arrived.
- `Scenario`: the worked example run through the whole model. `bob` joins pool GO,
  `alice` joins pool C and sends `hello there`, and bob's socket is sent exactly
  `alice: hello there\r\n`.

In three places the model follows the code where a reader might expect otherwise:

- Registering an address that is already in the pool replaces its entry, as
  `HashMap::insert` does, and the new entry's queue is empty. It is not treated as
  a fault.
- Self-exclusion compares the sender's address with the addresses in the *target*
  registry, as the loops at lines 262-270 and 395-403 do.
- The self-notify flag is set exactly when the tenth message of an activation is
  taken. That is so even when no further message is queued.

## Model

| member | source | states |
|---|---|---|
| Wire.FindCrLfFrom | building-blocks/examples/src/double_server.rs:498-503 | the scan from window `from` returns the first window holding CR LF; no window before it holds one |
| Wire.FindCrLf | building-blocks/examples/src/double_server.rs:498-503 | gives the position of the first CR LF in the buffer; `None` exactly when the buffer has no CR LF |
| Wire.SplitLine | building-blocks/examples/src/double_server.rs:505-513 | on a hit, buffer == line ++ CR LF ++ rest, and line holds no CR LF; no line exactly when the buffer has no CR LF |
| Wire.SplitLineUnique | building-blocks/examples/src/double_server.rs:505-513 | a CR LF-free line followed by CR LF and anything is split back into exactly that line and that rest |
| Wire.FormatMessage | building-blocks/examples/src/double_server.rs:248-251 | builds `name ": " line CR LF`; what it means to the receiver is stated by `FormattedMessageIsOneLine`, `AliceSaysHelloThere` and `Chat.FormattedIsFramed` |
| Wire.FormattedMessageIsOneLine | building-blocks/examples/src/double_server.rs:248-251 | a relayed `name ": " line CR LF` is read by the receiving codec as one line, `name ": " line`, with the bytes after it kept |
| Wire.AliceSaysHelloThere | building-blocks/examples/src/double_server.rs:248-251 | name `alice` with line `hello there` formats to the bytes of `alice: hello there\r\n` |
| Net.ReadStep | building-blocks/examples/src/double_server.rs:480-484 | one socket read conserves the byte stream; end of input (0 bytes) is sticky; a non-empty read consumes an event |
| Net.WriteStep | building-blocks/examples/src/double_server.rs:456 | one socket write accepts at most the whole buffer and consumes one write event; an exhausted script would block |
| Net.TcpStream.ReadBuf | building-blocks/examples/src/double_server.rs:480 | the read's result and the events left are those of `ReadStep`; the write side is untouched |
| Net.TcpStream.PollWrite | building-blocks/examples/src/double_server.rs:456 | a write accepts at most the whole buffer, and exactly the accepted prefix reaches the remote end |
| LineCodec.Lines.constructor | building-blocks/examples/src/double_server.rs:428-434 | a new codec wraps the socket with both buffers empty |
| LineCodec.Lines.Buffer | building-blocks/examples/src/double_server.rs:440-449 | `wr == old(wr) + line`; `rd` unchanged |
| LineCodec.Flush | building-blocks/examples/src/double_server.rs:452-467 | the original buffer == written ++ what is left; Ready exactly when nothing is left; the zero-length-write abort leaves a non-empty buffer |
| LineCodec.Lines.PollFlush | building-blocks/examples/src/double_server.rs:452-467 | the method's outcome, remaining `wr`, write events and delivered bytes are those of `Flush` on the old state; `rd` and reads untouched |
| LineCodec.Fill | building-blocks/examples/src/double_server.rs:472-486 | no byte is lost or invented; old `rd` is a prefix of the new one; Ready only once the socket has reported end of input |
| LineCodec.FillWhenIdle | building-blocks/examples/src/double_server.rs:472-486 | with nothing to read, filling changes nothing and reports waiting, or closed if end of input was reached |
| LineCodec.Lines.FillReadBuf | building-blocks/examples/src/double_server.rs:472-486 | outcome, new `rd` and remaining reads are those of `Fill` on the old state; `wr` and the write side untouched |
| LineCodec.NextLine | building-blocks/examples/src/double_server.rs:493-521 | one poll of the line stream; its contract is stated by `NextLineSpec` and `NextLineKeepsStream` |
| LineCodec.NextLineSpec | building-blocks/examples/src/double_server.rs:493-521 | a line exactly when reading did not fail and the filled buffer holds CR LF; the line is the first one and the rest is kept; otherwise `None` exactly when closed, NotReady exactly when not, with the buffer as filled |
| LineCodec.NextLineKeepsStream | building-blocks/examples/src/double_server.rs:493-521 | the unread stream before a poll == the line and CR LF it returned (if any) ++ the unread stream after; the line has no CR LF |
| LineCodec.ClosedStreamStaysEnded | building-blocks/examples/src/double_server.rs:516-517 | once a poll says end of input, the trailing partial line has no CR LF and every later poll says end of input again, emitting nothing |
| LineCodec.IdlePollWithLine | building-blocks/examples/src/double_server.rs:495-513 | a whole buffered line is returned even when the socket has closed: the line check comes before the closed check |
| LineCodec.IdlePollWithoutLine | building-blocks/examples/src/double_server.rs:516-520 | no CR LF buffered and nothing to read: NotReady with `rd` unchanged, or `None` when closed |
| LineCodec.Lines.Poll | building-blocks/examples/src/double_server.rs:493-521 | outcome, new `rd` and remaining reads are those of `NextLine` on the old state; `wr` and the write side untouched |
| LineCodec.DecodeAll | building-blocks/examples/src/double_server.rs:243-276 | the unread stream == framing of the lines decoded ++ what is left; each line has no CR LF; unless reading failed, no CR LF is left |
| LineCodec.ResumeAfterLine | building-blocks/examples/src/double_server.rs:243-246 | after a poll that gave a line, decoding resumes on a strictly shorter unread stream and yields the same lines overall |
| LineCodec.DecodeFramed | building-blocks/examples/src/double_server.rs:493-521 | framing round trip when all the bytes are already in `rd`: CR LF-free lines, framed and then followed by a partial line, decode to exactly those lines with the partial line left unread; the stream then waits, or ends if closed (the chunked case is `DecodeFramedChunks`) |
| LineCodec.FillChunks | building-blocks/examples/src/double_server.rs:472-486 | filling reads every available data chunk: the result is as if the chunks' bytes had already been in `rd` |
| LineCodec.DecodeAllOfChunks | building-blocks/examples/src/double_server.rs:243-276 | decoding does not depend on how the available bytes were cut into chunks |
| LineCodec.DecodeFramedChunks | building-blocks/examples/src/double_server.rs:243-276 | framing round trip over the socket: a fresh codec whose peer sent framed lines and a partial line, in chunks of any size, decodes exactly those lines and keeps the partial line; it then waits, or ends once the socket has closed |
| Chat.Register | building-blocks/examples/src/double_server.rs:175 | the address joins the keys with an empty queue; other entries unchanged |
| Chat.Unregister | building-blocks/examples/src/double_server.rs:289 | the address leaves the keys; other entries unchanged |
| Chat.UnregisterUndoesRegister | building-blocks/examples/src/double_server.rs:287-291 | removing a newly inserted address restores the registry |
| Chat.UnregisterIsIdempotent | building-blocks/examples/src/double_server.rs:289 | removing twice is removing once; removing an absent address is a no-op |
| Chat.Received | building-blocks/examples/src/double_server.rs:218-237 | taking `k` messages drops exactly the first `k` of that queue; keys and other queues unchanged |
| Chat.Broadcasted | building-blocks/examples/src/double_server.rs:262-270 | one message sent to every other key of the registry; stated by `RelayAppendsToOthers` (the one-message case) and met by `Shared.Broadcast` |
| Chat.Relay | building-blocks/examples/src/double_server.rs:243-270 | the broadcasts of a sequence of messages in order; stated by `RelayAppendsToOthers` |
| Chat.RelayAppendsToOthers | building-blocks/examples/src/double_server.rs:262-270 | fan-out keeps the key set; every other entry gets all messages appended in order; the sender's own entry gets nothing |
| Chat.FormattedIsFramed | building-blocks/examples/src/double_server.rs:248-251 | the bytes of the messages relayed for a sequence of lines, one after the other, are exactly the framing of those lines each prefixed with `name ": "` |
| Chat.RelayedLinesDecode | building-blocks/examples/src/double_server.rs:243-270 | a client reading what it is relayed through the same codec, in chunks of any size, decodes exactly the sender's lines, each prefixed with `name ": "`, in the order sent, with nothing left over |
| Chat.DrainCount | building-blocks/examples/src/double_server.rs:215-237 | an activation takes the whole queue or the budget of 10, whichever is smaller |
| Chat.Rounds | building-blocks/examples/src/double_server.rs:215-237 | the batches successive activations take from a queue no one adds to; stated by `RoundsDeliverEverything` |
| Chat.RoundsDeliverEverything | building-blocks/examples/src/double_server.rs:215-237 | successive activations together deliver the whole queue in order: every batch but the last is a full budget, which self-notifies, and the last is smaller |
| Chat.Shared.constructor | building-blocks/examples/src/double_server.rs:151-158 | a pool starts with no peers |
| Chat.Shared.Insert | building-blocks/examples/src/double_server.rs:175 | the registry becomes `Register` of the old one |
| Chat.Shared.Remove | building-blocks/examples/src/double_server.rs:289 | the registry becomes `Unregister` of the old one |
| Chat.Shared.Receive | building-blocks/examples/src/double_server.rs:221-235 | pops the oldest queued message, or gives `None` with nothing changed when none is queued |
| Chat.Shared.Broadcast | building-blocks/examples/src/double_server.rs:262-270 | after the per-key loop, every other key has the message appended once; the sender's key is unchanged |
| Chat.Peer.constructor | building-blocks/examples/src/double_server.rs:162-185 | the peer takes its socket's remote address and is registered in its own registry only; the target registry is untouched |
| Chat.Peer.ReceiveMessages | building-blocks/examples/src/double_server.rs:218-237 | the first `DrainCount(q)` queued messages move, in FIFO order, onto the end of `wr`; the rest stay queued; notify exactly when the 10th was taken |
| Chat.Peer.Announce | building-blocks/examples/src/double_server.rs:246-270 | one more decoded line is broadcast, formatted, to the target registry |
| Chat.Peer.RelayLines | building-blocks/examples/src/double_server.rs:243-283 | the lines relayed are exactly `DecodeAll` of the old stream, in order, to every target entry but the sender's; the outcome is that of the poll which ended the loop |
| Chat.Peer.Poll | building-blocks/examples/src/double_server.rs:204-284 | one activation: drain, then flush; a flush error ends the activation with no reading; otherwise relay, and the outcome is Ready at end of input, NotReady when waiting, or the failure |
| Chat.Peer.Drop | building-blocks/examples/src/double_server.rs:287-291 | the peer's address is removed from its own registry, a no-op when absent |
| DoubleServer.TargetOf | building-blocks/examples/src/double_server.rs:654-665 | a pool always relays to the other pool |
| DoubleServer.Server.constructor | building-blocks/examples/src/double_server.rs:645-646 | two distinct, empty registries |
| DoubleServer.Server.Join | building-blocks/examples/src/double_server.rs:541-567 | on a first line the peer is made with that name, registered in its own pool and relaying to the other; on end of input, waiting or error nothing is registered; the other pool is never touched |
| Scenario.AliceTellsBob | building-blocks/examples/src/double_server.rs:243-270 | with bob on pool GO and alice on pool C sending `hello there`, bob's socket is sent exactly `alice: hello there\r\n` |

## Left out

- The tokio runtime and scheduling are not modelled: `tokio::spawn`, `Runtime`, and the `Future`/`Either`/`into_future` combinators. Each activation is a method call. `task::current().notify()` becomes the returned flag `notify`.
- Concurrency is not modelled: the `Arc<Mutex<…>>` locking, and the interleaving of activations of different peers. The model runs one method at a time.
- The `mpsc` channels are not modelled. A peer's channel is its queue in its own registry; `unbounded_send` appends to that queue, and `rx.poll` pops from it.
- Sockets are scripted events, not real I/O. This covers `peer_addr`, which is the socket's constant `peer` field. Listener binding, the accept loops and argument parsing in `main` are left out. Only the C-to-GO and GO-to-C wiring is kept (`TargetOf`, `Server.Join`).
- `Server.Join` is one poll of the name gate. A `Waiting` result stands for the combinator polling the same codec again later, which is a second call of `Join` with the same `lines`.
- `HashMap` iteration order is not modelled. Fan-out is stated per key, not as an order of delivery across peers.
- `reserve` calls (lines 443 and 477) are left out, since they change capacity, not contents.
- `println!` logging is left out.
- Chat.Shared.Receive: in the source, two connections from the same address attach to different channels, and the overwritten one's receiver still yields the messages queued before the replacement, then ends. In the model they share one queue, because the registry entry is the queue. A re-registration empties it, so messages already queued for the replaced connection are discarded.
- LineCodec.Lines.PollFlush: the panic of `assert!(n > 0)` is modelled as the error outcome `Failed(ZeroLengthWrite)`, which ends the activation, rather than as a crash of the task.
- Chat.Peer.Drop: nothing in the model ties `Drop` to the end of a peer. In the source, Rust runs `drop` on every exit of the task, including the `assert!` panic at line 460. In the model, calling `Drop` after the last activation (one that returned `Ready` or `Failed`) is left to the caller.
