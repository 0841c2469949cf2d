/** The `Lines` codec: a TCP stream with a read buffer `rd` and a write buffer `wr`,
    read one CR LF terminated line at a time and written as staged bytes. The pure
    functions here say what each operation does to the buffers and to the socket;
    the class methods are proved to do exactly that. */
module LineCodec {
  import opened Wire
  import opened Net

  /** The bytes of the stream not yet returned as lines: those in the read buffer,
      then those the socket has still to deliver. */
  function Unread(rd: Bytes, incoming: seq<ReadEvent>): Bytes {
    rd + DataOf(incoming)
  }

  /** What filling the read buffer leaves: `Ready(())` when the stream has closed,
      `NotReady` when it would block, or the error; the new read buffer; the read
      events still to come. */
  datatype Filled = Filled(status: Poll<()>, rd: Bytes, incoming: seq<ReadEvent>)

  /** Reading everything available into the read buffer, until the socket would
      block, reports end of input, or fails. */
  function Fill(rd: Bytes, incoming: seq<ReadEvent>): (r: Filled)
    decreases |incoming|
    ensures Unread(rd, incoming) == Unread(r.rd, r.incoming)
    ensures |rd| <= |r.rd| && r.rd[..|rd|] == rd
    ensures r.status.Ready? ==> ReadStep(r.incoming) == (Ready([]), r.incoming)
  {
    var step := ReadStep(incoming);
    match step.0
    case Ready(bytes) =>
      if bytes == [] then Filled(Ready(()), rd, step.1)
      else
        var r := Fill(rd + bytes, step.1);
        assert Unread(rd + bytes, step.1) == Unread(rd, incoming);
        assert r.rd[..|rd|] == (r.rd[..|rd + bytes|])[..|rd|];
        r
    case NotReady => Filled(NotReady, rd, step.1)
    case Failed(e) => Filled(Failed(e), rd, step.1)
  }

  /** What flushing the write buffer leaves: `Ready(())` once it is empty; the bytes
      that reached the socket; the bytes still staged; the write events to come. */
  datatype Flushed = Flushed(status: Poll<()>, written: Bytes, wr: Bytes, writes: seq<WriteEvent>)

  /** Writing the staged bytes until none are left, the socket would block, a write
      fails, or a write of a non-empty buffer accepts nothing. */
  function Flush(wr: Bytes, writes: seq<WriteEvent>): (r: Flushed)
    decreases |wr|
    ensures wr == r.written + r.wr
    ensures r.status.Ready? <==> r.wr == []
    ensures r.status == Failed(ZeroLengthWrite) ==> r.wr != []
  {
    if wr == [] then Flushed(Ready(()), [], [], writes)
    else
      var step := WriteStep(wr, writes);
      match step.0
      case Ready(n) =>
        if n == 0 then Flushed(Failed(ZeroLengthWrite), [], wr, step.1)
        else
          var f := Flush(wr[n..], step.1);
          assert wr == wr[..n] + (f.written + f.wr);
          Flushed(f.status, wr[..n] + f.written, f.wr, f.writes)
      case NotReady => Flushed(NotReady, [], wr, step.1)
      case Failed(e) => Flushed(Failed(e), [], wr, step.1)
  }

  /** `whole` is the flush of a buffer of which `written` has reached the socket
      already and (`wr`, `writes`) is what is left. */
  ghost predicate FlushesTo(whole: Flushed, written: Bytes, wr: Bytes, writes: seq<WriteEvent>) {
    var f := Flush(wr, writes);
    whole == Flushed(f.status, written + f.written, f.wr, f.writes)
  }

  /** Flushing resumed after one more write: done on an empty buffer; after a
      write that took `n > 0` bytes, resumed on the rest; otherwise stopped. */
  lemma FlushStep(whole: Flushed, written: Bytes, wr: Bytes, writes: seq<WriteEvent>)
    requires FlushesTo(whole, written, wr, writes)
    ensures wr == [] ==> whole == Flushed(Ready(()), written, [], writes)
    ensures wr != [] ==> var step := WriteStep(wr, writes);
      if step.0.Ready? && step.0.value > 0 then
        FlushesTo(whole, written + wr[..step.0.value], wr[step.0.value..], step.1)
      else
        && whole.written == written && whole.wr == wr && whole.writes == step.1
        && whole.status == match step.0
             case Ready(_) => Failed(ZeroLengthWrite)
             case NotReady => NotReady
             case Failed(e) => Failed(e)
  {
    if wr == [] {
      assert written + [] == written;
    } else {
      var step := WriteStep(wr, writes);
      if step.0.Ready? && step.0.value > 0 {
        var n := step.0.value;
        var f := Flush(wr[n..], step.1);
        assert written + (wr[..n] + f.written) == (written + wr[..n]) + f.written;
      } else {
        assert written + [] == written;
      }
    }
  }

  /** The outcome of asking for the next line: the line, `None` for end of input,
      `NotReady` when no complete line is there yet, or the error; the read buffer
      and read events left. */
  datatype Polled = Polled(status: Poll<Option<Bytes>>, rd: Bytes, incoming: seq<ReadEvent>)

  /** One poll of the line stream: fill the read buffer, then split off the first
      complete line. A line already complete wins over a closed socket; without
      one, a closed socket ends the stream and the partial bytes stay unread. */
  function NextLine(rd: Bytes, incoming: seq<ReadEvent>): Polled {
    var f := Fill(rd, incoming);
    if f.status.Failed? then Polled(Failed(f.status.error), f.rd, f.incoming)
    else
      match SplitLine(f.rd)
      case Some((line, rest)) => Polled(Ready(Some(line)), rest, f.incoming)
      case None => Polled(if f.status.Ready? then Ready(None) else NotReady, f.rd, f.incoming)
  }

  /** What a poll returns, in terms of the filled read buffer: a line exactly when
      the buffer holds a terminator and reading did not fail, and then the first
      line with the rest kept; otherwise the end of input if the socket closed, or
      `NotReady` with the buffer as filled. */
  lemma NextLineSpec(rd: Bytes, incoming: seq<ReadEvent>)
    ensures var f := Fill(rd, incoming);
      var r := NextLine(rd, incoming);
      && r.incoming == f.incoming
      && (r.status.Ready? && r.status.value.Some? <==> !f.status.Failed? && !HasNoCrLf(f.rd))
      && (r.status.Ready? && r.status.value.Some? ==>
            f.rd == r.status.value.value + CRLF + r.rd && HasNoCrLf(r.status.value.value))
      && (r.status == Ready(None) <==> f.status.Ready? && HasNoCrLf(f.rd))
      && (r.status == NotReady <==> f.status.NotReady? && HasNoCrLf(f.rd))
      && (r.status.Failed? <==> f.status.Failed?)
      && (!(r.status.Ready? && r.status.value.Some?) ==> r.rd == f.rd)
  {
  }

  /** No byte is lost or invented by a poll: the stream before it is the line
      emitted (with its terminator) followed by the stream after it. */
  lemma NextLineKeepsStream(rd: Bytes, incoming: seq<ReadEvent>)
    ensures var r := NextLine(rd, incoming);
      Unread(rd, incoming)
      == (if r.status.Ready? && r.status.value.Some? then r.status.value.value + CRLF else [])
         + Unread(r.rd, r.incoming)
    ensures var r := NextLine(rd, incoming);
      if r.status.Ready? && r.status.value.Some? then HasNoCrLf(r.status.value.value)
      else !r.status.Failed? ==> HasNoCrLf(r.rd)
  {
    NextLineSpec(rd, incoming);
    var f := Fill(rd, incoming);
    var r := NextLine(rd, incoming);
    var after := DataOf(r.incoming);
    assert Unread(rd, incoming) == f.rd + after;
    if r.status.Ready? && r.status.value.Some? {
      var line := r.status.value.value;
      assert f.rd == line + CRLF + r.rd;
      assert f.rd + after == (line + CRLF) + r.rd + after;
    } else {
      assert f.rd == r.rd;
      assert f.rd + after == [] + r.rd + after;
    }
  }

  /** Once the socket has closed and the buffer holds no complete line, the stream
      has ended for good: every later poll again reports the end, and the partial
      bytes are never emitted. */
  lemma ClosedStreamStaysEnded(rd: Bytes, incoming: seq<ReadEvent>)
    requires NextLine(rd, incoming).status == Ready(None)
    ensures var r := NextLine(rd, incoming);
      HasNoCrLf(r.rd) && NextLine(r.rd, r.incoming) == r
  {
    NextLineSpec(rd, incoming);
    var r := NextLine(rd, incoming);
    var f := Fill(rd, incoming);
    assert ReadStep(f.incoming) == (Ready([]), f.incoming);
    assert Fill(r.rd, r.incoming) == Filled(Ready(()), r.rd, r.incoming);
  }

  /** Peeling one framed line off the front of a stream. */
  lemma FramedCons(stream: Bytes, line: Bytes, after: Bytes, lines: seq<Bytes>, rest: Bytes)
    requires stream == line + CRLF + after
    requires after == Framed(lines) + rest
    ensures stream == Framed([line] + lines) + rest
  {
    assert ([line] + lines)[1..] == lines;
  }

  lemma ConsNoCrLf(line: Bytes, lines: seq<Bytes>)
    requires HasNoCrLf(line)
    requires forall i :: 0 <= i < |lines| ==> HasNoCrLf(lines[i])
    ensures forall i :: 0 <= i < |[line] + lines| ==> HasNoCrLf(([line] + lines)[i])
  {
    forall i | 0 <= i < |[line] + lines| ensures HasNoCrLf(([line] + lines)[i]) {
      if i > 0 { assert ([line] + lines)[i] == lines[i - 1]; }
    }
  }

  /** What reading lines until the stream stops leaves: the lines in order, how it
      stopped (`Ready(())` at end of input, `NotReady` when no complete line is left,
      or the error), the read buffer and the read events left. */
  datatype Decoded = Decoded(lines: seq<Bytes>, end: Poll<()>, rd: Bytes, incoming: seq<ReadEvent>)

  /** Every complete line the stream yields, polled one after the other until a
      poll returns something other than a line. */
  function DecodeAll(rd: Bytes, incoming: seq<ReadEvent>): (r: Decoded)
    decreases |Unread(rd, incoming)|
    ensures Unread(rd, incoming) == Framed(r.lines) + Unread(r.rd, r.incoming)
    ensures forall i :: 0 <= i < |r.lines| ==> HasNoCrLf(r.lines[i])
    ensures !r.end.Failed? ==> HasNoCrLf(r.rd)
  {
    NextLineKeepsStream(rd, incoming);
    var p := NextLine(rd, incoming);
    if p.status.Ready? && p.status.value.Some? then
      var line := p.status.value.value;
      var d := DecodeAll(p.rd, p.incoming);
      FramedCons(Unread(rd, incoming), line, Unread(p.rd, p.incoming), d.lines, Unread(d.rd, d.incoming));
      ConsNoCrLf(line, d.lines);
      Decoded([line] + d.lines, d.end, d.rd, d.incoming)
    else
      Decoded([], EndOf(p.status), p.rd, p.incoming)
  }

  /** How a poll that gave no line ends the reading: end of input, waiting, or the error. */
  function EndOf(status: Poll<Option<Bytes>>): Poll<()> {
    match status
    case Ready(_) => Ready(())
    case NotReady => NotReady
    case Failed(e) => Failed(e)
  }

  /** DecodeAll is one poll followed, after a line, by DecodeAll of what is left. */
  lemma DecodeAllStep(rd: Bytes, incoming: seq<ReadEvent>)
    ensures var p := NextLine(rd, incoming);
      var d := DecodeAll(rd, incoming);
      if p.status.Ready? && p.status.value.Some? then
        var e := DecodeAll(p.rd, p.incoming);
        d == Decoded([p.status.value.value] + e.lines, e.end, e.rd, e.incoming)
      else
        d == Decoded([], EndOf(p.status), p.rd, p.incoming)
  {
  }

  /** `whole` is what decoding yields from a stream of which the lines `sent` have
      been read already and whose rest is (`rd`, `incoming`). */
  ghost predicate ResumesAt(whole: Decoded, sent: seq<Bytes>, rd: Bytes, incoming: seq<ReadEvent>) {
    var d := DecodeAll(rd, incoming);
    whole == Decoded(sent + d.lines, d.end, d.rd, d.incoming)
  }

  /** After a poll that gave a line, decoding resumes after that line, with strictly
      fewer bytes left unread. */
  lemma ResumeAfterLine(whole: Decoded, sent: seq<Bytes>, rd: Bytes, incoming: seq<ReadEvent>)
    requires ResumesAt(whole, sent, rd, incoming)
    requires NextLine(rd, incoming).status.Ready? && NextLine(rd, incoming).status.value.Some?
    ensures var p := NextLine(rd, incoming);
      && ResumesAt(whole, sent + [p.status.value.value], p.rd, p.incoming)
      && |Unread(p.rd, p.incoming)| < |Unread(rd, incoming)|
  {
    var p := NextLine(rd, incoming);
    NextLineKeepsStream(rd, incoming);
    DecodeAllStep(rd, incoming);
    var e := DecodeAll(p.rd, p.incoming);
    assert sent + ([p.status.value.value] + e.lines) == (sent + [p.status.value.value]) + e.lines;
  }

  /** After a poll that gave anything but a line, decoding has ended: the lines
      already read are all of them. */
  lemma ResumeAtEnd(whole: Decoded, sent: seq<Bytes>, rd: Bytes, incoming: seq<ReadEvent>)
    requires ResumesAt(whole, sent, rd, incoming)
    requires !(NextLine(rd, incoming).status.Ready? && NextLine(rd, incoming).status.value.Some?)
    ensures var p := NextLine(rd, incoming);
      whole == Decoded(sent, EndOf(p.status), p.rd, p.incoming)
  {
    DecodeAllStep(rd, incoming);
    assert sent + [] == sent;
  }

  /** With nothing more to read, filling leaves the buffer as it is. */
  lemma FillWhenIdle(rd: Bytes, incoming: seq<ReadEvent>)
    requires incoming == [] || incoming == [Data([])]
    ensures Fill(rd, incoming) == Filled(if incoming == [] then NotReady else Ready(()), rd, incoming)
  {
    if incoming != [] {
      assert ReadStep(incoming) == (Ready([]), incoming);
    }
  }

  /** Framing round trip: a sender's framed lines followed by a partial line, all of
      it already in the read buffer, decode to exactly those lines, leaving the
      partial line unread; the stream then waits for more, or, with the socket
      closed, ends. */
  lemma {:induction false} DecodeFramed(lines: seq<Bytes>, partial: Bytes, incoming: seq<ReadEvent>)
    requires forall i :: 0 <= i < |lines| ==> HasNoCrLf(lines[i])
    requires HasNoCrLf(partial)
    requires incoming == [] || incoming == [Data([])]
    ensures DecodeAll(Framed(lines) + partial, incoming)
         == Decoded(lines, if incoming == [] then NotReady else Ready(()), partial, incoming)
  {
    var buf := Framed(lines) + partial;
    if lines == [] {
      assert buf == partial;
      IdlePollWithoutLine(buf, incoming);
      DecodeAllStep(buf, incoming);
    } else {
      var rest := Framed(lines[1..]) + partial;
      assert buf == lines[0] + CRLF + rest;
      IdlePollWithLine(lines[0], rest, incoming);
      DecodeAllStep(buf, incoming);
      DecodeFramed(lines[1..], partial, incoming);
      assert [lines[0]] + lines[1..] == lines;
    }
  }

  /** With nothing more to read and no terminator buffered, a poll waits, or, with
      the socket closed, ends the stream. */
  lemma IdlePollWithoutLine(buf: Bytes, incoming: seq<ReadEvent>)
    requires HasNoCrLf(buf)
    requires incoming == [] || incoming == [Data([])]
    ensures NextLine(buf, incoming) == Polled(if incoming == [] then NotReady else Ready(None), buf, incoming)
  {
    FillWhenIdle(buf, incoming);
  }

  /** With nothing more to read and a whole line buffered, a poll gives that line. */
  lemma IdlePollWithLine(line: Bytes, rest: Bytes, incoming: seq<ReadEvent>)
    requires HasNoCrLf(line)
    requires incoming == [] || incoming == [Data([])]
    ensures NextLine(line + CRLF + rest, incoming) == Polled(Ready(Some(line)), rest, incoming)
  {
    FillWhenIdle(line + CRLF + rest, incoming);
    SplitLineUnique(line, rest);
  }

  /** Read events that each carry some bytes: a sender's data, however it was cut
      into chunks on the way. */
  predicate AllChunks(chunks: seq<ReadEvent>) {
    forall i :: 0 <= i < |chunks| ==> chunks[i].Data? && chunks[i].bytes != []
  }

  /** Filling reads every chunk available: it ends as if their bytes had been in
      the buffer all along. */
  lemma {:induction false} FillChunks(rd: Bytes, chunks: seq<ReadEvent>, idle: seq<ReadEvent>)
    requires AllChunks(chunks)
    requires idle == [] || idle == [Data([])]
    ensures Fill(rd, chunks + idle) == Fill(rd + DataOf(chunks), idle)
    decreases |chunks|
  {
    if chunks == [] {
      assert chunks + idle == idle;
      assert rd + DataOf(chunks) == rd;
    } else {
      var c := chunks[0].bytes;
      calc {
        Fill(rd, chunks + idle);
      == { FillReadsChunk(rd, chunks + idle);
           assert (chunks + idle)[1..] == chunks[1..] + idle; }
        Fill(rd + c, chunks[1..] + idle);
      == { assert AllChunks(chunks[1..]) by {
             forall i | 0 <= i < |chunks[1..]| ensures chunks[1..][i].Data? && chunks[1..][i].bytes != [] {
               assert chunks[1..][i] == chunks[i + 1];
             }
           }
           FillChunks(rd + c, chunks[1..], idle); }
        Fill(rd + c + DataOf(chunks[1..]), idle);
      == { assert rd + c + DataOf(chunks[1..]) == rd + DataOf(chunks); }
        Fill(rd + DataOf(chunks), idle);
      }
    }
  }

  /** A chunk of data is read into the buffer and filling goes on. */
  lemma FillReadsChunk(rd: Bytes, incoming: seq<ReadEvent>)
    requires incoming != [] && incoming[0].Data? && incoming[0].bytes != []
    ensures Fill(rd, incoming) == Fill(rd + incoming[0].bytes, incoming[1..])
  {
  }

  /** Decoding does not depend on how the available bytes were cut into chunks. */
  lemma DecodeAllOfChunks(rd: Bytes, chunks: seq<ReadEvent>, idle: seq<ReadEvent>)
    requires AllChunks(chunks)
    requires idle == [] || idle == [Data([])]
    ensures DecodeAll(rd, chunks + idle) == DecodeAll(rd + DataOf(chunks), idle)
  {
    FillChunks(rd, chunks, idle);
    assert NextLine(rd, chunks + idle) == NextLine(rd + DataOf(chunks), idle);
    DecodeAllStep(rd, chunks + idle);
    DecodeAllStep(rd + DataOf(chunks), idle);
  }

  /** Framing round trip over the socket: a fresh codec whose peer has sent the
      framed lines and a partial line, in chunks of any size, decodes exactly
      those lines and keeps the partial line; it then waits for more, or, once
      the socket has closed, ends. */
  lemma DecodeFramedChunks(lines: seq<Bytes>, partial: Bytes, chunks: seq<ReadEvent>, idle: seq<ReadEvent>)
    requires forall i :: 0 <= i < |lines| ==> HasNoCrLf(lines[i])
    requires HasNoCrLf(partial)
    requires AllChunks(chunks) && DataOf(chunks) == Framed(lines) + partial
    requires idle == [] || idle == [Data([])]
    ensures DecodeAll([], chunks + idle)
         == Decoded(lines, if idle == [] then NotReady else Ready(()), partial, idle)
  {
    DecodeAllOfChunks([], chunks, idle);
    assert [] + DataOf(chunks) == Framed(lines) + partial;
    DecodeFramed(lines, partial, idle);
  }

  /** Line based codec over a socket: `rd` holds bytes read but not yet returned as
      a line, `wr` bytes staged for writing. */
  class Lines {
    const socket: TcpStream
    var rd: Bytes
    var wr: Bytes

    constructor (socket: TcpStream)
      ensures this.socket == socket && rd == [] && wr == []
    {
      this.socket := socket;
      rd := [];
      wr := [];
    }

    /** Stages `line` for writing; nothing touches the socket. */
    method Buffer(line: Bytes)
      modifies this
      ensures wr == old(wr) + line
      ensures rd == old(rd)
    {
      wr := wr + line;
    }

    /** Writes staged bytes until none are left or the socket stops taking them;
      whatever was not written stays staged, in order. */
    method PollFlush() returns (p: Poll<()>)
      modifies this, socket
      ensures var f := Flush(old(wr), old(socket.writes));
        p == f.status && wr == f.wr && socket.writes == f.writes
        && socket.delivered == old(socket.delivered) + f.written
      ensures rd == old(rd) && socket.incoming == old(socket.incoming)
    {
      ghost var f0 := Flush(wr, socket.writes);
      ghost var written: Bytes := [];
      assert written + f0.written == f0.written;
      while wr != []
        invariant FlushesTo(f0, written, wr, socket.writes)
        invariant socket.delivered == old(socket.delivered) + written
        invariant rd == old(rd) && socket.incoming == old(socket.incoming)
        decreases |wr|
      {
        ghost var wr0, writes0 := wr, socket.writes;
        var r := socket.PollWrite(wr);
        FlushStep(f0, written, wr0, writes0);
        match r {
          case Ready(n) =>
            if n == 0 {
              // a write of a non-empty buffer must take at least one byte
              return Failed(ZeroLengthWrite);
            }
            wr := wr[n..];
            written := written + wr0[..n];
          case NotReady =>
            return NotReady;
          case Failed(e) =>
            return Failed(e);
        }
      }
      FlushStep(f0, written, wr, socket.writes);
      return Ready(());
    }

    /** Reads from the socket into `rd` until it would block (`NotReady`) or has
      closed (`Ready(())`). */
    method FillReadBuf() returns (p: Poll<()>)
      modifies this, socket
      ensures Filled(p, rd, socket.incoming) == Fill(old(rd), old(socket.incoming))
      ensures wr == old(wr) && socket.writes == old(socket.writes)
      ensures socket.delivered == old(socket.delivered)
    {
      while true
        invariant Fill(rd, socket.incoming) == Fill(old(rd), old(socket.incoming))
        invariant wr == old(wr) && socket.writes == old(socket.writes)
        invariant socket.delivered == old(socket.delivered)
        decreases |socket.incoming|
      {
        var r := socket.ReadBuf();
        match r {
          case Ready(bytes) =>
            if bytes == [] {
              return Ready(());
            }
            rd := rd + bytes;
          case NotReady =>
            return NotReady;
          case Failed(e) =>
            return Failed(e);
        }
      }
    }

    /** The next line of the stream, without its terminator. */
    method Poll() returns (p: Poll<Option<Bytes>>)
      modifies this, socket
      ensures Polled(p, rd, socket.incoming) == NextLine(old(rd), old(socket.incoming))
      ensures wr == old(wr) && socket.writes == old(socket.writes)
      ensures socket.delivered == old(socket.delivered)
    {
      var closed := FillReadBuf();
      if closed.Failed? {
        return Failed(closed.error);
      }
      var pos := FindCrLf(rd);
      if pos.Some? {
        var line := rd[..pos.value + 2];
        rd := rd[pos.value + 2..];
        line := line[..pos.value];
        return Ready(Some(line));
      }
      if closed.Ready? {
        return Ready(None);
      }
      return NotReady;
    }
  }
}
