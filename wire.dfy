/** Bytes on the wire and the line framing of the relay: a line is the bytes up to
    the first CR LF, and a relayed message is `name ": " line CR LF`. */
module Wire {

  /** One octet of a TCP byte stream. */
  newtype byte = x: int | 0 <= x < 256

  type Bytes = seq<byte>

  datatype Option<T> = None | Some(value: T)

  const CR: byte := 13
  const LF: byte := 10

  /** The two-byte line terminator. */
  const CRLF: Bytes := [CR, LF]

  /** The separator put between a peer's name and its message, the bytes of ": ". */
  const NAME_SEP: Bytes := [58, 32]

  /** A terminator starts at index `i` of `s`. */
  predicate CrLfAt(s: Bytes, i: int) {
    0 <= i && i + 1 < |s| && s[i] == CR && s[i + 1] == LF
  }

  /** No terminator occurs anywhere in `s`. */
  predicate HasNoCrLf(s: Bytes) {
    forall i :: 0 <= i < |s| ==> !CrLfAt(s, i)
  }

  /** The scan over the two-byte windows of `s`, starting at window `from`:
      the index of the first window that is CR LF. */
  function FindCrLfFrom(s: Bytes, from: nat): (r: Option<nat>)
    requires from <= |s|
    decreases |s| - from
    ensures r.Some? ==> from <= r.value && CrLfAt(s, r.value)
    ensures forall j :: from <= j < (if r.Some? then r.value else |s|) ==> !CrLfAt(s, j)
  {
    if from + 1 >= |s| then None
    else if s[from] == CR && s[from + 1] == LF then Some(from)
    else FindCrLfFrom(s, from + 1)
  }

  /** The position of the first CR LF in `s`, if there is one. */
  function FindCrLf(s: Bytes): (r: Option<nat>)
    ensures r.Some? ==> CrLfAt(s, r.value) && forall j :: 0 <= j < r.value ==> !CrLfAt(s, j)
    ensures r.None? <==> HasNoCrLf(s)
  {
    FindCrLfFrom(s, 0)
  }

  /** Splits off the first complete line of `buf`: the bytes before the first
      CR LF, with the terminator dropped, and the bytes after it. */
  function SplitLine(buf: Bytes): (r: Option<(Bytes, Bytes)>)
    ensures r.Some? ==> buf == r.value.0 + CRLF + r.value.1 && HasNoCrLf(r.value.0)
    ensures r.None? <==> HasNoCrLf(buf)
  {
    match FindCrLf(buf)
    case Some(pos) =>
      var line := buf[..pos];
      assert HasNoCrLf(line) by {
        forall j | 0 <= j < |line| ensures !CrLfAt(line, j) {
          if CrLfAt(line, j) { assert CrLfAt(buf, j); }
        }
      }
      assert buf == line + CRLF + buf[pos + 2..];
      Some((line, buf[pos + 2..]))
    case None => None
  }

  /** A line without a terminator, followed by CR LF, is exactly the line that
      SplitLine finds: the framing has only one reading. */
  lemma SplitLineUnique(line: Bytes, rest: Bytes)
    requires HasNoCrLf(line)
    ensures SplitLine(line + CRLF + rest) == Some((line, rest))
  {
    var buf := line + CRLF + rest;
    assert CrLfAt(buf, |line|);
    forall j | 0 <= j < |line| ensures !CrLfAt(buf, j) {
      if j + 1 < |line| {
        assert !CrLfAt(line, j);
      } else {
        assert buf[j + 1] == CR;
      }
    }
    var pos := FindCrLf(buf);
    assert pos.Some?;
    assert pos.value == |line|;
    assert buf[..|line|] == line;
    assert buf[|line| + 2..] == rest;
  }

  /** Two terminator-free byte strings stay terminator-free when joined, unless the
      first ends in CR and the second starts with LF. */
  lemma NoCrLfJoin(a: Bytes, b: Bytes)
    requires HasNoCrLf(a) && HasNoCrLf(b)
    requires a == [] || b == [] || a[|a| - 1] != CR || b[0] != LF
    ensures HasNoCrLf(a + b)
  {
    var s := a + b;
    forall i | 0 <= i < |s| ensures !CrLfAt(s, i) {
      if i + 1 < |a| {
        assert !CrLfAt(a, i);
      } else if i >= |a| {
        assert !CrLfAt(b, i - |a|);
      }
    }
  }

  /** The message relayed for a line received from a peer: its name, ": ", the line
      and a fresh terminator. */
  function FormatMessage(name: Bytes, message: Bytes): Bytes {
    name + NAME_SEP + message + CRLF
  }

  /** A relayed message is, to the peer that reads it with the same framing, one
      single line: the name, ": " and the original line. */
  lemma FormattedMessageIsOneLine(name: Bytes, message: Bytes, rest: Bytes)
    requires HasNoCrLf(name) && HasNoCrLf(message)
    ensures SplitLine(FormatMessage(name, message) + rest) == Some((name + NAME_SEP + message, rest))
  {
    NamedLineHasNoCrLf(name, message);
    SplitLineUnique(name + NAME_SEP + message, rest);
    assert FormatMessage(name, message) + rest == (name + NAME_SEP + message) + CRLF + rest;
  }

  /** A name and a line without terminators, joined by ": ", have none either. */
  lemma NamedLineHasNoCrLf(name: Bytes, message: Bytes)
    requires HasNoCrLf(name) && HasNoCrLf(message)
    ensures HasNoCrLf(name + NAME_SEP + message)
  {
    assert HasNoCrLf(NAME_SEP) by {
      forall i | 0 <= i < |NAME_SEP| ensures !CrLfAt(NAME_SEP, i) {}
    }
    NoCrLfJoin(name, NAME_SEP);
    NoCrLfJoin(name + NAME_SEP, message);
  }

  /** The bytes of an ASCII string. */
  function Ascii(s: string): Bytes
    requires forall i :: 0 <= i < |s| ==> s[i] as int < 256
  {
    seq(|s|, i requires 0 <= i < |s| => s[i] as int as byte)
  }

  /** The worked example of the relay: `alice` saying `hello there`. */
  lemma AliceSaysHelloThere()
    ensures FormatMessage(Ascii("alice"), Ascii("hello there")) == Ascii("alice: hello there\r\n")
  {
  }

  /** All lines, each followed by its terminator: what a sender writes to frame them. */
  function Framed(lines: seq<Bytes>): Bytes {
    if lines == [] then [] else lines[0] + CRLF + Framed(lines[1..])
  }

  /** The concatenation of a sequence of sequences, in order. */
  function Concat<T>(ss: seq<seq<T>>): seq<T> {
    if ss == [] then [] else ss[0] + Concat(ss[1..])
  }

  lemma {:induction false} ConcatAppend<T>(a: seq<seq<T>>, b: seq<seq<T>>)
    ensures Concat(a + b) == Concat(a) + Concat(b)
  {
    if a == [] {
      assert a + b == b;
    } else {
      assert (a + b)[1..] == a[1..] + b;
      ConcatAppend(a[1..], b);
    }
  }
}
