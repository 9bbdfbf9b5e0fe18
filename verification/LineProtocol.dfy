/** Reading newline-delimited messages of bounded length from a stream that arrives in chunks. */
module LineProtocol {
  import opened Bits
  import opened Options

  const NEWLINE: byte := 0x0a

  datatype ReadError = Unterminated | TooLong | Io

  datatype ReadResult = Line(bytes: seq<byte>) | EndOfStream | Failure(error: ReadError)

  // ----- What one read means, on the whole stream -----

  /** The position of the first newline, or the length when there is none. */
  function FirstNewline(s: seq<byte>): (k: nat)
    ensures k <= |s|
    ensures k < |s| ==> s[k] == NEWLINE
    ensures NEWLINE !in s[..k]
  {
    if s == [] || s[0] == NEWLINE then 0
    else
      var k := 1 + FirstNewline(s[1..]);
      assert s[..k] == [s[0]] + s[1..][..k - 1];
      k
  }

  /**
   * The outcome of a read of a stream that ends, or fails, after the bytes `s`. It depends on nothing
   * else: not on where the stream was cut.
   */
  function Outcome(s: seq<byte>, fails: bool, maximum: nat): ReadResult {
    var k := FirstNewline(s);
    if k < |s| then
      if k + 1 <= maximum then Line(s[..k]) else Failure(TooLong)
    else if s != [] && |s| >= maximum then Failure(TooLong)
    else if fails then Failure(Io)
    else if s == [] then EndOfStream
    else Failure(Unterminated)
  }

  lemma {:induction false} FirstNewlineConcat(a: seq<byte>, b: seq<byte>)
    ensures FirstNewline(a + b) == if FirstNewline(a) < |a| then FirstNewline(a) else |a| + FirstNewline(b)
    decreases |a|
  {
    if a == [] {
      assert a + b == b;
    } else if a[0] != NEWLINE {
      assert (a + b)[1..] == a[1..] + b;
      FirstNewlineConcat(a[1..], b);
    }
  }

  lemma {:induction false} FirstNewlineIs(s: seq<byte>, k: nat)
    requires k < |s| && s[k] == NEWLINE && NEWLINE !in s[..k]
    ensures FirstNewline(s) == k
    decreases k
  {
    if k > 0 {
      assert s[..k][0] == s[0];
      assert s[1..][..k - 1] == s[..k][1..];
      FirstNewlineIs(s[1..], k - 1);
    }
  }

  lemma NoNewline(s: seq<byte>)
    requires NEWLINE !in s
    ensures FirstNewline(s) == |s|
  {
  }

  /** Where the first newline of a stream lies, of which a newline-free part has been taken already. */
  lemma NewlineBehind(line: seq<byte>, available: seq<byte>, behind: seq<byte>)
    requires NEWLINE !in line
    ensures var n := FirstNewline(available);
      FirstNewline(line + available + behind)
        == |line| + if n < |available| then n else |available| + FirstNewline(behind)
  {
    NoNewline(line);
    FirstNewlineConcat(line, available + behind);
    FirstNewlineConcat(available, behind);
    assert line + available + behind == line + (available + behind);
  }

  lemma DecidedByChunk(line: seq<byte>, available: seq<byte>, behind: seq<byte>, fails: bool, maximum: nat)
    requires NEWLINE !in line && available != []
    ensures var n, outcome := FirstNewline(available), Outcome(line + available + behind, fails, maximum);
      && (n < |available| ==>
            outcome == if |line| + n + 1 > maximum then Failure(TooLong) else Line(line + available[..n]))
      && (n == |available| && |line| + |available| >= maximum ==> outcome == Failure(TooLong))
  {
    hide FirstNewline;
    var n, s := FirstNewline(available), line + available + behind;
    NewlineBehind(line, available, behind);
    if n < |available| {
      assert s[..|line| + n] == line + available[..n];
    }
  }

  lemma DecidedByEnd(line: seq<byte>, fails: bool, maximum: nat)
    requires NEWLINE !in line && (line == [] || |line| < maximum)
    ensures Outcome(line, fails, maximum)
         == if fails then Failure(Io) else if line == [] then EndOfStream else Failure(Unterminated)
  {
    NoNewline(line);
  }

  // ----- The buffered reader -----

  /** A source that delivers its bytes in chunks of its own choosing, then ends or fails. */
  class BufReader {
    var chunks: seq<seq<byte>>
    const fails: bool

    ghost predicate Valid()
      reads this
    {
      [] !in chunks
    }

    ghost function Rest(): seq<byte>
      reads this
    {
      Concat(chunks)
    }

    constructor (chunks: seq<seq<byte>>, fails: bool)
      requires [] !in chunks
      ensures Valid() && this.chunks == chunks && this.fails == fails
    {
      this.chunks := chunks;
      this.fails := fails;
    }

    /** What is buffered; empty at the end of the stream, nothing when the source failed. */
    method FillBuf() returns (available: Option<seq<byte>>)
      requires Valid()
      ensures chunks != [] ==> available == Some(chunks[0])
      ensures chunks == [] ==> available == if fails then None else Some([])
      ensures available.None? || available.value == [] ==> Rest() == []
      ensures chunks != [] ==> Rest() == chunks[0] + Concat(chunks[1..])
    {
      if chunks != [] {
        assert chunks[0] in chunks;
        return Some(chunks[0]);
      }
      available := if fails then None else Some([]);
    }

    method Consume(count: nat)
      requires Valid() && chunks != [] && count <= |chunks[0]|
      modifies this`chunks
      ensures Valid() && Rest() == old(Rest())[count..]
      ensures count == |old(chunks[0])| ==> chunks == old(chunks)[1..]
    {
      if count == |chunks[0]| {
        chunks := chunks[1..];
      } else {
        ghost var tail := chunks[1..];
        chunks := [chunks[0][count..]] + chunks[1..];
        assert chunks[1..] == tail;
        forall c | c in chunks
          ensures c != []
        {
          assert c == chunks[0] || c in tail;
        }
      }
    }
  }

  method Position(bytes: seq<byte>) returns (index: nat)
    ensures index == FirstNewline(bytes)
  {
    index := 0;
    while index < |bytes| && bytes[index] != NEWLINE
      invariant index <= |bytes|
      invariant NEWLINE !in bytes[..index]
    {
      assert bytes[..index + 1] == bytes[..index] + [bytes[index]];
      index := index + 1;
    }
    if index < |bytes| {
      FirstNewlineIs(bytes, index);
    } else {
      assert bytes[..index] == bytes;
      NoNewline(bytes);
    }
  }

  /**
   * However the stream is cut, the result is the outcome on the whole stream. A line leaves exactly the
   * bytes behind its newline; and at no time are `maximum` or more bytes held, save an empty buffer.
   */
  method ReadBoundedLine(reader: BufReader, maximum: nat) returns (result: ReadResult)
    requires reader.Valid()
    modifies reader`chunks
    ensures reader.Valid()
    ensures result == Outcome(old(reader.Rest()), reader.fails, maximum)
    ensures result.Line? ==> reader.Rest() == old(reader.Rest())[|result.bytes| + 1..]
  {
    hide FirstNewline, Outcome, Concat;
    ghost var stream := reader.Rest();
    var line: seq<byte> := [];
    while true
      invariant reader.Valid()
      invariant stream == line + reader.Rest()
      invariant NEWLINE !in line
      invariant line == [] || |line| < maximum
      decreases |reader.chunks|
    {
      var filled := reader.FillBuf();
      if filled.None? || filled.value == [] {
        assert stream == line;
        DecidedByEnd(line, reader.fails, maximum);
        return if filled.None? then Failure(Io) else if line == [] then EndOfStream else Failure(Unterminated);
      }
      var available := filled.value;
      ghost var behind := Concat(reader.chunks[1..]);
      assert stream == line + available + behind;
      DecidedByChunk(line, available, behind, reader.fails, maximum);
      assert stream == line + (available + behind);
      var newline := Position(available);
      if newline < |available| {
        if |line| + newline + 1 > maximum {
          return Failure(TooLong);
        }
        Behind(stream, line, available + behind, newline + 1);
        line := line + available[..newline];
        reader.Consume(newline + 1);
        return Line(line);
      }
      if |line| + |available| >= maximum {
        return Failure(TooLong);
      }
      assert available[..newline] == available;
      line := line + available;
      reader.Consume(|available|);
    }
  }

  lemma Behind(stream: seq<byte>, line: seq<byte>, rest: seq<byte>, count: nat)
    requires stream == line + rest && count <= |rest|
    ensures stream[|line| + count..] == rest[count..]
  {
  }

  // ----- Reading inverts writing -----

  function Join(messages: seq<seq<byte>>): seq<byte> {
    if messages == [] then [] else messages[0] + [NEWLINE] + Join(messages[1..])
  }

  ghost predicate Sendable(message: seq<byte>, maximum: nat) {
    NEWLINE !in message && |message| + 1 <= maximum
  }

  /** The results of reading until the stream yields no further line. */
  function ReadAll(s: seq<byte>, maximum: nat): (seq<seq<byte>>, ReadResult)
    decreases |s|
  {
    match Outcome(s, false, maximum)
    case Line(bytes) =>
      var rest := ReadAll(s[|bytes| + 1..], maximum);
      ([bytes] + rest.0, rest.1)
    case other => ([], other)
  }

  /** A line is accepted exactly when it and its newline fit the bound; the rest is left unread. */
  lemma LineAtHead(message: seq<byte>, rest: seq<byte>, fails: bool, maximum: nat)
    requires NEWLINE !in message
    ensures Outcome(message + [NEWLINE] + rest, fails, maximum)
         == if |message| + 1 <= maximum then Line(message) else Failure(TooLong)
  {
    var s := message + [NEWLINE] + rest;
    assert s[..|message|] == message;
    FirstNewlineIs(s, |message|);
  }

  /**
   * The bound is enforced as early as it can be, and no earlier: bytes without a newline are refused as too
   * long exactly when no bytes behind them could make them a line.
   */
  lemma RefusedAsSoonAsHopeless(s: seq<byte>, fails: bool, maximum: nat)
    requires NEWLINE !in s && s != []
    ensures Outcome(s, fails, maximum) == Failure(TooLong)
       <==> forall t: seq<byte> :: !Outcome(s + t, fails, maximum).Line?
  {
    NoNewline(s);
    forall t: seq<byte>
      ensures Outcome(s + t, fails, maximum).Line? ==> |s| < maximum
    {
      FirstNewlineConcat(s, t);
    }
    LineAtHead(s, [], fails, maximum);
    assert s + [NEWLINE] + [] == s + [NEWLINE];
  }

  /** A stream that stops short of a newline, within the bound, says how it stopped. */
  lemma HowItStops(s: seq<byte>, maximum: nat)
    requires NEWLINE !in s && |s| < maximum
    ensures Outcome(s, true, maximum) == Failure(Io)
    ensures Outcome(s, false, maximum) == if s == [] then EndOfStream else Failure(Unterminated)
  {
    NoNewline(s);
  }

  /** Reading line by line gives back the messages that were joined, in order, and then the end. */
  lemma {:induction false} ReadAllInvertsJoin(messages: seq<seq<byte>>, maximum: nat)
    requires forall m <- messages :: Sendable(m, maximum)
    ensures ReadAll(Join(messages), maximum) == (messages, EndOfStream)
    decreases |messages|
  {
    hide Outcome;
    if messages == [] {
      NothingToRead(maximum);
    } else {
      var m := messages[0];
      assert m in messages && forall x <- messages[1..] :: x in messages;
      LineAtHead(m, Join(messages[1..]), false, maximum);
      assert (m + [NEWLINE] + Join(messages[1..]))[|m| + 1..] == Join(messages[1..]);
      ReadAllInvertsJoin(messages[1..], maximum);
      assert messages == [m] + messages[1..];
    }
  }

  lemma NothingToRead(maximum: nat)
    ensures Outcome([], false, maximum) == EndOfStream
  {
  }
}
