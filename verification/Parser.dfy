/**
 * What a byte stream means: a greedy parser over the whole, unbounded stream. It knows no buffer and
 * is the reference the bounded decoder is proved against.
 */
module Parser {
  import opened Bits
  import opened Crc
  import opened Protocol

  /** At the head of a stream the parser waits for more bytes, or drops some and perhaps signals. */
  datatype Decision = Wait | Drop(count: nat, signals: seq<Signal>)

  function LengthAt(s: seq<byte>): uint16
    requires |s| >= HEADER
  {
    U16(s[4], s[5])
  }

  predicate ChecksumHolds(s: seq<byte>, n: nat)
    requires n + CHECKSUM <= |s|
  {
    U16(s[n], s[n + 1]) == Crc16(s[..n])
  }

  function FrameAt(s: seq<byte>): Frame
    requires |s| >= HEADER && |s| >= HEADER + LengthAt(s)
  {
    Frame(s[2], s[3], U16(s[6], s[7]), s[HEADER..HEADER + LengthAt(s)])
  }

  predicate MagicAt(s: seq<byte>, i: nat) {
    i + 1 < |s| && s[i] == MAGIC0 && s[i + 1] == MAGIC1
  }

  function Head(s: seq<byte>): (step: Decision)
    ensures step.Drop? ==> 0 < step.count <= |s|
    ensures step.Wait? ==> |s| < MAX_FRAME
  {
    if s == [] then Wait
    else if s == [MAGIC0] then Wait
    else if !MagicAt(s, 0) then Drop(1, [])
    else if |s| < HEADER then Wait
    else if LengthAt(s) > MAX_PAYLOAD then Drop(1, [Failed(PayloadTooLarge)])
    else
      var end := HEADER + LengthAt(s);
      if |s| < end + CHECKSUM then Wait
      else if !ChecksumHolds(s, end) then Drop(1, [Failed(ChecksumMismatch)])
      else if s[2] != PROTOCOL_VERSION then Drop(end + CHECKSUM, [Failed(UnsupportedVersion)])
      else Drop(end + CHECKSUM, [Judge(FrameAt(s))])
  }

  datatype Parsed = Parsed(signals: seq<Signal>, residue: seq<byte>)

  function Parse(s: seq<byte>): Parsed
    decreases |s|
  {
    match Head(s)
    case Wait => Parsed([], s)
    case Drop(count, signals) => Before(signals, Parse(s[count..]))
  }

  function Before(signals: seq<Signal>, p: Parsed): Parsed {
    Parsed(signals + p.signals, p.residue)
  }

  lemma ParseStep(s: seq<byte>)
    ensures Head(s).Wait? ==> Parse(s) == Parsed([], s)
    ensures Head(s).Drop? ==> Parse(s) == Before(Head(s).signals, Parse(s[Head(s).count..]))
  {
  }

  lemma BeforeBefore(a: seq<Signal>, b: seq<Signal>, p: Parsed)
    ensures Before(a, Before(b, p)) == Before(a + b, p)
  {
    assert a + (b + p.signals) == (a + b) + p.signals;
  }

  // ----- Reading a stream in pieces -----

  /** What the head decides, later bytes do not change. */
  lemma HeadIsDecided(s: seq<byte>, t: seq<byte>)
    requires Head(s).Drop?
    ensures Head(s + t) == Head(s)
  {
    hide Crc16, Judge;
    if MagicAt(s, 0) && LengthAt(s) <= MAX_PAYLOAD {
      var end := HEADER + LengthAt(s);
      assert (s + t)[..end] == s[..end];
      assert (s + t)[HEADER..end] == s[HEADER..end];
    }
  }

  /**
   * Parsing a stream is parsing its first part and then what that left over followed by the rest, so
   * where a stream is cut is invisible.
   */
  lemma {:induction false} ParseConcat(s: seq<byte>, t: seq<byte>)
    ensures Parse(s + t) == Before(Parse(s).signals, Parse(Parse(s).residue + t))
    decreases |s|
  {
    hide Head, Parse;
    var head := Head(s);
    ParseStep(s);
    if head.Drop? {
      var rest := s[head.count..];
      HeadIsDecided(s, t);
      ParseStep(s + t);
      assert (s + t)[head.count..] == rest + t;
      ParseConcat(rest, t);
      BeforeBefore(head.signals, Parse(rest).signals, Parse(Parse(rest).residue + t));
    } else {
      BeforeNothing(Parse(s + t));
    }
  }

  lemma BeforeNothing(p: Parsed)
    ensures Before([], p) == p
  {
  }

  /** Whatever the stream, less than one whole frame is ever left over, and parsing it again waits. */
  lemma {:induction false} ResidueIsShort(s: seq<byte>)
    ensures Head(Parse(s).residue).Wait? && |Parse(s).residue| < MAX_FRAME
    ensures Parse(Parse(s).residue) == Parsed([], Parse(s).residue)
    decreases |s|
  {
    hide Head;
    if Head(s).Drop? {
      ResidueIsShort(s[Head(s).count..]);
    }
  }

  /** Only frames that passed every check are ever handed over, and no overflow is ever reported. */
  lemma {:induction false} OnlyAcceptedFrames(s: seq<byte>)
    ensures forall x <- Parse(s).signals :: x.Decoded? ==> Accepted(x.frame)
    ensures Failed(BufferOverflow) !in Parse(s).signals
    decreases |s|
  {
    hide Crc16;
    if Head(s).Drop? {
      OnlyAcceptedFrames(s[Head(s).count..]);
    }
  }

  /** Parsing chunk by chunk, keeping only the residue in between. */
  function ParseChunks(held: seq<byte>, chunks: seq<seq<byte>>): Parsed
    decreases |chunks|
  {
    if chunks == [] then Parsed([], held)
    else
      var p := Parse(held + chunks[0]);
      Before(p.signals, ParseChunks(p.residue, chunks[1..]))
  }

  /** Every way of cutting a stream into chunks gives the signals and the residue of the whole stream. */
  lemma {:induction false} ChunkingIsInvisible(held: seq<byte>, chunks: seq<seq<byte>>)
    requires Head(held).Wait?
    ensures ParseChunks(held, chunks) == Parse(held + Concat(chunks))
    decreases |chunks|
  {
    hide Head;
    if chunks == [] {
      assert held + Concat(chunks) == held;
    } else {
      var p := Parse(held + chunks[0]);
      ResidueIsShort(held + chunks[0]);
      ChunkingIsInvisible(p.residue, chunks[1..]);
      ParseConcat(held + chunks[0], Concat(chunks[1..]));
      assert held + Concat(chunks) == (held + chunks[0]) + Concat(chunks[1..]);
    }
  }

  // ----- Searching for the magic -----

  lemma {:induction false} SkipToMagic(s: seq<byte>, k: nat)
    requires k < |s|
    requires forall i | 0 <= i < k :: !MagicAt(s, i)
    ensures Parse(s) == Parse(s[k..])
    decreases k
  {
    if k == 0 {
      assert s[0..] == s;
    } else {
      assert s != [MAGIC0] && !MagicAt(s, 0);
      forall i | 0 <= i < k - 1
        ensures !MagicAt(s[1..], i)
      {
        assert !MagicAt(s, i + 1);
      }
      SkipToMagic(s[1..], k - 1);
      assert s[1..][k - 1..] == s[k..];
    }
  }

  lemma NothingWithoutMagic(s: seq<byte>)
    requires forall i | 0 <= i < |s| :: !MagicAt(s, i)
    ensures Parse(s) == Parsed([], if s != [] && s[|s| - 1] == MAGIC0 then [MAGIC0] else [])
  {
    if s != [] {
      SkipToMagic(s, |s| - 1);
      assert s[|s| - 1..] == [s[|s| - 1]];
      if s[|s| - 1] != MAGIC0 {
        assert [s[|s| - 1]][1..] == [];
      }
    }
  }

  /** What is left of bytes without a magic is settled: at most the first half of one. */
  lemma SettledWithoutMagic(s: seq<byte>)
    requires forall i | 0 <= i < |s| :: !MagicAt(s, i)
    ensures var rest := if s != [] && s[|s| - 1] == MAGIC0 then [MAGIC0] else [];
      Parse(s) == Parsed([], rest) && Parse(rest) == Parsed([], rest)
  {
    hide Parse, Head, MagicAt;
    NothingWithoutMagic(s);
    ResidueIsShort(s);
  }

  lemma MagicOfRest(s: seq<byte>, i: nat)
    requires i <= |s|
    ensures MagicAt(s[i..], 0) == MagicAt(s, i)
  {
  }

  // ----- Encoded frames -----

  lemma SealedHead(version: byte, sequence: uint16, messageType: byte, payload: seq<byte>, t: seq<byte>)
    requires |payload| <= MAX_PAYLOAD
    ensures var bytes := Sealed(CoveredWith(version, sequence, messageType, payload));
      Head(bytes + t) == Drop(|bytes|,
        if version == PROTOCOL_VERSION then [Judge(Frame(version, messageType, sequence, payload))]
        else [Failed(UnsupportedVersion)])
  {
    hide Crc16, Judge, Low, High, U16;
    var covered := CoveredWith(version, sequence, messageType, payload);
    var s := Sealed(covered) + t;
    var end := HEADER + |payload|;
    U16RoundTrip(|payload|, 0, 0);
    U16RoundTrip(sequence, 0, 0);
    U16RoundTrip(Crc16(covered), 0, 0);
    assert LengthAt(s) == |payload|;
    assert s[..end] == covered;
    assert s[HEADER..end] == payload by { assert s[HEADER..end] == covered[HEADER..]; }
    assert FrameAt(s) == Frame(version, messageType, sequence, payload);
    assert ChecksumHolds(s, end);
  }

  /** Decoding inverts encoding, whatever follows on the stream. */
  lemma ParseEncoded(sequence: uint16, messageType: byte, payload: seq<byte>, t: seq<byte>)
    requires |payload| <= MAX_PAYLOAD
    ensures Parse(EncodeFrame(sequence, messageType, payload) + t)
         == Before([Judge(Frame(PROTOCOL_VERSION, messageType, sequence, payload))], Parse(t))
  {
    hide Head, EncodeFrame;
    var bytes := EncodeFrame(sequence, messageType, payload);
    SealedHead(PROTOCOL_VERSION, sequence, messageType, payload, t);
    EncodedIsSealed(sequence, messageType, payload);
    assert (bytes + t)[|bytes|..] == t;
  }

  lemma EncodedIsSealed(sequence: uint16, messageType: byte, payload: seq<byte>)
    requires |payload| <= MAX_PAYLOAD
    ensures EncodeFrame(sequence, messageType, payload)
         == Sealed(CoveredWith(PROTOCOL_VERSION, sequence, messageType, payload))
  {
  }

  /** A frame of any other version is rejected as a whole: nothing in it is ever taken for a frame. */
  lemma ForeignVersionIsSkipped(version: byte, sequence: uint16, messageType: byte, payload: seq<byte>, t: seq<byte>)
    requires version != PROTOCOL_VERSION && |payload| <= MAX_PAYLOAD
    ensures Parse(Sealed(CoveredWith(version, sequence, messageType, payload)) + t)
         == Before([Failed(UnsupportedVersion)], Parse(t))
  {
    hide Head, Sealed, CoveredWith;
    var bytes := Sealed(CoveredWith(version, sequence, messageType, payload));
    SealedHead(version, sequence, messageType, payload, t);
    assert (bytes + t)[|bytes|..] == t;
  }

  /** A frame that has not all arrived is waited for, byte by byte, in silence. */
  lemma UnfinishedFrameIsKept(version: byte, sequence: uint16, messageType: byte, payload: seq<byte>, k: nat)
    requires |payload| <= MAX_PAYLOAD
    requires k < |Sealed(CoveredWith(version, sequence, messageType, payload))|
    ensures var part := Sealed(CoveredWith(version, sequence, messageType, payload))[..k];
      Parse(part) == Parsed([], part)
  {
    hide Crc16, Low, High, U16;
    U16RoundTrip(|payload|, 0, 0);
    var part := Sealed(CoveredWith(version, sequence, messageType, payload))[..k];
    if k >= HEADER {
      assert LengthAt(part) == |payload|;
    }
  }

  /** A header that announces too much is reported at once, and the search goes on at the next byte. */
  lemma OversizeIsSkipped(s: seq<byte>)
    requires |s| >= HEADER && s[0] == MAGIC0 && s[1] == MAGIC1 && U16(s[4], s[5]) > MAX_PAYLOAD
    ensures Parse(s) == Before([Failed(PayloadTooLarge)], Parse(s[1..]))
  {
    hide U16;
  }

  /** So is a frame whose checksum is not the one that belongs to it, once it is all there. */
  lemma MismatchIsSkipped(version: byte, sequence: uint16, messageType: byte, payload: seq<byte>, lo: byte, hi: byte,
                          t: seq<byte>)
    requires |payload| <= MAX_PAYLOAD
    requires var covered := CoveredWith(version, sequence, messageType, payload);
      covered + [lo, hi] != Sealed(covered)
    ensures var s := CoveredWith(version, sequence, messageType, payload) + [lo, hi] + t;
      Parse(s) == Before([Failed(ChecksumMismatch)], Parse(s[1..]))
  {
    hide Crc16, Low, High, U16;
    var covered := CoveredWith(version, sequence, messageType, payload);
    var s := covered + [lo, hi] + t;
    U16RoundTrip(|payload|, lo, hi);
    U16RoundTrip(Crc16(covered), 0, 0);
    assert s[..HEADER + |payload|] == covered;
    assert LengthAt(s) == |payload|;
    assert U16(lo, hi) != Crc16(covered);
  }

  /** Encoding inverts decoding: a frame comes out of the head of a stream only if its encoding lies there. */
  lemma DecodedIsEncoded(s: seq<byte>, n: nat, frame: Frame)
    requires Head(s) == Drop(n, [Decoded(frame)])
    ensures |frame.payload| <= MAX_PAYLOAD
    ensures s[..n] == EncodeFrame(frame.sequence, frame.messageType, frame.payload)
  {
    hide Crc16, Low, High, U16;
    var end := HEADER + LengthAt(s);
    JudgedFrame(FrameAt(s), frame);
    U16RoundTrip(0, s[4], s[5]);
    U16RoundTrip(0, s[6], s[7]);
    U16RoundTrip(0, s[end], s[end + 1]);
    CoveredAt(s, end);
    assert s[..n] == s[..end] + [s[end], s[end + 1]];
  }

  lemma JudgedFrame(frame: Frame, result: Frame)
    requires Judge(frame) == Decoded(result)
    ensures result == frame
  {
  }

  lemma CoveredAt(s: seq<byte>, end: nat)
    requires HEADER <= end <= |s| && end - HEADER <= MAX_PAYLOAD
    requires s[0] == MAGIC0 && s[1] == MAGIC1 && s[2] == PROTOCOL_VERSION && U16(s[4], s[5]) == end - HEADER
    ensures s[..end] == Covered(U16(s[6], s[7]), s[3], s[HEADER..end])
  {
    hide U16, Low, High;
    U16RoundTrip(0, s[4], s[5]);
    U16RoundTrip(0, s[6], s[7]);
    assert s[..HEADER] == [s[0], s[1], s[2], s[3], s[4], s[5], s[6], s[7]];
    assert s[..end] == s[..HEADER] + s[HEADER..end];
  }
}
