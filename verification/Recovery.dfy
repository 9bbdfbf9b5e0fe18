/** What the parser does with garbage and with damaged frames. */
module Recovery {
  import opened Bits
  import opened Crc
  import opened Protocol
  import opened Parser

  /** The magic at the head is not that of a frame: its length or its checksum is wrong. */
  predicate FalseCandidate(s: seq<byte>)
    requires |s| >= MAX_FRAME
  {
    LengthAt(s) > MAX_PAYLOAD || !ChecksumHolds(s, HEADER + LengthAt(s))
  }

  /** The positions of the magic among the first `n` of the stream. */
  ghost function MagicPositions(s: seq<byte>, n: nat): set<nat> {
    set i: nat | 0 <= i < n && MagicAt(s, i)
  }

  /** What the magic at the head of garbage costs. */
  function CandidateError(s: seq<byte>): Signal
    requires |s| >= HEADER
  {
    if LengthAt(s) > MAX_PAYLOAD then Failed(PayloadTooLarge) else Failed(ChecksumMismatch)
  }

  /** The errors of the magics among the first `n` positions of the stream, in order. */
  function CandidateErrors(s: seq<byte>, n: nat): (errors: seq<Signal>)
    requires n <= |s| && (n > 0 ==> |s| - n >= MAX_FRAME - 1)
    decreases n
  {
    if n == 0 then []
    else CandidateErrors(s, n - 1) + if MagicAt(s, n - 1) then [CandidateError(s[n - 1..])] else []
  }

  lemma {:induction false} OneErrorPerMagic(s: seq<byte>, n: nat)
    requires n <= |s| && (n > 0 ==> |s| - n >= MAX_FRAME - 1)
    ensures |CandidateErrors(s, n)| == |MagicPositions(s, n)|
    decreases n
  {
    hide MagicAt, CandidateError;
    if n > 0 {
      OneErrorPerMagic(s, n - 1);
      assert MagicPositions(s, n) == MagicPositions(s, n - 1) + if MagicAt(s, n - 1) then {n - 1} else {};
    } else {
      assert MagicPositions(s, 0) == {};
    }
  }

  lemma {:induction false} GarbageIsSkipped(s: seq<byte>, n: nat)
    requires n <= |s| && (n > 0 ==> |s| - n >= MAX_FRAME - 1)
    requires forall i | 0 <= i < n && MagicAt(s, i) :: FalseCandidate(s[i..])
    ensures Parse(s) == Before(CandidateErrors(s, n), Parse(s[n..]))
    decreases n
  {
    hide Head, FalseCandidate, MagicAt, CandidateError, Parse;
    if n == 0 {
      assert s[0..] == s;
    } else {
      GarbageIsSkipped(s, n - 1);
      var rest := s[n - 1..];
      assert rest[1..] == s[n..];
      MagicOfRest(s, n - 1);
      HeadOfGarbage(rest);
      ParseStep(rest);
    }
  }

  lemma HeadOfGarbage(s: seq<byte>)
    requires |s| >= MAX_FRAME
    requires MagicAt(s, 0) ==> FalseCandidate(s)
    ensures Head(s) == Drop(1, if MagicAt(s, 0) then [CandidateError(s)] else [])
  {
    hide Crc16, Judge;
  }

  /**
   * Resynchronisation: behind any garbage a frame is found, provided no magic in the garbage happens to
   * head bytes with a matching checksum and the stream goes on long enough to tell. The garbage costs
   * exactly one error for each magic in it.
   */
  lemma FrameIsFoundBehindGarbage(garbage: seq<byte>, sequence: uint16, messageType: byte, payload: seq<byte>,
                                  tail: seq<byte>)
    requires |payload| <= MAX_PAYLOAD
    requires |EncodeFrame(sequence, messageType, payload) + tail| >= MAX_FRAME - 1
    requires var s := garbage + (EncodeFrame(sequence, messageType, payload) + tail);
      forall i | 0 <= i < |garbage| && MagicAt(s, i) :: FalseCandidate(s[i..])
    ensures var s := garbage + (EncodeFrame(sequence, messageType, payload) + tail);
      && Parse(s) == Before(CandidateErrors(s, |garbage|),
                     Before([Judge(Frame(PROTOCOL_VERSION, messageType, sequence, payload))], Parse(tail)))
      && |CandidateErrors(s, |garbage|)| == |MagicPositions(s, |garbage|)|
  {
    hide Crc16, Judge, EncodeFrame, Head, FalseCandidate, MagicAt;
    var bytes := EncodeFrame(sequence, messageType, payload);
    var s := garbage + (bytes + tail);
    GarbageIsSkipped(s, |garbage|);
    OneErrorPerMagic(s, |garbage|);
    assert s[|garbage|..] == bytes + tail;
    ParseEncoded(sequence, messageType, payload, tail);
  }

  /**
   * A frame damaged in one byte, other than its magic or its length, is never handed over: the parser
   * reports the checksum and searches on from the next byte.
   */
  lemma DamagedByteIsRejected(sequence: uint16, messageType: byte, payload: seq<byte>, damaged: seq<byte>, i: nat,
                              t: seq<byte>)
    requires |payload| <= MAX_PAYLOAD
    requires DifferOnlyAt(EncodeFrame(sequence, messageType, payload), damaged, i)
    requires i !in {0, 1, 4, 5}
    ensures Parse(damaged + t) == Before([Failed(ChecksumMismatch)], Parse((damaged + t)[1..]))
  {
    hide Crc16, Judge, Low, High, U16;
    var good := EncodeFrame(sequence, messageType, payload);
    var end := HEADER + |payload|;
    SameElsewhere(good, damaged, i);
    U16RoundTrip(|payload|, 0, 0);
    assert good[..end] == Covered(sequence, messageType, payload);
    HeadOfDamaged(damaged, |payload|, t);
    var crc := Crc16(good[..end]);
    assert !ChecksumHolds(damaged, end) by {
      U16RoundTrip(crc, damaged[end], damaged[end + 1]);
      if i < end {
        DifferOnlyInPrefix(good, damaged, i, end);
        Crc16DetectsByte(good[..end], damaged[..end], i);
      } else {
        assert good[..end] == damaged[..end];
      }
    }
  }

  lemma HeadOfDamaged(damaged: seq<byte>, n: nat, t: seq<byte>)
    requires n <= MAX_PAYLOAD && |damaged| == HEADER + n + CHECKSUM
    requires MagicAt(damaged, 0) && LengthAt(damaged) == n
    ensures !ChecksumHolds(damaged, HEADER + n) ==>
      Parse(damaged + t) == Before([Failed(ChecksumMismatch)], Parse((damaged + t)[1..]))
  {
    hide Crc16, Judge, U16, Parse;
    var end := HEADER + n;
    assert (damaged + t)[..end] == damaged[..end];
    if !ChecksumHolds(damaged, end) {
      assert Head(damaged + t) == Drop(1, [Failed(ChecksumMismatch)]);
      ParseStep(damaged + t);
    }
  }

  /** The same for any damage confined to two adjacent bytes that the checksum covers. */
  lemma DamagedPairIsRejected(sequence: uint16, messageType: byte, payload: seq<byte>, damaged: seq<byte>, i: nat,
                              t: seq<byte>)
    requires |payload| <= MAX_PAYLOAD
    requires DifferOnlyInPair(EncodeFrame(sequence, messageType, payload), damaged, i)
    requires i == 2 || (6 <= i && i + 2 <= HEADER + |payload|)
    ensures Parse(damaged + t) == Before([Failed(ChecksumMismatch)], Parse((damaged + t)[1..]))
  {
    hide Crc16, Judge, Low, High, U16;
    var good := EncodeFrame(sequence, messageType, payload);
    var end := HEADER + |payload|;
    SameOutsidePair(good, damaged, i);
    U16RoundTrip(|payload|, 0, 0);
    assert good[..end] == Covered(sequence, messageType, payload);
    HeadOfDamaged(damaged, |payload|, t);
    var crc := Crc16(good[..end]);
    assert !ChecksumHolds(damaged, end) by {
      U16RoundTrip(crc, 0, 0);
      PairInPrefix(good, damaged, i, end);
      Crc16DetectsPair(good[..end], damaged[..end], i);
    }
  }

  lemma SameOutsidePair(a: seq<byte>, b: seq<byte>, i: nat)
    requires DifferOnlyInPair(a, b, i)
    ensures forall k | 0 <= k < |a| && k != i && k != i + 1 :: a[k] == b[k]
    ensures a[i] != b[i] || a[i + 1] != b[i + 1]
  {
    forall k | 0 <= k < |a| && k != i && k != i + 1
      ensures a[k] == b[k]
    {
      if k < i {
        assert a[..i][k] == b[..i][k];
      } else {
        assert a[i + 2..][k - i - 2] == b[i + 2..][k - i - 2];
      }
    }
  }

  lemma PairInPrefix(a: seq<byte>, b: seq<byte>, i: nat, n: nat)
    requires DifferOnlyInPair(a, b, i) && i + 2 <= n <= |a|
    ensures DifferOnlyInPair(a[..n], b[..n], i)
  {
    SameOutsidePair(a, b, i);
    assert a[..n][i] != b[..n][i] || a[..n][i + 1] != b[..n][i + 1];
  }
}
