/** The two checksums of the firmware: CRC-16/CCITT-FALSE over frames and CRC-32/IEEE over receipts. */
module Crc {
  import opened Bits

  // ----- A shift register fed with bytes -----

  function Iterate<T>(step: T -> T, c: T, n: nat): T {
    if n == 0 then c else step(Iterate(step, c, n - 1))
  }

  /** Each byte is mixed into the register and shifted through by eight steps. */
  function Feed<T>(step: T -> T, mix: (T, byte) -> T, c: T, s: seq<byte>): T {
    if s == [] then c
    else Iterate(step, mix(Feed(step, mix, c, s[..|s| - 1]), s[|s| - 1]), 8)
  }

  /** No step and no mixed-in byte loses information about the register, nor the register about the byte. */
  ghost predicate Lossless<T(!new)>(step: T -> T, mix: (T, byte) -> T) {
    && (forall c, d :: step(c) == step(d) ==> c == d)
    && (forall c, d, b :: mix(c, b) == mix(d, b) ==> c == d)
    && (forall c, b, b' :: mix(c, b) == mix(c, b') ==> b == b')
  }

  lemma {:induction false} IterateLossless<T(!new)>(step: T -> T, mix: (T, byte) -> T, c: T, d: T, n: nat)
    requires Lossless(step, mix)
    requires Iterate(step, c, n) == Iterate(step, d, n)
    ensures c == d
    decreases n
  {
    if n > 0 {
      IterateLossless(step, mix, c, d, n - 1);
    }
  }

  /** Feeding the same bytes never merges two different registers. */
  lemma {:induction false} FeedLossless<T(!new)>(step: T -> T, mix: (T, byte) -> T, c: T, d: T, s: seq<byte>)
    requires Lossless(step, mix)
    requires Feed(step, mix, c, s) == Feed(step, mix, d, s)
    ensures c == d
    decreases |s|
  {
    if s != [] {
      var t, b := s[..|s| - 1], s[|s| - 1];
      IterateLossless(step, mix, mix(Feed(step, mix, c, t), b), mix(Feed(step, mix, d, t), b), 8);
      FeedLossless(step, mix, c, d, t);
    }
  }

  lemma {:induction false} FeedConcat<T>(step: T -> T, mix: (T, byte) -> T, c: T, s: seq<byte>, t: seq<byte>)
    ensures Feed(step, mix, c, s + t) == Feed(step, mix, Feed(step, mix, c, s), t)
    decreases |t|
  {
    if t == [] {
      assert s + t == s;
    } else {
      assert (s + t)[..|s + t| - 1] == s + t[..|t| - 1];
      FeedConcat(step, mix, c, s, t[..|t| - 1]);
    }
  }

  lemma FeedSplit<T>(step: T -> T, mix: (T, byte) -> T, c: T, s: seq<byte>, i: nat)
    requires i < |s|
    ensures Feed(step, mix, c, s)
         == Feed(step, mix, Iterate(step, mix(Feed(step, mix, c, s[..i]), s[i]), 8), s[i + 1..])
  {
    assert s == s[..i + 1] + s[i + 1..];
    assert s[..i + 1][..i] == s[..i];
    FeedConcat(step, mix, c, s[..i + 1], s[i + 1..]);
  }

  /** Data of equal length that differs in the byte at `i` and nowhere else. */
  ghost predicate DifferOnlyAt(a: seq<byte>, b: seq<byte>, i: nat) {
    && |a| == |b|
    && i < |a|
    && a[i] != b[i]
    && a[..i] == b[..i]
    && a[i + 1..] == b[i + 1..]
  }

  lemma SameElsewhere(a: seq<byte>, b: seq<byte>, i: nat)
    requires DifferOnlyAt(a, b, i)
    ensures forall k | 0 <= k < |a| && k != i :: a[k] == b[k]
  {
    forall k | 0 <= k < |a| && k != i
      ensures a[k] == b[k]
    {
      if k < i {
        assert a[..i][k] == b[..i][k];
      } else {
        assert a[i + 1..][k - i - 1] == b[i + 1..][k - i - 1];
      }
    }
  }

  lemma DifferOnlyInPrefix(a: seq<byte>, b: seq<byte>, i: nat, n: nat)
    requires DifferOnlyAt(a, b, i) && i < n <= |a|
    ensures DifferOnlyAt(a[..n], b[..n], i)
  {
    SameElsewhere(a, b, i);
  }

  lemma FeedDetectsByte<T(!new)>(step: T -> T, mix: (T, byte) -> T, c: T, a: seq<byte>, b: seq<byte>, i: nat)
    requires Lossless(step, mix)
    requires DifferOnlyAt(a, b, i)
    ensures Feed(step, mix, c, a) != Feed(step, mix, c, b)
  {
    FeedSplit(step, mix, c, a, i);
    FeedSplit(step, mix, c, b, i);
    if Feed(step, mix, c, a) == Feed(step, mix, c, b) {
      var ra, rb := mix(Feed(step, mix, c, a[..i]), a[i]), mix(Feed(step, mix, c, b[..i]), b[i]);
      FeedLossless(step, mix, Iterate(step, ra, 8), Iterate(step, rb, 8), a[i + 1..]);
    }
  }

  // ----- CRC-16, most significant bit first -----

  const POLYNOMIAL16: uint16 := 0x1021
  const SEED16: uint16 := 0xffff

  function BitStep16(c: uint16): uint16 {
    if c >= 0x8000 then Xor16(c * 2 % 0x1_0000, POLYNOMIAL16) else c * 2 % 0x1_0000
  }

  function Mix16(c: uint16, b: byte): uint16 {
    Xor16(c, b * 0x100)
  }

  function Crc16(s: seq<byte>): uint16 {
    Feed(BitStep16, Mix16, SEED16, s)
  }

  /** The checksum loops of the firmware, over the first `length` bytes of a buffer. */
  method Crc16CcittFalse(data: array<byte>, length: nat) returns (crc: uint16)
    requires length <= data.Length
    ensures crc == Crc16(data[..length])
  {
    hide Xor;
    crc := SEED16;
    for i := 0 to length
      invariant crc == Crc16(data[..i])
    {
      assert data[..i + 1][..i] == data[..i];
      var next: int := data[i];
      crc := Xor16(crc, next * 0x100);
      ghost var mixed := crc;
      for bit := 0 to 8
        invariant crc == Iterate(BitStep16, mixed, bit)
      {
        crc := if crc >= 0x8000 then Xor16(crc * 2 % 0x1_0000, POLYNOMIAL16) else crc * 2 % 0x1_0000;
      }
    }
  }

  /** An odd polynomial lets the shifted-out digit be read back, so the step can be undone. */
  lemma BitStep16Undone(c: uint16)
    ensures BitStep16(c) % 2 == (if c < 0x8000 then 0 else 1)
    ensures c == if c < 0x8000 then BitStep16(c) / 2 else Xor16(BitStep16(c), POLYNOMIAL16) / 2 + 0x8000
  {
    hide Xor;
    if c >= 0x8000 {
      XorCancels(c * 2 % 0x1_0000, POLYNOMIAL16);
      XorEven(c - 0x8000, POLYNOMIAL16);
    }
  }

  lemma Mix16Lossless(c: uint16, d: uint16, x: byte, y: byte)
    ensures Mix16(c, x) == Mix16(d, x) ==> c == d
    ensures Mix16(c, x) == Mix16(c, y) ==> x == y
  {
    XorCancels(c, x * 0x100);
    XorCancels(d, x * 0x100);
    if Mix16(c, x) == Mix16(c, y) {
      XorCancelsLeft(c, x * 0x100, y * 0x100);
    }
  }

  lemma Register16Lossless()
    ensures Lossless(BitStep16, Mix16)
  {
    forall c: uint16, d: uint16 | BitStep16(c) == BitStep16(d)
      ensures c == d
    {
      BitStep16Undone(c);
      BitStep16Undone(d);
    }
    forall c: uint16, d: uint16, x: byte, y: byte
      ensures Mix16(c, x) == Mix16(d, x) ==> c == d
      ensures Mix16(c, x) == Mix16(c, y) ==> x == y
    {
      Mix16Lossless(c, d, x, y);
    }
  }

  /** No change confined to one byte leaves the CRC-16 as it was, whatever the length. */
  lemma Crc16DetectsByte(a: seq<byte>, b: seq<byte>, i: nat)
    requires DifferOnlyAt(a, b, i)
    ensures Crc16(a) != Crc16(b)
  {
    Register16Lossless();
    FeedDetectsByte(BitStep16, Mix16, SEED16, a, b, i);
  }

  // The register is linear over exclusive-or, so two bytes reach it as one 16-bit word.

  lemma BitStep16Parts(c: uint16)
    ensures BitStep16(c) == if c >= 0x8000 then Xor(2 * Below(c, 0x8000), POLYNOMIAL16) else 2 * Below(c, 0x8000)
  {
    hide Xor;
  }

  lemma BitStep16Linear(c: uint16, d: uint16)
    ensures BitStep16(Xor16(c, d)) == Xor16(BitStep16(c), BitStep16(d))
  {
    hide Xor, BitStep16;
    BitStep16Parts(c);
    BitStep16Parts(d);
    BitStep16Parts(Xor16(c, d));
    var x, y, p := Below(c, 0x8000), Below(d, 0x8000), POLYNOMIAL16;
    Pow2Table();
    XorTopDigit(c, d, 15);
    XorEven(x, 2 * y);
    XorRegroup(2 * x, 2 * y, p);
  }

  lemma XorRegroup(x: nat, y: nat, p: nat)
    ensures Xor(Xor(x, y), p) == Xor(Xor(x, p), y) == Xor(x, Xor(y, p))
    ensures Xor(Xor(x, p), Xor(y, p)) == Xor(x, y)
  {
    XorAssociates(x, y, p);
    XorAssociates(x, p, y);
    XorCommutes(p, y);
    XorAssociates(x, p, Xor(y, p));
    XorCommutes(p, Xor(y, p));
    XorCancels(y, p);
  }

  lemma {:induction false} Iterate16Linear(c: uint16, d: uint16, n: nat)
    ensures Iterate(BitStep16, Xor16(c, d), n) == Xor16(Iterate(BitStep16, c, n), Iterate(BitStep16, d, n))
  {
    if n > 0 {
      Iterate16Linear(c, d, n - 1);
      BitStep16Linear(Iterate(BitStep16, c, n - 1), Iterate(BitStep16, d, n - 1));
    }
  }

  lemma LowByteOnlyShifts(b: byte)
    ensures Iterate<uint16>(BitStep16, b, 8) == b * 0x100
  {
    hide Xor;
    assert Iterate<uint16>(BitStep16, b, 1) == b * 2;
    assert Iterate<uint16>(BitStep16, b, 2) == b * 4;
    assert Iterate<uint16>(BitStep16, b, 3) == b * 8;
    assert Iterate<uint16>(BitStep16, b, 4) == b * 16;
    assert Iterate<uint16>(BitStep16, b, 5) == b * 32;
    assert Iterate<uint16>(BitStep16, b, 6) == b * 64;
    assert Iterate<uint16>(BitStep16, b, 7) == b * 128;
  }

  function Pair(x: byte, y: byte): uint16 {
    x * 0x100 + y
  }

  /** Two bytes drive the register exactly as the 16-bit word they form does. */
  lemma PairStep16(c: uint16, x: byte, y: byte)
    ensures Iterate(BitStep16, Mix16(Iterate(BitStep16, Mix16(c, x), 8), y), 8)
         == Iterate(BitStep16, Iterate(BitStep16, Xor16(c, Pair(x, y)), 8), 8)
  {
    hide Xor;
    Iterate16Linear(Xor16(c, x * 0x100), y, 8);
    LowByteOnlyShifts(y);
    XorAssociates(c, x * 0x100, y);
    Pow2Table();
    XorHighLow(x, y, 8);
  }

  /** Data of equal length that differs somewhere, but only in the two bytes at `i` and `i + 1`. */
  ghost predicate DifferOnlyInPair(a: seq<byte>, b: seq<byte>, i: nat) {
    && |a| == |b|
    && a != b
    && i + 2 <= |a|
    && a[..i] == b[..i]
    && a[i + 2..] == b[i + 2..]
  }

  lemma FeedSplitPair(c: uint16, s: seq<byte>, i: nat)
    requires i + 2 <= |s|
    ensures Feed(BitStep16, Mix16, c, s)
         == Feed(BitStep16, Mix16,
                 Iterate(BitStep16,
                    Iterate(BitStep16, Xor16(Feed(BitStep16, Mix16, c, s[..i]), Pair(s[i], s[i + 1])), 8), 8),
                 s[i + 2..])
  {
    hide Xor;
    FeedSplit(BitStep16, Mix16, c, s, i + 1);
    assert s[..i + 1][..i] == s[..i];
    PairStep16(Feed(BitStep16, Mix16, c, s[..i]), s[i], s[i + 1]);
  }

  /** No change confined to two adjacent bytes leaves the CRC-16 as it was, whatever the length. */
  lemma Crc16DetectsPair(a: seq<byte>, b: seq<byte>, i: nat)
    requires DifferOnlyInPair(a, b, i)
    ensures Crc16(a) != Crc16(b)
  {
    hide Xor, Iterate, Feed, BitStep16;
    assert a == a[..i] + [a[i], a[i + 1]] + a[i + 2..];
    assert b == b[..i] + [b[i], b[i + 1]] + b[i + 2..];
    FeedSplitPair(SEED16, a, i);
    FeedSplitPair(SEED16, b, i);
    if Crc16(a) == Crc16(b) {
      var r := Feed(BitStep16, Mix16, SEED16, a[..i]);
      var wa, wb := Xor16(r, Pair(a[i], a[i + 1])), Xor16(r, Pair(b[i], b[i + 1]));
      var ia, ib := Iterate(BitStep16, wa, 8), Iterate(BitStep16, wb, 8);
      Register16Lossless();
      FeedLossless(BitStep16, Mix16, Iterate(BitStep16, ia, 8), Iterate(BitStep16, ib, 8), a[i + 2..]);
      IterateLossless(BitStep16, Mix16, ia, ib, 8);
      IterateLossless(BitStep16, Mix16, wa, wb, 8);
      XorCancelsLeft(r, Pair(a[i], a[i + 1]), Pair(b[i], b[i + 1]));
    }
  }

  lemma XorSelf(x: nat)
    ensures Xor(x, x) == 0
  {
    XorZero(x);
    XorCancels(0, x);
  }

  /**
   * Two bytes of ones clear the register from its seed, and a single one behind them brings out the
   * generator x^16 + x^12 + x^5 + 1 below its top digit, with nothing added at the end.
   */
  lemma Crc16Impulse()
    ensures Crc16([0xff, 0xff]) == 0
    ensures Crc16([0xff, 0xff, 0x01]) == 0x1000 + 0x20 + 0x1
  {
    hide Xor;
    Pow2Table();
    assert [0xff, 0xff, 0x01][..2] == [0xff, 0xff] && [0xff, 0xff][..1] == [0xff] && [0xff][..0] == [];
    assert Mix16(0xffff, 0xff) == 0xff by {
      XorHighLow(0xff, 0xff, 8);
      XorCommutes(0xff00, 0xff);
      XorCancels(0xff, 0xff00);
    }
    LowByteOnlyShifts(0xff);
    LowByteOnlyShifts(0);
    XorSelf(0xff00);
    XorZero(0x100);
    XorZero(POLYNOMIAL16);
    SingleOne16();
  }

  lemma SingleOne16()
    ensures Iterate<uint16>(BitStep16, 0x100, 8) == POLYNOMIAL16
  {
    hide Xor;
    assert Iterate<uint16>(BitStep16, 0x100, 4) == 0x1000;
    assert Iterate<uint16>(BitStep16, 0x100, 7) == 0x8000;
    XorZero(POLYNOMIAL16);
  }

  // ----- CRC-32, least significant bit first -----

  const POLYNOMIAL32: uint32 := 0xedb8_8320
  const ONES32: uint32 := 0xffff_ffff

  function BitStep32(c: uint32): uint32 {
    if c % 2 == 1 then Xor32(c / 2, POLYNOMIAL32) else c / 2
  }

  function Mix32(c: uint32, b: byte): uint32 {
    Xor32(c, b)
  }

  function Crc32(s: seq<byte>): uint32 {
    Xor32(Feed(BitStep32, Mix32, ONES32, s), ONES32)
  }

  method Crc32Ieee(data: seq<byte>) returns (crc: uint32)
    ensures crc == Crc32(data)
  {
    hide Xor;
    crc := ONES32;
    for i := 0 to |data|
      invariant crc == Feed(BitStep32, Mix32, ONES32, data[..i])
    {
      assert data[..i + 1][..i] == data[..i];
      crc := Xor32(crc, data[i]);
      ghost var mixed := crc;
      for bit := 0 to 8
        invariant crc == Iterate(BitStep32, mixed, bit)
      {
        crc := if crc % 2 == 1 then Xor32(crc / 2, POLYNOMIAL32) else crc / 2;
      }
    }
    assert data[..|data|] == data;
    crc := Xor32(crc, ONES32);
  }

  /** The polynomial's top digit marks the steps that used it, so the step can be undone. */
  lemma BitStep32Undone(c: uint32)
    ensures BitStep32(c) < 0x8000_0000 <==> c % 2 == 0
    ensures c == if c % 2 == 0 then BitStep32(c) * 2 else Xor32(BitStep32(c), POLYNOMIAL32) * 2 + 1
  {
    Pow2Table();
    XorTopDigit(c / 2, POLYNOMIAL32, 31);
    XorCancels(c / 2, POLYNOMIAL32);
  }

  lemma Mix32Lossless(c: uint32, d: uint32, x: byte, y: byte)
    ensures Mix32(c, x) == Mix32(d, x) ==> c == d
    ensures Mix32(c, x) == Mix32(c, y) ==> x == y
  {
    XorCancels(c, x);
    XorCancels(d, x);
    if Mix32(c, x) == Mix32(c, y) {
      XorCancelsLeft(c, x, y);
    }
  }

  lemma Register32Lossless()
    ensures Lossless(BitStep32, Mix32)
  {
    forall c: uint32, d: uint32 | BitStep32(c) == BitStep32(d)
      ensures c == d
    {
      BitStep32Undone(c);
      BitStep32Undone(d);
    }
    forall c: uint32, d: uint32, x: byte, y: byte
      ensures Mix32(c, x) == Mix32(d, x) ==> c == d
      ensures Mix32(c, x) == Mix32(c, y) ==> x == y
    {
      Mix32Lossless(c, d, x, y);
    }
  }

  /** No change confined to one byte leaves the CRC-32 as it was, whatever the length. */
  lemma Crc32DetectsByte(a: seq<byte>, b: seq<byte>, i: nat)
    requires DifferOnlyAt(a, b, i)
    ensures Crc32(a) != Crc32(b)
  {
    Register32Lossless();
    FeedDetectsByte(BitStep32, Mix32, ONES32, a, b, i);
    XorCancels(Feed(BitStep32, Mix32, ONES32, a), ONES32);
    XorCancels(Feed(BitStep32, Mix32, ONES32, b), ONES32);
  }

  lemma LowByteLeaves32(high: nat)
    requires high < 0x100_0000
    ensures Iterate<uint32>(BitStep32, high * 0x100, 8) == high
  {
    hide Xor;
    assert Iterate<uint32>(BitStep32, high * 256, 1) == high * 128;
    assert Iterate<uint32>(BitStep32, high * 256, 2) == high * 64;
    assert Iterate<uint32>(BitStep32, high * 256, 3) == high * 32;
    assert Iterate<uint32>(BitStep32, high * 256, 4) == high * 16;
    assert Iterate<uint32>(BitStep32, high * 256, 5) == high * 8;
    assert Iterate<uint32>(BitStep32, high * 256, 6) == high * 4;
    assert Iterate<uint32>(BitStep32, high * 256, 7) == high * 2;
  }

  /** A byte of ones meeting a low byte of ones moves the register down by a byte. */
  lemma OnesMeetOnes(high: nat)
    requires high < 0x100_0000
    ensures Iterate(BitStep32, Mix32(high * 0x100 + 0xff, 0xff), 8) == high
  {
    hide Xor;
    Pow2Table();
    XorHighLow(high, 0xff, 8);
    XorCancels(high * 0x100, 0xff);
    LowByteLeaves32(high);
  }

  /**
   * Four bytes of ones clear the register from its seed, and the complement of that is read; a single one
   * behind them brings out the polynomial of the reflected register, complemented.
   */
  lemma Crc32Impulse()
    ensures Crc32([0xff, 0xff, 0xff, 0xff]) == 0xffff_ffff
    ensures Xor(Crc32([0xff, 0xff, 0xff, 0xff, 0x80]), 0xffff_ffff) == 0xedb8_8320
  {
    hide Xor;
    var s := [0xff, 0xff, 0xff, 0xff, 0x80];
    assert s[..5] == s && s[..4] == [0xff, 0xff, 0xff, 0xff];
    FeedOnes(s);
    OneMore(s, 4);
    XorZero(ONES32);
    XorZero(0x80);
    SingleOne32();
    XorCancels(POLYNOMIAL32, ONES32);
  }

  lemma OneMore(s: seq<byte>, n: nat)
    requires n < |s|
    ensures Feed(BitStep32, Mix32, ONES32, s[..n + 1])
         == Iterate(BitStep32, Mix32(Feed(BitStep32, Mix32, ONES32, s[..n]), s[n]), 8)
  {
    assert s[..n + 1][..n] == s[..n];
  }

  lemma OneFed(s: seq<byte>, n: nat, high: nat)
    requires n < |s| && s[n] == 0xff && high < 0x100_0000
    requires Feed(BitStep32, Mix32, ONES32, s[..n]) == high * 0x100 + 0xff
    ensures Feed(BitStep32, Mix32, ONES32, s[..n + 1]) == high
  {
    hide Feed, Iterate, Xor;
    OneMore(s, n);
    OnesMeetOnes(high);
  }

  lemma FeedOnes(s: seq<byte>)
    requires |s| >= 4 && s[0] == s[1] == s[2] == s[3] == 0xff
    ensures Feed(BitStep32, Mix32, ONES32, s[..4]) == 0
  {
    hide Feed, Iterate, Xor;
    NothingFed(s);
    OneFed(s, 0, 0xff_ffff);
    OneFed(s, 1, 0xffff);
    OneFed(s, 2, 0xff);
    OneFed(s, 3, 0);
  }

  lemma NothingFed(s: seq<byte>)
    ensures Feed(BitStep32, Mix32, ONES32, s[..0]) == ONES32
  {
  }

  lemma SingleOne32()
    ensures Iterate<uint32>(BitStep32, 0x80, 8) == POLYNOMIAL32
  {
    hide Xor;
    assert Iterate<uint32>(BitStep32, 0x80, 4) == 0x8;
    assert Iterate<uint32>(BitStep32, 0x80, 7) == 0x1;
    XorZero(POLYNOMIAL32);
  }
}
