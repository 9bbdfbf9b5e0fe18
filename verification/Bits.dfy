/**
 * Unsigned integers as the firmware stores them: bitwise operators over binary digits, and
 * little-endian byte strings.
 */
module Bits {

  type byte = x: int | 0 <= x < 0x100
  type uint16 = x: int | 0 <= x < 0x1_0000
  type uint32 = x: int | 0 <= x < 0x1_0000_0000
  type uint64 = x: int | 0 <= x < 0x1_0000_0000_0000_0000

  function Pow2(n: nat): (p: nat)
    ensures p >= 1
  {
    if n == 0 then 1 else 2 * Pow2(n - 1)
  }

  // ----- Exclusive-or -----

  /** Bitwise exclusive-or, digit by digit. */
  function Xor(a: nat, b: nat): nat
    decreases a + b
  {
    if a == 0 && b == 0 then 0
    else 2 * Xor(a / 2, b / 2) + (if a % 2 != b % 2 then 1 else 0)
  }

  /** All there is to know of an exclusive-or: its lowest digit, and the rest. */
  lemma XorDigits(a: nat, b: nat)
    ensures Xor(a, b) / 2 == Xor(a / 2, b / 2)
    ensures Xor(a, b) % 2 == if a % 2 != b % 2 then 1 else 0
  {
  }

  /** Numbers with the same digits are the same. */
  lemma SameDigits(x: nat, y: nat)
    requires x / 2 == y / 2 && x % 2 == y % 2
    ensures x == y
  {
  }

  lemma {:induction false} XorCancels(a: nat, b: nat)
    ensures Xor(Xor(a, b), b) == a
    decreases a + b
  {
    if a != 0 || b != 0 {
      XorCancels(a / 2, b / 2);
      hide Xor;
      XorDigits(a, b);
      XorDigits(Xor(a, b), b);
      SameDigits(Xor(Xor(a, b), b), a);
    }
  }

  lemma {:induction false} XorCommutes(a: nat, b: nat)
    ensures Xor(a, b) == Xor(b, a)
    decreases a + b
  {
    if a != 0 || b != 0 {
      XorCommutes(a / 2, b / 2);
      hide Xor;
      XorDigits(a, b);
      XorDigits(b, a);
      SameDigits(Xor(a, b), Xor(b, a));
    }
  }

  lemma {:induction false} XorAssociates(a: nat, b: nat, c: nat)
    ensures Xor(Xor(a, b), c) == Xor(a, Xor(b, c))
    decreases a + b + c
  {
    if a != 0 || b != 0 || c != 0 {
      XorAssociates(a / 2, b / 2, c / 2);
      hide Xor;
      XorDigits(a, b);
      XorDigits(b, c);
      XorDigits(Xor(a, b), c);
      XorDigits(a, Xor(b, c));
      SameDigits(Xor(Xor(a, b), c), Xor(a, Xor(b, c)));
    }
  }

  lemma {:induction false} XorFits(a: nat, b: nat, n: nat)
    requires a < Pow2(n) && b < Pow2(n)
    ensures Xor(a, b) < Pow2(n)
  {
    if n > 0 {
      XorFits(a / 2, b / 2, n - 1);
    }
  }

  /** What is left of `a` without the digit of weight `p`. */
  function Below(a: nat, p: nat): nat
  {
    if a >= p then a - p else a
  }

  lemma BelowDigits(a: nat, p: nat)
    ensures Below(a, 2 * p) / 2 == Below(a / 2, p) && Below(a, 2 * p) % 2 == a % 2
    ensures a >= 2 * p <==> a / 2 >= p
  {
  }

  /** The top digit of an exclusive-or is that of its operands, and the rest that of the rests. */
  lemma {:induction false} XorTopDigit(a: nat, b: nat, n: nat)
    requires a < 2 * Pow2(n) && b < 2 * Pow2(n)
    ensures Xor(a, b) == Xor(Below(a, Pow2(n)), Below(b, Pow2(n)))
      + (if (a >= Pow2(n)) != (b >= Pow2(n)) then Pow2(n) else 0)
    ensures Xor(Below(a, Pow2(n)), Below(b, Pow2(n))) < Pow2(n)
  {
    if n > 0 {
      XorTopDigit(a / 2, b / 2, n - 1);
      hide Xor;
      XorDigits(a, b);
      XorDigits(Below(a, Pow2(n)), Below(b, Pow2(n)));
      BelowDigits(a, Pow2(n - 1));
      BelowDigits(b, Pow2(n - 1));
      hide Below;
    }
  }

  lemma {:induction false} XorZero(x: nat)
    ensures Xor(x, 0) == x && Xor(0, x) == x
  {
    if x > 0 {
      XorZero(x / 2);
    }
  }

  /** Digits that do not meet add up. */
  lemma {:induction false} XorHighLow(x: nat, y: nat, n: nat)
    requires y < Pow2(n)
    ensures Xor(x * Pow2(n), y) == x * Pow2(n) + y
  {
    hide Xor;
    if n == 0 {
      XorZero(x);
    } else {
      assert x * Pow2(n) == 2 * (x * Pow2(n - 1));
      XorHighLow(x, y / 2, n - 1);
      XorEven(x * Pow2(n - 1), y);
    }
  }

  lemma XorEven(a: nat, y: nat)
    ensures Xor(2 * a, y) == 2 * Xor(a, y / 2) + y % 2
  {
  }

  lemma XorCancelsLeft(c: nat, x: nat, y: nat)
    requires Xor(c, x) == Xor(c, y)
    ensures x == y
  {
    XorCommutes(c, x);
    XorCommutes(c, y);
    XorCancels(x, c);
    XorCancels(y, c);
  }

  function Xor16(a: uint16, b: uint16): uint16 {
    Pow2Table();
    XorFits(a, b, 16);
    Xor(a, b)
  }

  function Xor32(a: uint32, b: uint32): uint32 {
    Pow2Table();
    XorFits(a, b, 32);
    Xor(a, b)
  }

  lemma Pow2Table()
    ensures Pow2(8) == 0x100 && Pow2(15) == 0x8000 && Pow2(16) == 0x1_0000
    ensures Pow2(31) == 0x8000_0000 && Pow2(32) == 0x1_0000_0000
  {
    assert Pow2(4) == 0x10;
    assert Pow2(8) == 0x100;
    assert Pow2(12) == 0x1000;
    assert Pow2(15) == 0x8000;
    assert Pow2(16) == 0x1_0000;
    assert Pow2(20) == 0x10_0000;
    assert Pow2(24) == 0x100_0000;
    assert Pow2(28) == 0x1000_0000;
    assert Pow2(31) == 0x8000_0000;
  }

  // ----- And, or -----

  function And(a: nat, b: nat): nat
    decreases a + b
  {
    if a == 0 || b == 0 then 0
    else 2 * And(a / 2, b / 2) + (if a % 2 == 1 && b % 2 == 1 then 1 else 0)
  }

  function Or(a: nat, b: nat): nat
    decreases a + b
  {
    if a == 0 && b == 0 then 0
    else 2 * Or(a / 2, b / 2) + (if a % 2 == 1 || b % 2 == 1 then 1 else 0)
  }

  lemma {:induction false} AndAtMost(a: nat, b: nat)
    ensures And(a, b) <= a && And(a, b) <= b
    decreases a + b
  {
    if a != 0 && b != 0 {
      AndAtMost(a / 2, b / 2);
    }
  }

  /** A word of `n` one-digits is neutral for And. */
  lemma {:induction false} AndOnes(b: nat, n: nat)
    requires b < Pow2(n)
    ensures And(Pow2(n) - 1, b) == b
  {
    if n > 0 && b > 0 {
      AndOnes(b / 2, n - 1);
    }
  }

  // ----- Little-endian byte strings -----

  function Next16(x: uint16): uint16 { (x + 1) % 0x1_0000 }

  function SaturatingNext(x: byte): byte { if x < 255 then x + 1 else 255 }

  function Low(x: uint16): byte { x % 0x100 }

  function High(x: uint16): byte { x / 0x100 }

  function U16(lo: byte, hi: byte): uint16 { lo + 0x100 * hi }

  lemma U16RoundTrip(x: uint16, lo: byte, hi: byte)
    ensures U16(Low(x), High(x)) == x
    ensures Low(U16(lo, hi)) == lo && High(U16(lo, hi)) == hi
  {
  }

  /** The `n` low bytes of `x`, least significant first. */
  function ToBytes(x: nat, n: nat): (s: seq<byte>)
    ensures |s| == n
  {
    if n == 0 then [] else [x % 0x100] + ToBytes(x / 0x100, n - 1)
  }

  function FromBytes(s: seq<byte>): nat {
    if s == [] then 0 else s[0] + 0x100 * FromBytes(s[1..])
  }

  function Pow256(n: nat): (p: nat)
    ensures p >= 1
  {
    if n == 0 then 1 else 0x100 * Pow256(n - 1)
  }

  lemma {:induction false} BytesRoundTrip(x: nat, n: nat)
    requires x < Pow256(n)
    ensures FromBytes(ToBytes(x, n)) == x
  {
    if n > 0 {
      BytesRoundTrip(x / 0x100, n - 1);
    }
  }

  lemma {:induction false} FromBytesRoundTrip(s: seq<byte>)
    ensures ToBytes(FromBytes(s), |s|) == s
    ensures FromBytes(s) < Pow256(|s|)
  {
    if s != [] {
      FromBytesRoundTrip(s[1..]);
      var low, rest := s[0] as int, FromBytes(s[1..]);
      assert FromBytes(s) == low + 0x100 * rest;
      assert (low + 0x100 * rest) % 0x100 == low && (low + 0x100 * rest) / 0x100 == rest;
      assert s == [s[0]] + s[1..];
    }
  }

  /** A word of two bytes is laid out as any other, its low byte first. */
  lemma WordIsLittleEndian(x: uint16)
    ensures [Low(x), High(x)] == ToBytes(x, 2) && U16(Low(x), High(x)) == FromBytes([Low(x), High(x)])
  {
    assert ToBytes(x / 0x100, 1) == [High(x)];
    assert [Low(x), High(x)][1..] == [High(x)] && [High(x)][1..] == [];
    assert FromBytes([High(x)]) == High(x);
  }

  function Concat(chunks: seq<seq<byte>>): seq<byte> {
    if chunks == [] then [] else chunks[0] + Concat(chunks[1..])
  }

  lemma SliceOfSlice<T>(s: seq<T>, a: nat, b: nat, i: nat, j: nat)
    requires a <= b <= |s| && i <= j <= b - a
    ensures s[a..b][i..j] == s[a + i..a + j]
  {
    forall k | 0 <= k < j - i
      ensures s[a..b][i..j][k] == s[a + i..a + j][k]
    {
      assert s[a..b][i..j][k] == s[a..b][i + k];
    }
    assert |s[a..b][i..j]| == |s[a + i..a + j]|;
  }

  // ----- Wrapping time -----

  /** `static_cast<uint32_t>(now - then)`: how far `now` lies ahead of `since` on the wrapping millisecond clock. */
  function Elapsed(now: uint32, since: uint32): uint32 {
    (now - since) % 0x1_0000_0000
  }

  /** The wrapping clock tells a true duration exactly as long as the duration fits it. */
  lemma ElapsedIsExact(now: nat, since: nat)
    requires since <= now
    ensures Elapsed(now % 0x1_0000_0000, since % 0x1_0000_0000) == (now - since) % 0x1_0000_0000
    ensures now - since < 0x1_0000_0000 ==> Elapsed(now % 0x1_0000_0000, since % 0x1_0000_0000) == now - since
  {
    var m := 0x1_0000_0000;
    var q := now / m - since / m;
    assert now - since == q * m + (now % m - since % m);
  }
}
