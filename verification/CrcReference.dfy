/** The ready-made CRC types against shifting loops over numeric constants: the code of
    section 8 of RFC 1952 for `crc_32_type`, and the same kind of code for the others. */
module CrcReference {

  import opened Words
  import opened PolynomialDivision
  import opened CrcSpec
  import opened CrcTypes

  // ----- right-shifting, as in section 8 of RFC 1952 -----

  /** One step of that form's table computation: test the low bit, shift right,
      XOR in the reversed polynomial. */
  function RightStep(c: Word, reversed: Word): (c': Word)
    requires |c| == |reversed| > 0
    ensures |c'| == |c|
  {
    if TestBit(c, 0) then Xor(Shr(c, 1), reversed) else Shr(c, 1)
  }

  function RightSteps(c: Word, reversed: Word, n: nat): (c': Word)
    requires |c| == |reversed| > 0
    ensures |c'| == |c|
    decreases n
  {
    if n == 0 then c else RightSteps(RightStep(c, reversed), reversed, n - 1)
  }

  lemma {:induction false} RightStepsReverse(r: Word, p: Word, n: nat)
    requires |r| == |p| > 0
    ensures RightSteps(Reverse(r), Reverse(p), n) == Reverse(Run(r, p, Zeros(n)))
    decreases n
  {
    if n > 0 {
      var shifted := r[1..] + [false];
      assert Reverse(shifted) == Shr(Reverse(r), 1);
      ReverseXor(shifted, p);
      assert Zeros(n)[1..] == Zeros(n - 1);
      RightStepsReverse(Step(r, p, false), p, n - 1);
    }
  }

  /** Entry `x` of a reflected table is eight right-shifting steps from `x` itself. */
  lemma ReflectedEntryIsRightShifting(p: Word, x: Byte)
    requires |p| >= 8
    ensures Reverse(Run(Zeros(|p|), p, Reverse(x))) == RightSteps(Zeros(|p| - 8) + x, Reverse(p), 8)
  {
    hide Run, RightSteps;
    var start := Reverse(x) + Zeros(|p| - 8);
    Absorb(Zeros(|p|), p, Reverse(x));
    XorZeros(start);
    assert Reverse(start) == Zeros(|p| - 8) + x;
    RightStepsReverse(start, p, 8);
  }

  /** One byte: `table[(c ^ b) & 0xff] ^ (c >> 8)`, the table entry written out. */
  function RightUpdate(c: Word, b: Byte, reversed: Word): (c': Word)
    requires |c| == |reversed| >= 8
    ensures |c'| == |c|
  {
    Xor(RightSteps(Zeros(|c| - 8) + Xor(Low(c, 8), b), reversed, 8), Shr(c, 8))
  }

  function RightCrc(c: Word, bytes: seq<Byte>, reversed: Word): (c': Word)
    requires |c| == |reversed| >= 8
    ensures |c'| == |c|
    decreases |bytes|
  {
    if bytes == [] then c else RightCrc(RightUpdate(c, bytes[0], reversed), bytes[1..], reversed)
  }

  lemma ReversedTop(r: Word)
    requires |r| >= 8
    ensures Reverse(TopByte(r)) == Low(Reverse(r), 8)
    ensures Reverse(Shl(r, 8)) == Shr(Reverse(r), 8)
  {}

  lemma RightUpdateIsRun(r: Word, p: Word, b: Byte)
    requires |r| == |p| >= 8
    ensures Reverse(Run(r, p, Reverse(b))) == RightUpdate(Reverse(r), b, Reverse(p))
  {
    hide Run, RightSteps, Shl, Shr, Low, TopByte;
    var y := Xor(Low(Reverse(r), 8), b);
    ByteStep(r, p, Reverse(b));
    ReversedTop(r);
    ReverseReverse(TopByte(r));
    ReverseXor(Low(Reverse(r), 8), b);
    assert Reverse(y) == Xor(TopByte(r), Reverse(b));
    ReflectedEntryIsRightShifting(p, y);
    ReverseXor(Shl(r, 8), Run(Zeros(|p|), p, Reverse(y)));
    XorCommutes(Shr(Reverse(r), 8), RightSteps(Zeros(|p| - 8) + y, Reverse(p), 8));
  }

  /** Right-shifting with the reversed polynomial is dividing the reflected stream. */
  lemma {:induction false} RightCrcIsRun(r: Word, p: Word, bytes: seq<Byte>)
    requires |r| == |p| >= 8
    ensures RightCrc(Reverse(r), bytes, Reverse(p)) == Reverse(Run(r, p, Stream(bytes, true)))
    decreases |bytes|
  {
    if bytes != [] {
      hide Run, RightUpdate;
      RightUpdateIsRun(r, p, bytes[0]);
      RightCrcIsRun(Run(r, p, Reverse(bytes[0])), p, bytes[1..]);
      RunConcat(r, p, Reverse(bytes[0]), Stream(bytes[1..], true));
    } else {
      assert Stream(bytes, true) == [];
    }
  }

  // ----- left-shifting -----

  function LeftStep(c: Word, p: Word): (c': Word)
    requires |c| == |p| > 0
    ensures |c'| == |c|
  {
    if TestBit(c, |c| - 1) then Xor(Shl(c, 1), p) else Shl(c, 1)
  }

  function LeftSteps(c: Word, p: Word, n: nat): (c': Word)
    requires |c| == |p| > 0
    ensures |c'| == |c|
    decreases n
  {
    if n == 0 then c else LeftSteps(LeftStep(c, p), p, n - 1)
  }

  /** One byte: `table[(c >> (B - 8)) ^ b] ^ (c << 8)`. */
  function LeftUpdate(c: Word, b: Byte, p: Word): (c': Word)
    requires |c| == |p| >= 8
    ensures |c'| == |c|
  {
    Xor(LeftSteps(Xor(Low(Shr(c, |c| - 8), 8), b) + Zeros(|c| - 8), p, 8), Shl(c, 8))
  }

  function LeftCrc(c: Word, bytes: seq<Byte>, p: Word): (c': Word)
    requires |c| == |p| >= 8
    ensures |c'| == |c|
    decreases |bytes|
  {
    if bytes == [] then c else LeftCrc(LeftUpdate(c, bytes[0], p), bytes[1..], p)
  }

  lemma {:induction false} LeftStepsAreRun(r: Word, p: Word, n: nat)
    requires |r| == |p| > 0
    ensures LeftSteps(r, p, n) == Run(r, p, Zeros(n))
    decreases n
  {
    if n > 0 {
      assert Zeros(n)[1..] == Zeros(n - 1);
      assert LeftStep(r, p) == Step(r, p, false);
      LeftStepsAreRun(Step(r, p, false), p, n - 1);
    }
  }

  lemma TopOfWord(r: Word)
    requires |r| >= 8
    ensures TopByte(r) == Low(Shr(r, |r| - 8), 8)
  {}

  lemma LeftUpdateIsRun(r: Word, p: Word, b: Byte)
    requires |r| == |p| >= 8
    ensures Run(r, p, b) == LeftUpdate(r, b, p)
  {
    hide Run, LeftSteps, Shl, Shr, Low, TopByte;
    var y := Xor(TopByte(r), b);
    var start := y + Zeros(|p| - 8);
    ByteStep(r, p, b);
    TopOfWord(r);
    Absorb(Zeros(|p|), p, y);
    XorZeros(start);
    LeftStepsAreRun(start, p, 8);
    XorCommutes(Shl(r, 8), LeftSteps(start, p, 8));
  }

  lemma {:induction false} LeftCrcIsRun(r: Word, p: Word, bytes: seq<Byte>)
    requires |r| == |p| >= 8
    ensures LeftCrc(r, bytes, p) == Run(r, p, Stream(bytes, false))
    decreases |bytes|
  {
    if bytes != [] {
      hide Run, LeftUpdate;
      LeftUpdateIsRun(r, p, bytes[0]);
      LeftCrcIsRun(Run(r, p, bytes[0]), p, bytes[1..]);
      RunConcat(r, p, bytes[0], Stream(bytes[1..], false));
    } else {
      assert Stream(bytes, false) == [];
    }
  }

  // ----- the constants -----

  lemma NibbleValue(d: Digit)
    ensures ToNat(Nibble(d)) == d
  {
    var w := Nibble(d);
    assert w[..3][..2] == w[..2] && w[..2][..1] == w[..1] && w[..1][..0] == [];
    assert ToNat(w[..1]) == if w[0] then 1 else 0;
    assert ToNat(w[..2]) == 2 * ToNat(w[..1]) + (if w[1] then 1 else 0);
    assert ToNat(w[..3]) == 2 * ToNat(w[..2]) + (if w[2] then 1 else 0);
  }

  /** The digits mean what they say. */
  lemma HexValue(a: Digit, b: Digit, c: Digit, d: Digit)
    ensures ToNat(Hex4(a, b, c, d)) == 0x1000 * a + 0x100 * b + 0x10 * c + d
  {
    hide Nibble, ToNat;
    assert Pow2(4) == 16 && Pow2(8) == 256 by {
      assert Pow2(3) == 8 && Pow2(6) == 64;
    }
    NibbleValue(a);
    NibbleValue(b);
    NibbleValue(c);
    NibbleValue(d);
    ToNatConcat(Nibble(a), Nibble(b));
    ToNatConcat(Nibble(c), Nibble(d));
    ToNatConcat(Nibble(a) + Nibble(b), Nibble(c) + Nibble(d));
  }

  lemma Hex16(a: Digit, b: Digit, c: Digit, d: Digit)
    ensures Hex4(a, b, c, d) == FromNat(0x1000 * a + 0x100 * b + 0x10 * c + d, 16)
  {
    hide Hex4, FromNat, ToNat;
    HexValue(a, b, c, d);
    FromToNat(Hex4(a, b, c, d));
  }

  lemma Hex32(a: Digit, b: Digit, c: Digit, d: Digit, e: Digit, f: Digit, g: Digit, h: Digit)
    ensures Hex4(a, b, c, d) + Hex4(e, f, g, h) ==
            FromNat(0x1_0000 * (0x1000 * a + 0x100 * b + 0x10 * c + d) + 0x1000 * e + 0x100 * f + 0x10 * g + h, 32)
  {
    hide Hex4, FromNat, ToNat;
    assert Pow2(16) == 0x1_0000 by {
      assert Pow2(4) == 16 && Pow2(8) == 256 && Pow2(12) == 0x1000;
    }
    HexValue(a, b, c, d);
    HexValue(e, f, g, h);
    ToNatConcat(Hex4(a, b, c, d), Hex4(e, f, g, h));
    FromToNat(Hex4(a, b, c, d) + Hex4(e, f, g, h));
  }

  lemma ReverseConcat(a: Word, b: Word)
    ensures Reverse(a + b) == Reverse(b) + Reverse(a)
  {}

  predicate Mirrors(a: Digit, b: Digit) {
    Reverse(Nibble(a)) == Nibble(b)
  }

  lemma ReverseHex(a: Digit, b: Digit, c: Digit, d: Digit, e: Digit, f: Digit, g: Digit, h: Digit)
    requires Mirrors(a, h) && Mirrors(b, g) && Mirrors(c, f) && Mirrors(d, e)
    ensures Reverse(Hex4(a, b, c, d)) == Hex4(e, f, g, h)
  {
    ReverseConcat(Nibble(a), Nibble(b));
    ReverseConcat(Nibble(c), Nibble(d));
    ReverseConcat(Nibble(a) + Nibble(b), Nibble(c) + Nibble(d));
  }

  lemma MirrorDigits()
    ensures Mirrors(0, 0) && Mirrors(1, 8) && Mirrors(4, 2) && Mirrors(5, 10) && Mirrors(7, 14)
  {}

  lemma MoreMirrorDigits()
    ensures Mirrors(8, 1) && Mirrors(11, 13) && Mirrors(12, 3) && Mirrors(13, 11)
  {}

  /** The constant EDB88320 in that section's code is the reversal of the polynomial
      of `crc_32_type`. */
  lemma Crc32ReversedPolynomial()
    ensures Reverse(CRC_32.poly) == Hex4(14, 13, 11, 8) + Hex4(8, 3, 2, 0)
  {
    hide Mirrors, Hex4;
    MirrorDigits();
    MoreMirrorDigits();
    ReverseConcat(Hex4(0, 4, 12, 1), Hex4(1, 13, 11, 7));
    ReverseHex(0, 4, 12, 1, 8, 3, 2, 0);
    ReverseHex(1, 13, 11, 7, 14, 13, 11, 8);
  }

  // ----- the four types -----

  /** The `crc` function of that section. */
  function Rfc1952(bytes: seq<Byte>): (sum: Word)
    ensures |sum| == 32
  {
    Xor(RightCrc(FromNat(0xFFFF_FFFF, 32), bytes, FromNat(0xEDB8_8320, 32)), FromNat(0xFFFF_FFFF, 32))
  }

  lemma ReverseOnes(w: Word)
    requires forall i :: 0 <= i < |w| ==> w[i]
    ensures Reverse(w) == w
  {}

  lemma AllOnes()
    ensures forall i :: 0 <= i < 32 ==> Ones32()[i]
    ensures Ones32() == FromNat(0xFFFF_FFFF, 32)
  {
    hide FromNat;
    Hex32(15, 15, 15, 15, 15, 15, 15, 15);
    assert forall i :: 0 <= i < 16 ==> Hex4(15, 15, 15, 15)[i];
  }

  /** `crc_32_type` is that section's CRC, for every buffer. */
  lemma Crc32IsRfc1952(bytes: seq<Byte>)
    ensures Checksum(CRC_32, bytes) == Rfc1952(bytes)
  {
    hide Run, RightCrc, Stream, FromNat, Hex4, Ones32, Xor;
    AllOnes();
    ReverseOnes(Ones32());
    Crc32ReversedPolynomial();
    Hex32(14, 13, 11, 8, 8, 3, 2, 0);
    RightCrcIsRun(CRC_32.init, CRC_32.poly, bytes);
  }

  lemma ReverseZeros(n: nat)
    ensures Reverse(Zeros(n)) == Zeros(n)
  {}

  lemma ZeroWord()
    ensures Zeros(16) == FromNat(0, 16)
  {
    hide FromNat;
    Hex16(0, 0, 0, 0);
    assert Zeros(16) == Hex4(0, 0, 0, 0);
  }

  /** `crc_16_type` is right-shifting from 0 with A001, the reversal of 8005. */
  lemma Crc16IsRightShifting(bytes: seq<Byte>)
    ensures Checksum(CRC_16, bytes) == RightCrc(FromNat(0, 16), bytes, FromNat(0xA001, 16))
  {
    hide Run, RightCrc, Stream, FromNat, Hex4, Xor, Mirrors;
    MirrorDigits();
    MoreMirrorDigits();
    ReverseZeros(16);
    ZeroWord();
    ReverseHex(8, 0, 0, 5, 10, 0, 0, 1);
    Hex16(10, 0, 0, 1);
    RightCrcIsRun(CRC_16.init, CRC_16.poly, bytes);
    XorZeros(Reverse(Run(CRC_16.init, CRC_16.poly, Stream(bytes, true))));
  }

  /** `crc_xmodem_type` is right-shifting from 0 with 1021. */
  lemma CrcXmodemIsRightShifting(bytes: seq<Byte>)
    ensures Checksum(CRC_XMODEM, bytes) == RightCrc(FromNat(0, 16), bytes, FromNat(0x1021, 16))
  {
    hide Run, RightCrc, Stream, FromNat, Hex4, Xor, Mirrors;
    MirrorDigits();
    MoreMirrorDigits();
    ReverseZeros(16);
    ZeroWord();
    ReverseHex(8, 4, 0, 8, 1, 0, 2, 1);
    Hex16(1, 0, 2, 1);
    RightCrcIsRun(CRC_XMODEM.init, CRC_XMODEM.poly, bytes);
    XorZeros(Reverse(Run(CRC_XMODEM.init, CRC_XMODEM.poly, Stream(bytes, true))));
  }

  /** `crc_ccitt_type` is left-shifting from FFFF with 1021. */
  lemma CrcCcittIsLeftShifting(bytes: seq<Byte>)
    ensures Checksum(CRC_CCITT, bytes) == LeftCrc(FromNat(0xFFFF, 16), bytes, FromNat(0x1021, 16))
  {
    hide Run, LeftCrc, Stream, FromNat, Hex4, Xor;
    Hex16(15, 15, 15, 15);
    Hex16(1, 0, 2, 1);
    LeftCrcIsRun(CRC_CCITT.init, CRC_CCITT.poly, bytes);
    XorZeros(Run(CRC_CCITT.init, CRC_CCITT.poly, Stream(bytes, false)));
  }
}
