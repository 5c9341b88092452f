/** The four ready-made CRC types, and what follows for them and for augmented messages. */
module CrcTypes {

  import opened Words
  import opened PolynomialDivision
  import opened CrcSpec
  import opened ErrorDetection

  type Digit = d: nat | d < 16

  /** A hexadecimal digit as four bits. */
  function Nibble(d: Digit): (w: Word)
    ensures |w| == 4
  {
    [d / 8 == 1, d / 4 % 2 == 1, d / 2 % 2 == 1, d % 2 == 1]
  }

  function Hex2(a: Digit, b: Digit): (w: Byte) {
    Nibble(a) + Nibble(b)
  }

  function Hex4(a: Digit, b: Digit, c: Digit, d: Digit): (w: Word)
    ensures |w| == 16
  {
    Nibble(a) + Nibble(b) + (Nibble(c) + Nibble(d))
  }

  function Ones32(): (w: Word)
    ensures |w| == 32
  {
    Hex4(15, 15, 15, 15) + Hex4(15, 15, 15, 15)
  }

  // The polynomials 8005, 1021, 8408 and 04C11DB7.
  const CRC_16 := Params(Hex4(8, 0, 0, 5), Zeros(16), Zeros(16), true, true)
  const CRC_CCITT := Params(Hex4(1, 0, 2, 1), Hex4(15, 15, 15, 15), Zeros(16), false, false)
  const CRC_XMODEM := Params(Hex4(8, 4, 0, 8), Zeros(16), Zeros(16), true, true)
  const CRC_32 := Params(Hex4(0, 4, 12, 1) + Hex4(1, 13, 11, 7), Ones32(), Ones32(), true, true)

  // ----- what each type detects -----

  /** All but `crc_xmodem_type` detect every burst up to their width. That one is
      declared with the bit-reversed polynomial although it also reflects, so its
      constant coefficient is 0. */
  lemma BurstDetectionByType()
    ensures DetectsBursts(CRC_16.poly) && DetectsBursts(CRC_CCITT.poly) && DetectsBursts(CRC_32.poly)
    ensures !DetectsBursts(CRC_XMODEM.poly)
    ensures Reverse(CRC_XMODEM.poly) == CRC_CCITT.poly
  {
    hide DetectsBursts;
    BurstDetectionCriterion(CRC_16.poly);
    BurstDetectionCriterion(CRC_CCITT.poly);
    BurstDetectionCriterion(CRC_32.poly);
    BurstDetectionCriterion(CRC_XMODEM.poly);
  }

  lemma TwoByteStream(x: Byte, y: Byte)
    ensures Stream([x, y], true) == Reverse(x) + Reverse(y)
  {
    var a: seq<Byte> := [x, y];
    assert a[1..] == [y];
    assert Stream([y], true) == Reverse(y);
  }

  lemma XmodemStreams()
    ensures !CRC_XMODEM.poly[15]
    ensures Reverse(Hex2(4, 3)) + Reverse(Hex2(2, 0)) == BlindBurst(CRC_XMODEM.poly)
    ensures Reverse(Hex2(0, 0)) + Reverse(Hex2(0, 0)) == Zeros(16)
    ensures Hex2(4, 3) != Hex2(0, 0)
  {
    assert Hex2(4, 3)[1] && !Hex2(0, 0)[1];
  }

  /** The two-byte buffers 43 20 and 00 00 have the same `crc_xmodem_type` checksum. */
  lemma XmodemMissesABurst()
    ensures Hex2(4, 3) != Hex2(0, 0)
    ensures Checksum(CRC_XMODEM, [Hex2(4, 3), Hex2(2, 0)]) == Checksum(CRC_XMODEM, [Hex2(0, 0), Hex2(0, 0)])
  {
    hide Run, Hex2, Hex4, Publish, BlindBurst, Stream;
    XmodemStreams();
    TwoByteStream(Hex2(4, 3), Hex2(2, 0));
    TwoByteStream(Hex2(0, 0), Hex2(0, 0));
    BlindBurstUndetected(CRC_XMODEM.init, CRC_XMODEM.poly);
  }

  function DigitParity(d: Digit): bool {
    (d / 8 + d / 4 % 2 + d / 2 % 2 + d % 2) % 2 == 1
  }

  lemma ParityOfDigit(d: Digit)
    ensures Parity(Nibble(d)) == DigitParity(d)
  {
    var w := Nibble(d);
    assert w[1..][1..] == w[2..] && w[2..][1..] == w[3..] && w[3..][1..] == [];
    assert Parity(w[3..]) == w[3] && Parity(w[2..]) == (w[2] != Parity(w[3..]));
    assert Parity(w[1..]) == (w[1] != Parity(w[2..]));
  }

  lemma ParityOfHex(a: Digit, b: Digit, c: Digit, d: Digit)
    ensures Parity(Hex4(a, b, c, d)) ==
            ((DigitParity(a) != DigitParity(b)) != (DigitParity(c) != DigitParity(d)))
  {
    hide DigitParity, Nibble, Parity;
    ParityOfDigit(a);
    ParityOfDigit(b);
    ParityOfDigit(c);
    ParityOfDigit(d);
    ParityConcat(Nibble(a), Nibble(b));
    ParityConcat(Nibble(c), Nibble(d));
    ParityConcat(Nibble(a) + Nibble(b), Nibble(c) + Nibble(d));
  }

  /** The three 16-bit polynomials detect every error in an odd number of
      positions; the one of `crc_32_type`, with 14 ones, does not. */
  lemma OddErrorsByType()
    ensures DetectsOddErrors(CRC_16.poly) && DetectsOddErrors(CRC_CCITT.poly) && DetectsOddErrors(CRC_XMODEM.poly)
    ensures !DetectsOddErrors(CRC_32.poly)
  {
    hide DetectsOddErrors, Hex4, Parity;
    OddErrorCriterion(CRC_16.poly);
    OddErrorCriterion(CRC_CCITT.poly);
    OddErrorCriterion(CRC_XMODEM.poly);
    OddErrorCriterion(CRC_32.poly);
    ParityOfHex(8, 0, 0, 5);
    ParityOfHex(1, 0, 2, 1);
    ParityOfHex(8, 4, 0, 8);
    ParityOfHex(0, 4, 12, 1);
    ParityOfHex(1, 13, 11, 7);
    ParityConcat(Hex4(0, 4, 12, 1), Hex4(1, 13, 11, 7));
  }

  // ----- what that means for published checksums -----

  /** The k bytes from which a buffer's 8k bits are taken in the configured order; without
      reflection, the word's bytes from the most significant on. */
  function BytesOf(w: Word, k: nat, reflect: bool): (bytes: seq<Byte>)
    requires |w| == 8 * k
    ensures |bytes| == k
  {
    if k == 0 then [] else [MaybeReverse(w[..8], reflect)] + BytesOf(w[8..], k - 1, reflect)
  }

  lemma {:induction false} StreamOfBytesOf(w: Word, k: nat, reflect: bool)
    requires |w| == 8 * k
    ensures Stream(BytesOf(w, k, reflect), reflect) == w
  {
    if k > 0 {
      ReverseReverse(w[..8]);
      StreamOfBytesOf(w[8..], k - 1, reflect);
      assert BytesOf(w, k, reflect)[1..] == BytesOf(w[8..], k - 1, reflect);
    }
  }

  lemma MaybeReverseXor(a: Word, b: Word, reflect: bool)
    requires |a| == |b|
    ensures MaybeReverse(MaybeReverse(a, reflect), reflect) == a
    ensures MaybeReverse(Xor(a, b), reflect) == Xor(MaybeReverse(a, reflect), MaybeReverse(b, reflect))
  {
    ReverseReverse(a);
    ReverseXor(a, b);
  }

  lemma XorUndo(r: Word, f: Word, w: Word)
    requires |r| == |f| == |w|
    ensures Xor(f, Xor(Xor(r, f), w)) == Xor(r, w)
  {}

  /** The bits of a buffer give the buffer back. */
  lemma {:induction false} BytesOfStream(a: seq<Byte>, reflect: bool)
    ensures BytesOf(Stream(a, reflect), |a|, reflect) == a
  {
    if a != [] {
      hide Stream, MaybeReverse;
      var x, s := MaybeReverse(a[0], reflect), Stream(a[1..], reflect);
      StreamCons(a, reflect);
      assert (x + s)[..8] == x && (x + s)[8..] == s;
      MaybeReverseXor(a[0], a[0], reflect);
      BytesOfStream(a[1..], reflect);
    }
  }

  lemma StreamInjective(a: seq<Byte>, b: seq<Byte>, reflect: bool)
    requires |a| == |b| && Stream(a, reflect) == Stream(b, reflect)
    ensures a == b
  {
    hide Stream, BytesOf;
    BytesOfStream(a, reflect);
    BytesOfStream(b, reflect);
  }

  lemma PublishInjective(r: Word, s: Word, c: Params)
    requires c.Valid() && |r| == |s| == |c.poly| && r != s
    ensures Publish(r, c) != Publish(s, c)
  {
    ReverseReverse(r);
    ReverseReverse(s);
    var x, y := MaybeReverse(r, c.reflectRem), MaybeReverse(s, c.reflectRem);
    var i :| 0 <= i < |x| && x[i] != y[i];
    assert Publish(r, c)[i] != Publish(s, c)[i];
  }

  /** Whatever the initial value, final XOR and reflections: two different buffers of
      one length whose bits, in the order processed, differ only inside a window of
      `bits` positions never have the same checksum, if the polynomial's low bit is set. */
  lemma ChecksumDetectsBursts(c: Params, a: seq<Byte>, b: seq<Byte>, from: nat)
    requires c.Valid() && c.poly[|c.poly| - 1]
    requires |a| == |b| && a != b
    requires DifferWithin(Stream(a, c.reflectIn), Stream(b, c.reflectIn), from, |c.poly|)
    ensures Checksum(c, a) != Checksum(c, b)
  {
    hide Run, Publish, Stream;
    var s, t := Stream(a, c.reflectIn), Stream(b, c.reflectIn);
    if s == t {
      StreamInjective(a, b, c.reflectIn);
    }
    BurstDetected(c.init, c.poly, s, t, from);
    PublishInjective(Run(c.init, c.poly, s), Run(c.init, c.poly, t), c);
  }

  /** Without that bit two buffers go together, one byte for each bit of the polynomial:
      the blind burst with zeros behind it, and only zeros. */
  lemma ChecksumMissesBurst(c: Params) returns (a: seq<Byte>, b: seq<Byte>)
    requires c.Valid() && !c.poly[|c.poly| - 1]
    ensures |a| == |b| && a != b
    ensures DifferWithin(Stream(a, c.reflectIn), Stream(b, c.reflectIn), 0, |c.poly|)
    ensures Checksum(c, a) == Checksum(c, b)
  {
    hide Run, Publish, Stream, BytesOf;
    var p, n := c.poly, |c.poly|;
    var s, t := BlindBurst(p) + Zeros(7 * n), Zeros(n) + Zeros(7 * n);
    a, b := BytesOf(s, n, c.reflectIn), BytesOf(t, n, c.reflectIn);
    StreamOfBytesOf(s, n, c.reflectIn);
    StreamOfBytesOf(t, n, c.reflectIn);
    assert s[0] && !t[0];
    BlindBurstUndetected(c.init, p);
    RunConcat(c.init, p, BlindBurst(p), Zeros(7 * n));
    RunConcat(c.init, p, Zeros(n), Zeros(7 * n));
  }

  /** No burst of at most B bits goes unnoticed in a buffer of any length. */
  ghost predicate ChecksumsDetectBursts(c: Params)
    requires c.Valid()
  {
    forall a: seq<Byte>, b: seq<Byte>, from: nat ::
      |a| == |b| && a != b && DifferWithin(Stream(a, c.reflectIn), Stream(b, c.reflectIn), from, |c.poly|) ==>
        Checksum(c, a) != Checksum(c, b)
  }

  /** Published checksums detect every burst exactly when the polynomial's low bit is
      set; initial value, final XOR and reflections make no difference. */
  lemma ChecksumBurstCriterion(c: Params)
    requires c.Valid()
    ensures ChecksumsDetectBursts(c) <==> c.poly[|c.poly| - 1]
  {
    hide Checksum, Stream;
    if c.poly[|c.poly| - 1] {
      forall a: seq<Byte>, b: seq<Byte>, from: nat
        | |a| == |b| && a != b && DifferWithin(Stream(a, c.reflectIn), Stream(b, c.reflectIn), from, |c.poly|)
        ensures Checksum(c, a) != Checksum(c, b)
      {
        ChecksumDetectsBursts(c, a, b, from);
      }
    } else {
      var a, b := ChecksumMissesBurst(c);
    }
  }

  // ----- checking a received buffer -----

  /** The check bits behind a message: its checksum, in the order the bits are processed.
      Packed by `BytesOf` they are the checksum's bytes, the lowest first if both flags
      are set and the highest first if neither is. */
  function CheckBits(c: Params, message: seq<Byte>): (w: Word)
    requires c.Valid()
    ensures |w| == |c.poly|
  {
    MaybeReverse(Checksum(c, message), c.reflectRem)
  }

  /** The checksum of every message with its check bytes: a constant of the parameters. */
  function Residue(c: Params): (sum: Word)
    requires c.Valid()
    ensures |sum| == |c.poly|
  {
    Publish(Run(MaybeReverse(c.final, c.reflectRem), c.poly, Zeros(|c.poly|)), c)
  }

  /** The register after a message and any word of check bits, in terms of the
      difference to the right ones. */
  lemma RegisterAfterCheck(c: Params, k: nat, message: seq<Byte>, check: Word)
    requires c.Valid() && |check| == |c.poly| == 8 * k
    ensures var z := Zeros(8 * k);
            Run(c.init, c.poly, Stream(message + BytesOf(check, k, c.reflectIn), c.reflectIn)) ==
            Xor(Run(MaybeReverse(c.final, c.reflectRem), c.poly, z),
                Run(Xor(CheckBits(c, message), check), c.poly, z))
  {
    hide Run, Xor, Stream, MaybeReverse, BytesOf;
    var z, m := Zeros(8 * k), Stream(message, c.reflectIn);
    var r, f := Run(c.init, c.poly, m), MaybeReverse(c.final, c.reflectRem);
    var s := CheckBits(c, message);
    StreamConcat(message, BytesOf(check, k, c.reflectIn), c.reflectIn);
    StreamOfBytesOf(check, k, c.reflectIn);
    RunConcat(c.init, c.poly, m, check);
    Absorb(r, c.poly, check);
    assert check + Zeros(0) == check;
    MaybeReverseXor(MaybeReverse(r, c.reflectRem), c.final, c.reflectRem);
    MaybeReverseXor(r, r, c.reflectRem);
    assert s == Xor(r, f);
    XorUndo(r, f, check);
    RunLinear(f, Xor(s, check), c.poly, z, z);
    XorSelf(z);
  }

  lemma XorIsFirst(f: Word, e: Word)
    requires |f| == |e|
    ensures Xor(f, e) == f <==> e == Zeros(|e|)
  {
    if Xor(f, e) == f {
      forall i | 0 <= i < |e|
        ensures !e[i]
      {
        assert Xor(f, e)[i] == f[i];
      }
    }
  }

  /** A message with its own check bytes always has the residue as its checksum; another
      check word gives it exactly when its difference to the right one runs to zero. */
  lemma ResidueOfCheck(c: Params, k: nat, message: seq<Byte>, check: Word)
    requires c.Valid() && |check| == |c.poly| == 8 * k
    ensures Checksum(c, message + BytesOf(CheckBits(c, message), k, c.reflectIn)) == Residue(c)
    ensures Checksum(c, message + BytesOf(check, k, c.reflectIn)) == Residue(c) <==>
            Run(Xor(CheckBits(c, message), check), c.poly, Zeros(8 * k)) == Zeros(8 * k)
  {
    hide Run, Stream, Publish, MaybeReverse, BytesOf;
    var z, s := Zeros(8 * k), CheckBits(c, message);
    var f := Run(MaybeReverse(c.final, c.reflectRem), c.poly, z);
    RunOfZeros(c.poly, 8 * k);
    XorSelf(s);
    XorZeros(f);
    RegisterAfterCheck(c, k, message, s);
    RegisterAfterCheck(c, k, message, check);
    var e := Run(Xor(s, check), c.poly, z);
    XorIsFirst(f, e);
    if Xor(f, e) != f {
      PublishInjective(Xor(f, e), f, c);
    }
  }

  /** A receiver that compares with the residue accepts exactly the right check bytes. */
  ghost predicate ReceiverIsExact(c: Params, k: nat)
    requires c.Valid() && |c.poly| == 8 * k
  {
    forall message: seq<Byte>, check: Word | |check| == 8 * k ::
      Checksum(c, message + BytesOf(check, k, c.reflectIn)) == Residue(c) <==> check == CheckBits(c, message)
  }

  lemma ExactCheck(c: Params, k: nat, message: seq<Byte>, check: Word)
    requires c.Valid() && |c.poly| == |check| == 8 * k && c.poly[8 * k - 1]
    ensures Checksum(c, message + BytesOf(check, k, c.reflectIn)) == Residue(c) <==> check == CheckBits(c, message)
  {
    hide Run, Stream, Checksum, CheckBits, Residue, BytesOf;
    var e := Xor(CheckBits(c, message), check);
    ResidueOfCheck(c, k, message, check);
    XorZeroIff(CheckBits(c, message), check);
    if e != Zeros(|e|) {
      ZeroRunInvertible(e, c.poly, 8 * k);
    }
  }

  /** Without the polynomial's low bit, the blind burst turns every right check word
      into a wrong one that is accepted. */
  lemma WrongCheck(c: Params, k: nat, message: seq<Byte>) returns (check: Word)
    requires c.Valid() && |c.poly| == 8 * k && !c.poly[8 * k - 1]
    ensures |check| == 8 * k && check != CheckBits(c, message)
    ensures Checksum(c, message + BytesOf(check, k, c.reflectIn)) == Residue(c)
  {
    hide Run, Stream, Checksum, CheckBits, Residue, BytesOf;
    var e, s := BlindBurst(c.poly), CheckBits(c, message);
    check := Xor(s, e);
    BlindBurstRunsToZero(c.poly);
    XorCommutes(s, e);
    XorTwice(e, s);
    ResidueOfCheck(c, k, message, check);
    assert e[0] && check[0] != s[0];
  }

  /** It does exactly when the polynomial's low bit is set, whatever the other parameters. */
  lemma ReceiverIsExactIff(c: Params, k: nat)
    requires c.Valid() && |c.poly| == 8 * k
    ensures ReceiverIsExact(c, k) <==> c.poly[8 * k - 1]
  {
    hide Checksum, CheckBits, Residue, BytesOf;
    if c.poly[8 * k - 1] {
      forall message: seq<Byte>, check: Word | |check| == 8 * k
        ensures Checksum(c, message + BytesOf(check, k, c.reflectIn)) == Residue(c) <==> check == CheckBits(c, message)
      {
        ExactCheck(c, k, message, check);
      }
    } else {
      var check := WrongCheck(c, k, []);
    }
  }

  // ----- augmented messages, byte by byte -----

  function ZeroBytes(k: nat): (z: seq<Byte>) {
    seq(k, _ => Zeros(8))
  }

  lemma {:induction false} StreamOfZeroBytes(k: nat)
    ensures Stream(ZeroBytes(k), false) == Zeros(8 * k)
  {
    if k > 0 {
      StreamOfZeroBytes(k - 1);
      assert ZeroBytes(k)[1..] == ZeroBytes(k - 1);
      assert Zeros(8 * k) == Zeros(8) + Zeros(8 * (k - 1));
    }
  }

  /** The plain CRC with this polynomial: no initial value, no final XOR, no reflection. */
  function Plain(p: Word): (c: Params) {
    Params(p, Zeros(|p|), Zeros(|p|), false, false)
  }

  lemma PlainChecksum(p: Word, message: seq<Byte>)
    requires |p| > 0
    ensures Checksum(Plain(p), message) == Run(Zeros(|p|), p, Stream(message, false))
  {
    XorZeros(Run(Zeros(|p|), p, Stream(message, false)));
  }

  /** `augmented_crc` (which returns this `Rem`, see CrcOptimal.AugmentedCrc) on a
      message and Bits/8 zero bytes is the table-driven checksum of the message. With
      another initial remainder it is the checksum of that remainder's bytes and the message. */
  lemma AugmentedMatchesOptimal(p: Word, k: nat, init: Word, message: seq<Byte>)
    requires |init| == |p| == 8 * k > 0
    ensures Rem(Zeros(|p|) + Stream(message + ZeroBytes(k), false), p) == Checksum(Plain(p), message)
    ensures Rem(init + Stream(message + ZeroBytes(k), false), p) ==
            Checksum(Plain(p), BytesOf(init, k, false) + message)
  {
    var m := Stream(message, false);
    StreamConcat(message, ZeroBytes(k), false);
    StreamOfZeroBytes(k);
    AugmentedIsRun(init, p, m);
    AugmentedIsRun(Zeros(|p|), p, m);
    PlainChecksum(p, message);
    StreamConcat(BytesOf(init, k, false), message, false);
    StreamOfBytesOf(init, k, false);
    PlainChecksum(p, BytesOf(init, k, false) + message);
  }

  /** A received message with Bits/8 check bytes divides to zero exactly when they
      are the message's checksum, most significant byte first. */
  lemma AugmentedAcceptsExactlyTheChecksum(p: Word, k: nat, message: seq<Byte>, check: Word)
    requires |check| == |p| == 8 * k > 0
    ensures Rem(Zeros(|p|) + Stream(message + BytesOf(check, k, false), false), p) == Zeros(|p|) <==>
            check == Checksum(Plain(p), message)
  {
    StreamConcat(message, BytesOf(check, k, false), false);
    StreamOfBytesOf(check, k, false);
    AugmentedValidates(p, Stream(message, false), check);
    PlainChecksum(p, message);
  }
}
