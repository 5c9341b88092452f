/** The checksum every CRC engine of the library must produce, and the law that
    lets an engine consume eight bits at once. */
module CrcSpec {

  import opened Sequences
  import opened Words
  import opened PolynomialDivision

  /** The template parameters of a CRC, cut to exactly `bits` bits. */
  datatype Params = Params(poly: Word, init: Word, final: Word, reflectIn: bool, reflectRem: bool) {
    ghost predicate Valid() {
      |poly| == |init| == |final| > 0
    }
  }

  /** Words of any width count with their low `bits` bits only. */
  function LowParams(bits: nat, poly: Word, init: Word, final: Word, reflectIn: bool, reflectRem: bool): (c: Params)
    requires 0 < bits && bits <= |poly| && bits <= |init| && bits <= |final|
    ensures c.Valid() && |c.poly| == bits
  {
    Params(Low(poly, bits), Low(init, bits), Low(final, bits), reflectIn, reflectRem)
  }

  function MaybeReverse(w: Word, reflect: bool): (s: Word)
    ensures |s| == |w|
  {
    if reflect then Reverse(w) else w
  }

  /** The bits of a buffer in the order the division consumes them. */
  function Stream(bytes: seq<Byte>, reflect: bool): (bits: Word)
    ensures |bits| == 8 * |bytes|
  {
    if bytes == [] then [] else MaybeReverse(bytes[0], reflect) + Stream(bytes[1..], reflect)
  }

  lemma {:induction false} StreamConcat(a: seq<Byte>, b: seq<Byte>, reflect: bool)
    ensures Stream(a + b, reflect) == Stream(a, reflect) + Stream(b, reflect)
  {
    if a == [] {
      assert a + b == b;
    } else {
      StreamConcat(a[1..], b, reflect);
      assert (a + b)[1..] == a[1..] + b;
      Associate(MaybeReverse(a[0], reflect), Stream(a[1..], reflect), Stream(b, reflect));
    }
  }

  /** The effect of one more byte at the end of a processed prefix. */
  lemma RunNextByte(r: Word, p: Word, bytes: seq<Byte>, i: nat, reflect: bool)
    requires |r| == |p| > 0 && i < |bytes|
    ensures Run(r, p, Stream(bytes[..i + 1], reflect)) ==
            Run(Run(r, p, Stream(bytes[..i], reflect)), p, MaybeReverse(bytes[i], reflect))
  {
    assert bytes[..i + 1] == bytes[..i] + [bytes[i]];
    StreamConcat(bytes[..i], [bytes[i]], reflect);
    var last := MaybeReverse(bytes[i], reflect);
    assert Stream([bytes[i]], reflect) == last + [] == last;
    RunConcat(r, p, Stream(bytes[..i], reflect), last);
  }

  /** From a remainder to the published checksum. */
  function Publish(r: Word, c: Params): (sum: Word)
    requires c.Valid() && |r| == |c.poly|
    ensures |sum| == |c.poly|
  {
    Xor(MaybeReverse(r, c.reflectRem), c.final)
  }

  function Checksum(c: Params, bytes: seq<Byte>): (sum: Word)
    requires c.Valid()
    ensures |sum| == |c.poly|
  {
    Publish(Run(c.init, c.poly, Stream(bytes, c.reflectIn)), c)
  }

  lemma StreamCons(bytes: seq<Byte>, reflect: bool)
    requires bytes != []
    ensures Stream(bytes, reflect) == MaybeReverse(bytes[0], reflect) + Stream(bytes[1..], reflect)
  {}

  lemma ByteBit(b: Byte, reflect: bool, j: nat)
    requires j < 8
    ensures MaybeReverse(b, reflect)[j] == TestBit(b, if reflect then j else 7 - j)
  {}

  /** Bit j of byte i in the stream: from the lowest up if input is reflected, and else
      from the highest down. */
  lemma {:induction false} StreamBit(bytes: seq<Byte>, reflect: bool, i: nat, j: nat)
    requires i < |bytes| && j < 8
    ensures Stream(bytes, reflect)[8 * i + j] == TestBit(bytes[i], if reflect then j else 7 - j)
    decreases i
  {
    hide Stream, MaybeReverse, TestBit;
    var head, tail := MaybeReverse(bytes[0], reflect), Stream(bytes[1..], reflect);
    StreamCons(bytes, reflect);
    if i == 0 {
      ByteBit(bytes[0], reflect, j);
      assert (head + tail)[j] == head[j];
    } else {
      StreamBit(bytes[1..], reflect, i - 1, j);
      assert (head + tail)[8 * i + j] == tail[8 * (i - 1) + j];
    }
  }

  /** Bit by bit: `sum` is `r`, in the order asked for, XOR the final value. */
  ghost predicate Publishes(sum: Word, r: Word, c: Params) {
    && |sum| == |r| == |c.final|
    && forall k :: 0 <= k < |r| ==> sum[k] == (r[if c.reflectRem then |r| - 1 - k else k] != c.final[k])
  }

  /** What a published checksum is: made from the remainder of the initial value and
      the stream. */
  lemma ChecksumIsTheRemainder(c: Params, bytes: seq<Byte>)
    requires c.Valid()
    ensures exists q, r :: IsDivision(Dividend(c.init, Stream(bytes, c.reflectIn)), c.poly, q, r) &&
                           Publishes(Checksum(c, bytes), r, c)
  {
    hide Run, Stream, IsDivision;
    var r := Run(c.init, c.poly, Stream(bytes, c.reflectIn));
    RunIsTheRemainder(c.init, c.poly, Stream(bytes, c.reflectIn));
    assert Publishes(Checksum(c, bytes), r, c);
  }

  // ----- the byte-at-a-time law -----

  /** The top eight bits of a remainder, zero-padded below when it is narrower than a byte. */
  function TopByte(r: Word): (b: Byte) {
    (r + Zeros(8))[..8]
  }

  /** Splitting the top byte off a dividend: it contributes its own remainder, and
      what is below is already reduced. */
  lemma RemSplitTop(t: Byte, rest: Word, p: Word)
    requires |rest| == |p| > 0
    ensures Rem(t + rest, p) == Xor(Run(Zeros(|p|), p, t), rest)
  {
    var hi, lo := t + Zeros(|p|), Zeros(8) + rest;
    assert t + rest == Xor(hi, lo);
    RemLinear(hi, lo, p);
    RemLeadingZeros(8, rest, p);
    RunFromZero(p, t);
  }

  lemma DividendOfByte(r: Word, x: Byte)
    ensures Dividend(r, x) == Xor(TopByte(r), x) + Shl(r, 8)
  {
    assert r + Zeros(8) == TopByte(r) + Shl(r, 8);
  }

  /** Eight division steps are a shift by eight and one table lookup, for every
      width, including widths below eight. */
  lemma ByteStep(r: Word, p: Word, x: Byte)
    requires |r| == |p| > 0
    ensures Run(r, p, x) == Xor(Shl(r, 8), Run(Zeros(|p|), p, Xor(TopByte(r), x)))
  {
    var t := Xor(TopByte(r), x);
    var s := Run(Zeros(|p|), p, t);
    DividendOfByte(r, x);
    RunIsRem(r, p, x);
    RemSplitTop(t, Shl(r, 8), p);
    XorCommutes(s, Shl(r, 8));
  }

  // ----- augmented messages -----

  /** Division without the implicit factor x^B: shift the message through the register. */
  lemma AugmentedByteStep(r: Word, p: Word, x: Byte)
    requires |r| == |p| >= 8
    ensures Rem(r + x, p) == Xor(r[8..] + x, Run(Zeros(|p|), p, r[..8]))
  {
    var s := Run(Zeros(|p|), p, r[..8]);
    assert r + x == r[..8] + (r[8..] + x);
    RemSplitTop(r[..8], r[8..] + x, p);
    XorCommutes(s, r[8..] + x);
  }

  lemma AugmentedNextByte(r: Word, p: Word, bytes: seq<Byte>, i: nat)
    requires |r| == |p| > 0 && i < |bytes|
    ensures Rem(r + Stream(bytes[..i + 1], false), p) ==
            Rem(Rem(r + Stream(bytes[..i], false), p) + bytes[i], p)
  {
    var before := Stream(bytes[..i], false);
    assert bytes[..i + 1] == bytes[..i] + [bytes[i]];
    StreamConcat(bytes[..i], [bytes[i]], false);
    assert Stream([bytes[i]], false) == bytes[i] + [] == bytes[i];
    Associate(r, before, bytes[i]);
    RemAppend(r + before, bytes[i], p);
  }

  /** Dividing I ++ message ++ 0^B is the ordinary CRC of I ++ message from zero;
      with I = 0 it is the ordinary CRC of the message. */
  lemma AugmentedIsRun(init: Word, p: Word, message: Word)
    requires |init| == |p| > 0
    ensures Rem(init + (message + Zeros(|p|)), p) == Run(Zeros(|p|), p, init + message)
    ensures init == Zeros(|p|) ==>
              Rem(init + (message + Zeros(|p|)), p) == Run(Zeros(|p|), p, message)
  {
    Associate(init, message, Zeros(|p|));
    RunFromZero(p, init + message);
    if init == Zeros(|p|) {
      RunFromZero(p, message);
      RemLeadingZeros(|p|, message + Zeros(|p|), p);
    }
  }

  lemma ConcatAsXor(a: Word, b: Word)
    ensures a + b == Xor(a + Zeros(|b|), Zeros(|a|) + b)
  {}

  /** A message followed by B bits divides to zero exactly when those bits are its CRC. */
  lemma AugmentedValidates(p: Word, message: Word, check: Word)
    requires |check| == |p| > 0
    ensures Rem(Zeros(|p|) + (message + check), p) == Zeros(|p|) <==>
            check == Run(Zeros(|p|), p, message)
  {
    var shifted, low := message + Zeros(|p|), Zeros(|message|) + check;
    RemLeadingZeros(|p|, message + check, p);
    ConcatAsXor(message, check);
    RemLinear(shifted, low, p);
    RemLeadingZeros(|message|, check, p);
    RunFromZero(p, message);
    XorZeroIff(Run(Zeros(|p|), p, message), check);
  }
}
