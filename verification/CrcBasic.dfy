/** `crc_basic`: the one-bit-at-a-time CRC register. */
module CrcBasic {

  import opened Words
  import opened PolynomialDivision
  import opened CrcSpec

  lemma CompareTop(rem: Word, bits: nat, bit: bool)
    requires 0 < bits <= |rem|
    ensures var compared := if bit then Xor(rem, OneBit(|rem|, bits - 1)) else rem;
            && TestBit(compared, bits - 1) == (Low(rem, bits)[0] != bit)
            && Low(compared, bits)[1..] == Low(rem, bits)[1..]
  {}

  lemma LowShift(w: Word, bits: nat)
    requires 0 < bits <= |w|
    ensures Low(Shl(w, 1), bits) == Low(w, bits)[1..] + [false]
  {}

  lemma LowXor(a: Word, b: Word, bits: nat)
    requires bits <= |a| == |b|
    ensures Low(Xor(a, b), bits) == Xor(Low(a, bits), Low(b, bits))
  {}

  /** `process_bit` on the low bits of a wider register, whatever lies above them. */
  lemma StepOnWord(rem: Word, poly: Word, bits: nat, bit: bool)
    requires 0 < bits <= |rem| == |poly|
    ensures var compared := if bit then Xor(rem, OneBit(|rem|, bits - 1)) else rem;
            var shifted := Shl(compared, 1);
            Low(if TestBit(compared, bits - 1) then Xor(shifted, poly) else shifted, bits) ==
            Step(Low(rem, bits), Low(poly, bits), bit)
  {
    hide Xor, Shl, Low, TestBit, OneBit;
    var compared := if bit then Xor(rem, OneBit(|rem|, bits - 1)) else rem;
    CompareTop(rem, bits, bit);
    LowShift(compared, bits);
    LowXor(Shl(compared, 1), poly, bits);
  }

  lemma MaskedXor(a: Word, b: Word, bits: nat)
    requires bits <= |a| == |b|
    ensures MaskLow(Xor(a, b), bits) == Zeros(|a| - bits) + Xor(Low(a, bits), Low(b, bits))
  {
    LowXor(a, b, bits);
  }

  /** Shifting a byte left brings its low bits to the top one after the other. */
  lemma ShiftingByte(r: Word, p: Word, byte: Byte, i: nat)
    requires |r| == |p| > 0 && 0 < i <= 8
    ensures Run(r, p, Low(byte, i)) == Run(Step(r, p, TestBit(Shl(byte, 8 - i), 7)), p, Low(byte, i - 1))
  {
    hide Step;
    assert Low(byte, i)[1..] == Low(byte, i - 1);
  }

  lemma ShiftOnce(byte: Byte, i: nat)
    requires 0 < i <= 8
    ensures Shl(Shl(byte, 8 - i), 1) == Shl(byte, 8 - (i - 1))
  {}

  lemma NoBitsLeft(r: Word, p: Word, byte: Byte)
    requires |r| == |p| > 0
    ensures Run(r, p, Low(byte, 0)) == r
  {}

  class Crc {
    const bits: nat   // the template parameter Bits
    const width: nat  // the bits of value_type

    var rem: Word
    var poly: Word
    var init: Word
    var final: Word
    var reflectIn: bool
    var reflectRem: bool

    ghost predicate Valid()
      reads this
    {
      && 0 < bits <= width
      && |rem| == |poly| == |init| == |final| == width
    }

    /** The parameters as far as they can influence a checksum. */
    ghost function Params(): (c: CrcSpec.Params)
      requires Valid()
      reads this
      ensures c.Valid() && |c.poly| == bits
    {
      LowParams(bits, poly, init, final, reflectIn, reflectRem)
    }

    /** The remainder proper: bits above the low `bits` carry no meaning. */
    ghost function Remainder(): (r: Word)
      requires Valid()
      reads this
      ensures |r| == bits
    {
      Low(rem, bits)
    }

    constructor (bits: nat, width: nat, truncatedPolynomial: Word, initialRemainder: Word,
                 finalXorValue: Word, reflectInput: bool, reflectRemainder: bool)
      requires 0 < bits <= width
      requires |truncatedPolynomial| == |initialRemainder| == |finalXorValue| == width
      ensures Valid() && this.bits == bits && this.width == width
      ensures Params() == LowParams(bits, truncatedPolynomial, initialRemainder, finalXorValue,
                                    reflectInput, reflectRemainder)
      ensures Remainder() == Params().init
    {
      this.bits, this.width := bits, width;
      rem := initialRemainder;
      poly := truncatedPolynomial;
      init := initialRemainder;
      final := finalXorValue;
      reflectIn := reflectInput;
      reflectRem := reflectRemainder;
    }

    method GetInterimRemainder() returns (r: Word)
      requires Valid()
      ensures r == Zeros(width - bits) + Remainder()
    {
      r := MaskLow(rem, bits);
    }

    method Reset(newRem: Word)
      requires Valid() && |newRem| == width
      modifies this`rem
      ensures Valid() && Remainder() == Low(newRem, bits)
    {
      rem := newRem;
    }

    method ResetToInitial()
      requires Valid()
      modifies this`rem
      ensures Valid() && Remainder() == Params().init
    {
      Reset(init);
    }

    method ProcessBit(bit: bool)
      requires Valid()
      modifies this`rem
      ensures Valid()
      ensures Remainder() == Step(old(Remainder()), Params().poly, bit)
    {
      StepOnWord(rem, poly, bits, bit);
      rem := if bit then Xor(rem, OneBit(width, bits - 1)) else rem;
      XorZeros(rem);
      var doPolyDiv := TestBit(rem, bits - 1);
      rem := Shl(rem, 1);
      if doPolyDiv {
        rem := Xor(rem, poly);
      }
    }

    /** Feeds the lowest `bitCount` bits of the byte, the highest of them first. */
    method ProcessBits(byte: Byte, bitCount: nat)
      requires Valid() && bitCount <= 8
      modifies this`rem
      ensures Valid()
      ensures Remainder() == Run(old(Remainder()), Params().poly, Low(byte, bitCount))
    {
      hide Run, Step, Shl, Low, TestBit;
      ghost var start, p, wanted := Remainder(), Params().poly, Low(byte, bitCount);
      var shifting := Shl(byte, 8 - bitCount);
      var i := bitCount;
      while i > 0
        invariant 0 <= i <= bitCount && Valid() && Params().poly == p
        invariant shifting == Shl(byte, 8 - i)
        invariant Run(start, p, wanted) == Run(Remainder(), p, Low(byte, i))
      {
        ShiftingByte(Remainder(), p, byte, i);
        ShiftOnce(byte, i);
        ProcessBit(TestBit(shifting, 7));
        shifting := Shl(shifting, 1);
        i := i - 1;
      }
      NoBitsLeft(Remainder(), p, byte);
    }

    method ProcessByte(byte: Byte)
      requires Valid()
      modifies this`rem
      ensures Valid()
      ensures Remainder() == Run(old(Remainder()), Params().poly, MaybeReverse(byte, reflectIn))
    {
      var b: Byte := byte;
      if reflectIn {
        b := Words.Reflect(byte, 8);
        assert b == Reverse(byte);
      }
      assert Low(b, 8) == b;
      ProcessBits(b, 8);
    }

    /** `process_block` and `process_bytes`. */
    method ProcessBytes(buffer: seq<Byte>)
      requires Valid()
      modifies this`rem
      ensures Valid()
      ensures Remainder() == Run(old(Remainder()), Params().poly, Stream(buffer, reflectIn))
    {
      for p := 0 to |buffer|
        invariant Valid()
        invariant Remainder() == Run(old(Remainder()), Params().poly, Stream(buffer[..p], reflectIn))
      {
        RunNextByte(old(Remainder()), Params().poly, buffer, p, reflectIn);
        ProcessByte(buffer[p]);
      }
      assert buffer[..|buffer|] == buffer;
    }

    method Checksum() returns (sum: Word)
      requires Valid()
      ensures sum == Zeros(width - bits) + Publish(Remainder(), Params())
    {
      var r := rem;
      if reflectRem {
        r := Words.Reflect(rem, bits);
        ReflectedTwice(rem, bits);
      }
      assert Low(r, bits) == MaybeReverse(Remainder(), reflectRem);
      MaskedXor(r, final, bits);
      sum := MaskLow(Xor(r, final), bits);
    }
  }
}
