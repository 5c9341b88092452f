/** `crc_optimal`: the table-driven CRC register, in either bit orientation, and
    `augmented_crc`. Both keep the contracts of the bitwise division. */
module CrcOptimal {

  import opened Words
  import opened PolynomialDivision
  import opened CrcSpec
  import opened CrcTable
  import CrcBasic

  // ----- crc_helper -----

  /** `index`: the incoming byte against the bits about to leave the register. */
  function Index(rem: Word, bits: nat, reflect: bool, x: Byte): (i: Byte)
    requires 0 < bits <= |rem| && |rem| >= 8
  {
    if reflect then Xor(x, Low(rem, 8))
    else if bits > 8 then Xor(x, Low(Shr(rem, bits - 8), 8))
    else Xor(x, Low(Shl(rem, 8 - bits), 8))
  }

  /** `shift`: drop those bits. */
  function ShiftOut(rem: Word, reflect: bool): (s: Word)
    ensures |s| == |rem|
  {
    if reflect then Shr(rem, 8) else Shl(rem, 8)
  }

  lemma IndexIsTopByte(rem: Word, bits: nat, reflect: bool, x: Byte)
    requires 0 < bits <= |rem| && |rem| >= 8 && Clean(rem, bits, reflect)
    ensures MaybeReverse(Index(rem, bits, reflect, x), reflect) ==
            Xor(TopByte(Unreflect(rem, bits, reflect)), MaybeReverse(x, reflect))
  {
    var top := TopByte(Unreflect(rem, bits, reflect));
    if reflect {
      assert rem == Zeros(|rem| - bits) + Low(rem, bits);
      assert Reverse(Low(rem, 8)) == top;
      ReverseXor(x, Low(rem, 8));
      XorCommutes(Reverse(x), top);
    } else {
      assert Low(if bits > 8 then Shr(rem, bits - 8) else Shl(rem, 8 - bits), 8) == top;
      XorCommutes(x, top);
    }
  }

  lemma ReverseShift(w: Word)
    ensures Reverse(Shr(w, 8)) == Shl(Reverse(w), 8)
  {}

  lemma ShiftOutIsShl(rem: Word, bits: nat, reflect: bool)
    requires 0 < bits <= |rem| && Clean(rem, bits, reflect)
    ensures Clean(ShiftOut(rem, reflect), bits, reflect)
    ensures Unreflect(ShiftOut(rem, reflect), bits, reflect) == Shl(Unreflect(rem, bits, reflect), 8)
  {
    var low := Low(rem, bits);
    if reflect {
      assert rem == Zeros(|rem| - bits) + low;
      assert Shr(rem, 8) == Zeros(|rem| - bits) + Shr(low, 8);
      ReverseShift(low);
    } else {
      assert Low(Shl(rem, 8), bits) == Shl(low, 8);
    }
  }

  lemma XorIntoRegister(rem: Word, entry: Word, bits: nat, reflect: bool)
    requires bits <= |rem| == |entry| && Clean(rem, bits, reflect) && Clean(entry, bits, reflect)
    ensures Clean(Xor(rem, entry), bits, reflect)
    ensures Unreflect(Xor(rem, entry), bits, reflect) ==
            Xor(Unreflect(rem, bits, reflect), Unreflect(entry, bits, reflect))
  {
    assert Low(Xor(rem, entry), bits) == Xor(Low(rem, bits), Low(entry, bits));
    ReverseXor(Low(rem, bits), Low(entry, bits));
  }

  /** One byte of the table-driven loop is eight bits of bitwise division, in both
      orientations and for every width: the refinement the fast engine rests on. */
  lemma TableStepRefinesDivision(rem: Word, poly: Word, entry: Word, bits: nat, reflect: bool, x: Byte)
    requires 0 < bits <= |rem| == |entry| && |rem| >= 8 && |poly| == bits
    requires Clean(rem, bits, reflect) && Clean(entry, bits, reflect)
    requires Unreflect(entry, bits, reflect) ==
             Run(Zeros(bits), poly, MaybeReverse(Index(rem, bits, reflect, x), reflect))
    ensures var next := Xor(ShiftOut(rem, reflect), entry);
            && Clean(next, bits, reflect)
            && Unreflect(next, bits, reflect) ==
               Run(Unreflect(rem, bits, reflect), poly, MaybeReverse(x, reflect))
  {
    var r := Unreflect(rem, bits, reflect);
    IndexIsTopByte(rem, bits, reflect, x);
    ShiftOutIsShl(rem, bits, reflect);
    XorIntoRegister(ShiftOut(rem, reflect), entry, bits, reflect);
    ByteStep(r, poly, MaybeReverse(x, reflect));
  }

  // ----- the engine -----

  /** `reflect_output`: one reflection turns either orientation into the other. */
  lemma ReorientRegister(rem: Word, bits: nat, reflectIn: bool, reflectRem: bool)
    requires bits <= |rem|
    ensures Low(if reflectRem != reflectIn then Reflected(rem, bits) else rem, bits) ==
            MaybeReverse(Unreflect(rem, bits, reflectIn), reflectRem)
  {
    ReverseReverse(Low(rem, bits));
    ReflectedTwice(rem, bits);
  }

  class Crc {
    const bits: nat
    const width: nat
    const poly: Word
    const init: Word
    const final: Word
    const reflectIn: bool
    const reflectRem: bool
    const table: Table  // static in the original: shared by all engines of one type

    var rem: Word

    ghost predicate Valid()
      reads this, table, table.entries
    {
      && 0 < bits <= width && width >= 8
      && |rem| == |poly| == |init| == |final| == width
      && table.Valid() && table.didInit
      && table.bits == bits && table.poly == poly && table.reflect == reflectIn
      && Clean(rem, bits, reflectIn)
    }

    ghost function Params(): (c: CrcSpec.Params)
      requires Valid()
      reads this, table, table.entries
      ensures c.Valid() && |c.poly| == bits
    {
      LowParams(bits, poly, init, final, reflectIn, reflectRem)
    }

    ghost function Remainder(): (r: Word)
      requires Valid()
      reads this, table, table.entries
      ensures |r| == bits
    {
      Unreflect(rem, bits, reflectIn)
    }

    /** `initRem` defaults to the template's InitRem in the original. */
    constructor (table: Table, width: nat, init: Word, final: Word, reflectRem: bool, initRem: Word)
      requires table.Valid() && width >= 8
      requires |table.poly| == |init| == |final| == |initRem| == width
      modifies table, table.entries
      ensures Valid() && this.bits == table.bits && this.width == width && this.table == table
      ensures Params() == LowParams(bits, table.poly, init, final, table.reflect, reflectRem)
      ensures Remainder() == Low(initRem, bits)
    {
      var r := HelperReflect(initRem, table.bits, table.reflect);
      this.bits, this.width, this.poly := table.bits, width, table.poly;
      this.init, this.final := init, final;
      this.reflectIn, this.reflectRem := table.reflect, reflectRem;
      this.table := table;
      rem := r;
      new;
      table.InitTable();
    }

    method GetInterimRemainder() returns (r: Word)
      requires Valid()
      ensures r == Zeros(width - bits) + Remainder()
    {
      r := HelperReflect(rem, bits, reflectIn);
      if reflectIn {
        ReflectedTwice(rem, bits);
      }
      r := MaskLow(r, bits);
    }

    method Reset(newRem: Word)
      requires Valid() && |newRem| == width
      modifies this
      ensures Valid() && Remainder() == Low(newRem, bits)
    {
      rem := HelperReflect(newRem, bits, reflectIn);
    }

    /** The loop body of `process_block`. */
    method ProcessByte(byte: Byte)
      requires Valid()
      modifies this
      ensures Valid()
      ensures Remainder() == Run(old(Remainder()), Params().poly, MaybeReverse(byte, reflectIn))
    {
      hide Run, Index, Unreflect, Low, ShiftOut, MaybeReverse;
      var byteIndex := Index(rem, bits, reflectIn, byte);
      var entry := table.Lookup(byteIndex);
      TableStepRefinesDivision(rem, Low(poly, bits), entry, bits, reflectIn, byte);
      rem := ShiftOut(rem, reflectIn);
      rem := Xor(rem, entry);
    }

    /** `process_block` and `process_bytes`. */
    method ProcessBytes(buffer: seq<Byte>)
      requires Valid()
      modifies this
      ensures Valid()
      ensures Remainder() == Run(old(Remainder()), Params().poly, Stream(buffer, reflectIn))
    {
      hide Unreflect, Low, MaybeReverse;
      ghost var start, poly := Remainder(), Params().poly;
      for p := 0 to |buffer|
        invariant Valid()
        invariant Remainder() == Run(start, poly, Stream(buffer[..p], reflectIn))
      {
        RunNextByte(start, poly, buffer, p, reflectIn);
        ProcessByte(buffer[p]);
      }
      assert buffer[..|buffer|] == buffer;
    }

    /** Reflects only when the register's orientation is not the one wanted. */
    method Checksum() returns (sum: Word)
      requires Valid()
      ensures sum == Zeros(width - bits) + Publish(Remainder(), Params())
    {
      hide Unreflect, Reflected, Zeros, MaybeReverse, Xor, Low, Clean, Table.Valid;
      var r := HelperReflect(rem, bits, reflectRem != reflectIn);
      ReorientRegister(rem, bits, reflectIn, reflectRem);
      CrcBasic.MaskedXor(r, final, bits);
      sum := MaskLow(Xor(r, final), bits);
    }
  }

  // ----- whole computations -----

  /** The `crc` function: one engine, one buffer, one checksum. */
  method ComputeCrc(table: Table, width: nat, init: Word, final: Word, reflectRem: bool, buffer: seq<Byte>)
    returns (sum: Word)
    requires table.Valid() && width >= 8
    requires |table.poly| == |init| == |final| == width
    modifies table, table.entries
    ensures var b := table.bits;
            var c := LowParams(b, table.poly, init, final, table.reflect, reflectRem);
            sum == Zeros(width - b) + Checksum(c, buffer)
  {
    hide Run, Stream, Publish, Low, Unreflect, Zeros, Clean;
    var computer := new Crc(table, width, init, final, reflectRem, init);
    computer.ProcessBytes(buffer);
    sum := computer.Checksum();
  }

  /** Fed the same buffer, the two engines publish the same checksum. Their value
      types may differ in width (`least` against `fast`); the values do not. */
  method EnginesAgree(basic: CrcBasic.Crc, optimal: Crc, buffer: seq<Byte>)
    returns (slow: Word, fast: Word)
    requires basic.Valid() && optimal.Valid()
    requires basic.bits == optimal.bits && basic.Params() == optimal.Params()
    requires basic.Remainder() == optimal.Remainder()
    modifies basic, optimal
    ensures basic.Valid() && optimal.Valid() && basic.Remainder() == optimal.Remainder()
    ensures basic.Params() == old(basic.Params()) && optimal.Params() == old(optimal.Params())
    ensures var c := old(basic.Params());
            var sum := Publish(Run(old(basic.Remainder()), c.poly, Stream(buffer, c.reflectIn)), c);
            && slow == Zeros(basic.width - basic.bits) + sum
            && fast == Zeros(optimal.width - basic.bits) + sum
  {
    hide Run, Stream, Publish, Low, Unreflect, Zeros, Clean;
    basic.ProcessBytes(buffer);
    optimal.ProcessBytes(buffer);
    slow := basic.Checksum();
    fast := optimal.Checksum();
  }

  /** Reading the interim remainder and resetting to it changes no later checksum,
      whatever junk the bitwise engine carries above its low bits. */
  method ResetToInterim(basic: CrcBasic.Crc, optimal: Crc)
    requires basic.Valid() && optimal.Valid()
    modifies basic, optimal
    ensures basic.Valid() && basic.Remainder() == old(basic.Remainder()) && basic.Params() == old(basic.Params())
    ensures optimal.Valid() && optimal.Remainder() == old(optimal.Remainder())
  {
    var r := basic.GetInterimRemainder();
    basic.Reset(r);
    r := optimal.GetInterimRemainder();
    optimal.Reset(r);
  }

  lemma AugmentedStepOnWord(rem: Word, poly: Word, entry: Word, bits: nat, x: Byte)
    requires 8 <= bits <= |rem| == |entry| && |poly| == bits
    requires Low(entry, bits) == Run(Zeros(bits), poly, Low(rem, bits)[..8])
    ensures Low(Xor(Or(Shl(rem, 8), Resize(x, |rem|)), entry), bits) == Rem(Low(rem, bits) + x, poly)
  {
    var r := Low(rem, bits);
    var shifted := Or(Shl(rem, 8), Resize(x, |rem|));
    assert Low(shifted, bits) == r[8..] + x;
    XorIntoRegister(shifted, entry, bits, false);
    AugmentedByteStep(r, poly, x);
  }

  /** The loop body of `augmented_crc`: the leaving top byte is the table index,
      the message byte enters below. */
  method AugmentedByte(table: Table, rem: Word, x: Byte) returns (next: Word)
    requires table.Valid() && table.didInit && !table.reflect
    requires table.bits >= 8 && |rem| == |table.poly|
    ensures |next| == |rem|
    ensures Low(next, table.bits) == Rem(Low(rem, table.bits) + x, Low(table.poly, table.bits))
  {
    var byteIndex: Byte := Low(Shr(rem, table.bits - 8), 8);
    assert byteIndex == Low(rem, table.bits)[..8];
    var entry := table.Lookup(byteIndex);
    AugmentedStepOnWord(rem, Low(table.poly, table.bits), entry, table.bits, x);
    next := Xor(Or(Shl(rem, 8), Resize(x, |rem|)), entry);
  }

  lemma AugmentedNothing(r: Word, p: Word)
    requires |r| == |p|
    ensures Rem(r + Stream([], false), p) == r
  {
    assert r + Stream([], false) == r;
  }

  /** `augmented_crc`: the message is shifted through the register itself. */
  method AugmentedCrc(table: Table, buffer: seq<Byte>, initial: Word) returns (rem: Word)
    requires table.Valid() && !table.reflect && table.bits >= 8 && |initial| == |table.poly|
    modifies table, table.entries
    ensures var b := table.bits;
            rem == Zeros(|initial| - b) + Rem(Low(initial, b) + Stream(buffer, false), Low(table.poly, b))
  {
    hide Rem, Low;
    rem := initial;
    table.InitTable();
    ghost var start, poly := Low(initial, table.bits), Low(table.poly, table.bits);
    AugmentedNothing(start, poly);
    assert buffer[..0] == [];
    for p := 0 to |buffer|
      invariant table.Valid() && table.didInit && |rem| == |initial|
      invariant Low(rem, table.bits) == Rem(start + Stream(buffer[..p], false), poly)
    {
      AugmentedNextByte(start, poly, buffer, p);
      rem := AugmentedByte(table, rem, buffer[p]);
    }
    assert buffer[..|buffer|] == buffer;
    rem := MaskLow(rem, table.bits);
  }
}
