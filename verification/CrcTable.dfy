/** `crc_table_t`: the 256 partial remainders, computed once. */
module CrcTable {

  import opened Words
  import opened PolynomialDivision
  import opened CrcSpec
  import CrcBasic

  /** The remainder a register word stands for. A reflected register keeps it
      bit-reversed; `get_interim_remainder` undoes that. */
  function Unreflect(rem: Word, bits: nat, reflect: bool): (r: Word)
    requires bits <= |rem|
    ensures |r| == bits
  {
    MaybeReverse(Low(rem, bits), reflect)
  }

  /** A reflected register never holds junk above its low bits. */
  predicate Clean(rem: Word, bits: nat, reflect: bool)
    requires bits <= |rem|
  {
    reflect ==> rem == MaskLow(rem, bits)
  }

  /** `crc_helper<bits, reflect>::reflect`. */
  method HelperReflect(rem: Word, bits: nat, reflect: bool) returns (r: Word)
    requires bits <= |rem|
    ensures |r| == |rem|
    ensures r == if reflect then Reflected(rem, bits) else rem
    ensures Clean(r, bits, reflect) && Unreflect(r, bits, reflect) == Low(rem, bits)
  {
    if reflect {
      r := Words.Reflect(rem, bits);
      ReflectedTwice(rem, bits);
      ReverseReverse(Low(rem, bits));
    } else {
      r := rem;
    }
  }

  /** Eight division steps on zero, as the inner loop of `init_table` performs them. */
  method DivideByte(dividend: Byte, bits: nat, poly: Word) returns (remainder: Word)
    requires 0 < bits <= |poly|
    ensures |remainder| == |poly|
    ensures Low(remainder, bits) == Run(Zeros(bits), Low(poly, bits), dividend)
  {
    remainder := Zeros(|poly|);
    ghost var p := Low(poly, bits);
    assert Low(remainder, bits) == Zeros(bits);
    for k := 0 to 8
      invariant |remainder| == |poly|
      invariant Run(Zeros(bits), p, dividend) == Run(Low(remainder, bits), p, dividend[k..])
    {
      assert dividend[k..][1..] == dividend[k + 1..];
      CrcBasic.StepOnWord(remainder, poly, bits, dividend[k]);
      if dividend[k] {
        remainder := Xor(remainder, OneBit(|poly|, bits - 1));
      }
      if TestBit(remainder, bits - 1) {
        remainder := Shl(remainder, 1);
        remainder := Xor(remainder, poly);
      } else {
        remainder := Shl(remainder, 1);
      }
    }
  }

  lemma SameIndexSameByte(a: Byte, b: Byte)
    requires ToNat(a) == ToNat(b)
    ensures a == b
  {
    FromToNat(a);
    FromToNat(b);
  }

  class Table {
    const bits: nat
    const poly: Word
    const reflect: bool
    const entries: array<Word>
    var didInit: bool

    ghost predicate Shape()
      reads this, entries
    {
      && 0 < bits <= |poly|
      && entries.Length == 256
    }

    /** The entry for index byte `x` is eight division steps from zero on the
        (unreflected) byte, stored in the register's own orientation. */
    ghost predicate EntryFor(x: Byte)
      requires Shape()
      reads this, entries
    {
      ByteIndex(x);
      var e := entries[ToNat(x)];
      && |e| == |poly|
      && Clean(e, bits, reflect)
      && Unreflect(e, bits, reflect) == Run(Zeros(bits), Low(poly, bits), MaybeReverse(x, reflect))
    }

    /** The dividend whose remainder belongs at index byte `x`. */
    ghost function Dividend(x: Byte): (d: nat)
      ensures d < 256
    {
      ByteIndex(MaybeReverse(x, reflect));
      ToNat(MaybeReverse(x, reflect))
    }

    ghost predicate FilledTo(n: nat)
      requires Shape()
      reads this, entries
    {
      forall x: Byte :: Dividend(x) < n ==> EntryFor(x)
    }

    ghost predicate Valid()
      reads this, entries
    {
      && Shape()
      && (didInit ==> FilledTo(256))
    }

    constructor (bits: nat, poly: Word, reflect: bool)
      requires 0 < bits <= |poly|
      ensures Valid() && !didInit && fresh(entries)
      ensures this.bits == bits && this.poly == poly && this.reflect == reflect
    {
      this.bits, this.poly, this.reflect := bits, poly, reflect;
      entries := new Word[256](_ => []);
      didInit := false;
    }

    /** Writing one entry makes it right and leaves the earlier ones alone. */
    method StoreEntry(byte: Byte, index: Byte, entry: Word)
      requires Shape() && FilledTo(ToNat(byte))
      requires index == MaybeReverse(byte, reflect)
      requires |entry| == |poly| && Clean(entry, bits, reflect)
      requires Unreflect(entry, bits, reflect) == Run(Zeros(bits), Low(poly, bits), byte)
      modifies entries
      ensures FilledTo(ToNat(byte) + 1)
    {
      ByteIndex(index);
      ReverseReverse(byte);
      entries[ToNat(index)] := entry;
      forall x: Byte | Dividend(x) < ToNat(byte) + 1
        ensures EntryFor(x)
      {
        ReverseReverse(x);
        if Dividend(x) == ToNat(byte) {
          SameIndexSameByte(MaybeReverse(x, reflect), byte);
        } else {
          assert old(EntryFor(x));
          if ToNat(x) == ToNat(index) {
            SameIndexSameByte(x, index);
          }
        }
      }
    }

    /** One pass of that loop: the entry for one dividend. */
    method FillEntry(dividend: nat)
      requires Shape() && dividend < 256 && FilledTo(dividend)
      modifies entries
      ensures FilledTo(dividend + 1)
    {
      var byte: Byte := FromNat(dividend, 8);
      ByteOfIndex(dividend);
      var remainder := DivideByte(byte, bits, poly);
      var index := HelperReflect(byte, 8, reflect);
      var entry := HelperReflect(remainder, bits, reflect);
      assert Low(index, 8) == index && Low(byte, 8) == byte;
      ReverseReverse(index);
      StoreEntry(byte, index, entry);
    }

    /** The loop over every possible dividend value, ended by the counter's wrap-around. */
    method Fill()
      requires Shape()
      modifies entries
      ensures FilledTo(256)
    {
      var dividend := 0;
      var more := true;
      while more
        invariant 0 <= dividend < 256
        invariant FilledTo(if more then dividend else 256)
        decreases if more then 256 - dividend else 0
      {
        FillEntry(dividend);
        dividend := (dividend + 1) % 256;
        more := dividend != 0;
      }
    }

    /** Fills the table on the first call, and does nothing on later ones. */
    method InitTable()
      requires Valid()
      modifies this`didInit, entries
      ensures Valid() && didInit
      ensures old(didInit) ==> entries[..] == old(entries[..])
    {
      if didInit {
        return;
      }
      Fill();
      didInit := true;
    }

    method Lookup(x: Byte) returns (e: Word)
      requires Valid() && didInit
      ensures |e| == |poly| && Clean(e, bits, reflect)
      ensures Unreflect(e, bits, reflect) == Run(Zeros(bits), Low(poly, bits), MaybeReverse(x, reflect))
    {
      ByteIndex(x);
      assert EntryFor(x);
      e := entries[ToNat(x)];
    }
  }
}
