/** Fixed-width machine words as bit sequences, most significant bit first.
    The word of width W holding the value v has v's bit k at index W - 1 - k. */
module Words {

  import Divisibility

  type Word = seq<bool>

  type Byte = w: Word | |w| == 8 witness seq(8, _ => false)

  function Zeros(n: nat): (z: Word)
    ensures |z| == n
    ensures forall i :: 0 <= i < n ==> !z[i]
  {
    seq(n, _ => false)
  }

  function Xor(a: Word, b: Word): (c: Word)
    requires |a| == |b|
    ensures |c| == |a|
    ensures forall i :: 0 <= i < |a| ==> c[i] == (a[i] != b[i])
  {
    seq(|a|, i requires 0 <= i < |a| => a[i] != b[i])
  }

  function Or(a: Word, b: Word): (c: Word)
    requires |a| == |b|
    ensures |c| == |a|
    ensures forall i :: 0 <= i < |a| ==> c[i] == (a[i] || b[i])
  {
    seq(|a|, i requires 0 <= i < |a| => a[i] || b[i])
  }

  /** `w << k`, the bits leaving the top being lost. */
  function Shl(w: Word, k: nat): (s: Word)
    ensures |s| == |w|
  {
    if k >= |w| then Zeros(|w|) else w[k..] + Zeros(k)
  }

  /** `w >> k` on an unsigned word. */
  function Shr(w: Word, k: nat): (s: Word)
    ensures |s| == |w|
  {
    if k >= |w| then Zeros(|w|) else Zeros(k) + w[..|w| - k]
  }

  /** The low `n` bits: what a cast to an `n`-bit type keeps. */
  function Low(w: Word, n: nat): (s: Word)
    requires n <= |w|
    ensures |s| == n
  {
    w[|w| - n..]
  }

  /** `w & sig_bits`: the low `n` bits, everything above cleared. */
  function MaskLow(w: Word, n: nat): (s: Word)
    requires n <= |w|
    ensures |s| == |w| && Low(s, n) == Low(w, n)
  {
    Zeros(|w| - n) + Low(w, n)
  }

  /** The low `n` bits, zero-extended or truncated to exactly `n`. */
  function Resize(w: Word, n: nat): (s: Word)
    ensures |s| == n
  {
    if n <= |w| then Low(w, n) else Zeros(n - |w|) + w
  }

  /** `1 << k` in a word of the given width. */
  function OneBit(width: nat, k: nat): (s: Word)
    requires k < width
    ensures |s| == width
    ensures forall i :: 0 <= i < width ==> s[i] == (i == width - 1 - k)
  {
    seq(width, i => i == width - 1 - k)
  }

  /** `w & (1 << k)` as a truth value. */
  predicate TestBit(w: Word, k: nat)
    requires k < |w|
  {
    w[|w| - 1 - k]
  }

  function Reverse(w: Word): (s: Word)
    ensures |s| == |w|
    ensures forall i :: 0 <= i < |w| ==> s[i] == w[|w| - 1 - i]
  {
    seq(|w|, i requires 0 <= i < |w| => w[|w| - 1 - i])
  }

  /** What `reflector<n>::reflect` computes: the low `n` bits in the opposite
      order, everything above them cleared. */
  function Reflected(w: Word, n: nat): (s: Word)
    requires n <= |w|
    ensures |s| == |w|
  {
    Zeros(|w| - n) + Reverse(Low(w, n))
  }

  function ToNat(w: Word): nat {
    if w == [] then 0
    else 2 * ToNat(w[..|w| - 1]) + (if w[|w| - 1] then 1 else 0)
  }

  function FromNat(v: nat, width: nat): (w: Word)
    ensures |w| == width
  {
    if width == 0 then [] else FromNat(v / 2, width - 1) + [v % 2 == 1]
  }

  function Pow2(n: nat): (p: nat)
    ensures p >= 1
  {
    if n == 0 then 1 else 2 * Pow2(n - 1)
  }

  lemma {:induction false} ToNatBound(w: Word)
    ensures ToNat(w) < Pow2(|w|)
  {
    if w != [] {
      ToNatBound(w[..|w| - 1]);
    }
  }

  lemma {:induction false} ToNatConcat(a: Word, b: Word)
    ensures ToNat(a + b) == ToNat(a) * Pow2(|b|) + ToNat(b)
    decreases |b|
  {
    if b == [] {
      assert a + b == a;
    } else {
      var c := b[..|b| - 1];
      ToNatConcat(a, c);
      assert (a + b)[..|a + b| - 1] == a + c;
      assert ToNat(a) * Pow2(|b|) == 2 * (ToNat(a) * Pow2(|c|));
    }
  }

  lemma HalfQuotient(v: nat, p: nat)
    requires p > 0
    ensures v / (2 * p) == (v / 2) / p
  {
    var h := v / 2;
    var q, r := h / p, h % p;
    assert h == p * q + r;
    assert v == (2 * p) * q + (2 * r + v % 2);
    Divisibility.DivisionUnique(v, 2 * p, q, 2 * r + v % 2);
  }

  /** Bit k of a word is bit k of its value. */
  lemma {:induction false} BitOfValue(w: Word, k: nat)
    requires k < |w|
    ensures TestBit(w, k) <==> (ToNat(w) / Pow2(k)) % 2 == 1
    decreases k
  {
    if k > 0 {
      var v := w[..|w| - 1];
      BitOfValue(v, k - 1);
      HalfQuotient(ToNat(w), Pow2(k - 1));
      assert ToNat(w) / 2 == ToNat(v);
    }
  }

  /** Shifts and XOR, by bits. */
  lemma BitsOfShifts(w: Word, v: Word, k: nat, j: nat)
    requires j < |w| == |v|
    ensures TestBit(Shl(w, k), j) <==> j >= k && TestBit(w, j - k)
    ensures TestBit(Shr(w, k), j) <==> j + k < |w| && TestBit(w, j + k)
    ensures TestBit(Xor(w, v), j) <==> TestBit(w, j) != TestBit(v, j)
  {}

  lemma {:induction false} FromToNat(w: Word)
    ensures FromNat(ToNat(w), |w|) == w
  {
    if w != [] {
      var v := ToNat(w);
      FromToNat(w[..|w| - 1]);
      assert v / 2 == ToNat(w[..|w| - 1]);
      assert w == w[..|w| - 1] + [w[|w| - 1]];
    }
  }

  lemma {:induction false} ToFromNat(v: nat, width: nat)
    requires v < Pow2(width)
    ensures ToNat(FromNat(v, width)) == v
  {
    if width != 0 {
      ToFromNat(v / 2, width - 1);
      var w := FromNat(v, width);
      assert w[..|w| - 1] == FromNat(v / 2, width - 1);
    }
  }

  /** A byte and its value determine each other, so a byte can index a 256-entry table. */
  lemma ByteIndex(b: Byte)
    ensures ToNat(b) < 256
    ensures FromNat(ToNat(b), 8) == b
  {
    ToNatBound(b);
    FromToNat(b);
    assert Pow2(8) == 256;
  }

  lemma ByteOfIndex(v: nat)
    requires v < 256
    ensures ToNat(FromNat(v, 8)) == v
  {
    assert Pow2(8) == 256;
    ToFromNat(v, 8);
  }

  lemma ReverseReverse(w: Word)
    ensures Reverse(Reverse(w)) == w
  {}

  lemma ReverseXor(a: Word, b: Word)
    requires |a| == |b|
    ensures Reverse(Xor(a, b)) == Xor(Reverse(a), Reverse(b))
  {}

  lemma XorZeros(a: Word)
    ensures Xor(a, Zeros(|a|)) == a && Xor(Zeros(|a|), a) == a
  {}

  lemma XorSelf(a: Word)
    ensures Xor(a, a) == Zeros(|a|)
  {}

  lemma XorCommutes(a: Word, b: Word)
    requires |a| == |b|
    ensures Xor(a, b) == Xor(b, a)
  {}

  lemma XorAssociates(a: Word, b: Word, c: Word)
    requires |a| == |b| == |c|
    ensures Xor(Xor(a, b), c) == Xor(a, Xor(b, c))
  {}

  lemma XorZeroIff(a: Word, b: Word)
    requires |a| == |b|
    ensures Xor(a, b) == Zeros(|a|) <==> a == b
  {
    if Xor(a, b) == Zeros(|a|) {
      forall i | 0 <= i < |a|
        ensures a[i] == b[i]
      {
        assert !Xor(a, b)[i];
      }
    }
  }

  /** `reflect` is an involution on the low bits. */
  lemma ReflectedTwice(w: Word, n: nat)
    requires n <= |w|
    ensures Reflected(Reflected(w, n), n) == MaskLow(w, n)
    ensures Low(Reflected(w, n), n) == Reverse(Low(w, n))
  {
    assert Low(Reflected(w, n), n) == Reverse(Low(w, n));
    ReverseReverse(Low(w, n));
  }

  /** The reflection of the lowest `i` bits, in the place they take among `n`. */
  function ReflectedPrefix(w: Word, n: nat, i: nat): (s: Word)
    requires i <= n <= |w|
    ensures |s| == |w|
  {
    Zeros(|w| - n) + Reverse(Low(w, i)) + Zeros(n - i)
  }

  lemma ReflectedPrefixNext(w: Word, n: nat, i: nat)
    requires i < n <= |w|
    ensures ReflectedPrefix(w, n, i + 1) ==
            if TestBit(w, i) then Or(ReflectedPrefix(w, n, i), OneBit(|w|, n - 1 - i))
            else ReflectedPrefix(w, n, i)
  {
    assert Reverse(Low(w, i + 1)) == Reverse(Low(w, i)) + [TestBit(w, i)];
  }

  lemma ShrOnce(w: Word, i: nat)
    ensures Shr(Shr(w, i), 1) == Shr(w, i + 1)
  {}

  /** The reflection loop: consume `w` from the bottom, set bits from the top. */
  method Reflect(w: Word, n: nat) returns (reflection: Word)
    requires n <= |w|
    ensures reflection == Reflected(w, n)
  {
    var x := w;
    reflection := Zeros(|w|);
    var i := 0;
    assert reflection == ReflectedPrefix(w, n, 0);
    while i < n
      invariant 0 <= i <= n
      invariant x == Shr(w, i)
      invariant reflection == ReflectedPrefix(w, n, i)
    {
      ReflectedPrefixNext(w, n, i);
      if TestBit(x, 0) {
        reflection := Or(reflection, OneBit(|w|, n - 1 - i));
      }
      ShrOnce(w, i);
      x := Shr(x, 1);
      i := i + 1;
    }
    assert ReflectedPrefix(w, n, n) == Reflected(w, n);
  }
}
