/** GF(2) polynomials and the division a CRC performs.

    A word stands for a polynomial, its first bit being the leading coefficient.
    A CRC of width B divides by x^B + p, where p is the truncated polynomial. */
module PolynomialDivision {

  import opened Words

  // ----- the bitwise division step, and its iteration over a bit stream -----

  /** One bit of division on a remainder of exactly B bits. */
  function Step(r: Word, p: Word, bit: bool): (r': Word)
    requires |r| == |p| > 0
    ensures |r'| == |r|
  {
    var shifted := r[1..] + [false];
    if r[0] != bit then Xor(shifted, p) else shifted
  }

  function Run(r: Word, p: Word, bits: Word): (r': Word)
    requires |r| == |p| > 0
    ensures |r'| == |r|
    decreases |bits|
  {
    if bits == [] then r else Run(Step(r, p, bits[0]), p, bits[1..])
  }

  lemma RunCons(r: Word, p: Word, bit: bool, rest: Word)
    requires |r| == |p| > 0
    ensures Run(r, p, [bit] + rest) == Run(Step(r, p, bit), p, rest)
  {
    assert ([bit] + rest)[1..] == rest;
  }

  lemma {:induction false} RunConcat(r: Word, p: Word, a: Word, b: Word)
    requires |r| == |p| > 0
    ensures Run(r, p, a + b) == Run(Run(r, p, a), p, b)
    decreases |a|
  {
    if a == [] {
      assert a + b == b;
    } else {
      var s := Step(r, p, a[0]);
      assert (a + b)[0] == a[0] && (a + b)[1..] == a[1..] + b;
      assert Run(r, p, a + b) == Run(s, p, a[1..] + b);
      assert Run(r, p, a) == Run(s, p, a[1..]);
      RunConcat(s, p, a[1..], b);
    }
  }

  // ----- schoolbook long division: the reference -----

  /** Cancel the leading coefficient of `d` against x^B + p, and drop it. */
  function Reduce(d: Word, p: Word): (d': Word)
    requires |d| > |p|
    ensures |d'| == |d| - 1
  {
    if d[0] then Xor(d[1..], p + Zeros(|d| - 1 - |p|)) else d[1..]
  }

  function Rem(d: Word, p: Word): (r: Word)
    requires |d| >= |p|
    ensures |r| == |p|
    decreases |d|
  {
    if |d| == |p| then d else Rem(Reduce(d, p), p)
  }

  function Quot(d: Word, p: Word): (q: Word)
    requires |d| >= |p|
    ensures |q| == |d| - |p|
    decreases |d|
  {
    if |d| == |p| then [] else [d[0]] + Quot(Reduce(d, p), p)
  }

  /** Product of `q` and a divisor with at least one coefficient. */
  function Mul(q: Word, m: Word): (c: Word)
    requires |m| > 0
    ensures |c| == |q| + |m| - 1
  {
    if q == [] then Zeros(|m| - 1)
    else
      var rest := [false] + Mul(q[1..], m);
      if q[0] then Xor(m + Zeros(|q| - 1), rest) else rest
  }

  /** Whether `q[i]` and the coefficient of `m` that meets it at position `k` are both 1. */
  predicate Term(q: Word, m: Word, k: int, i: int) {
    0 <= i < |q| && 0 <= k - i < |m| && q[i] && m[k - i]
  }

  /** The sum over GF(2) of the first `n` terms. */
  function TermSum(q: Word, m: Word, k: int, n: nat): bool {
    if n == 0 then false else TermSum(q, m, k, n - 1) != Term(q, m, k, n - 1)
  }

  lemma {:induction false} TermSumShift(q: Word, m: Word, k: int, n: nat)
    requires q != []
    ensures TermSum(q, m, k, n + 1) == (Term(q, m, k, 0) != TermSum(q[1..], m, k - 1, n))
    decreases n
  {
    if n > 0 {
      TermSumShift(q, m, k, n - 1);
      assert Term(q, m, k, n) == Term(q[1..], m, k - 1, n - 1);
    }
  }

  lemma {:induction false} NoTerms(q: Word, m: Word, k: int, n: nat)
    requires k < 0
    ensures !TermSum(q, m, k, n)
    decreases n
  {
    if n > 0 {
      NoTerms(q, m, k, n - 1);
    }
  }

  lemma MulCoefficient(q: Word, m: Word, k: nat)
    requires q != [] && |m| > 0 && k < |q| + |m| - 1
    ensures Mul(q, m)[k] == (Term(q, m, k, 0) != (k > 0 && Mul(q[1..], m)[k - 1]))
  {
    var rest := Mul(q[1..], m);
    assert ([false] + rest)[k] == (k > 0 && rest[k - 1]);
    assert (m + Zeros(|q| - 1))[k] == (k < |m| && m[k]);
  }

  /** `Mul` is the product of polynomials: each coefficient is the sum of the products
      of the coefficients that meet there. */
  lemma {:induction false} MulIsConvolution(q: Word, m: Word, k: nat)
    requires |m| > 0 && k < |q| + |m| - 1
    ensures Mul(q, m)[k] == TermSum(q, m, k, |q|)
    decreases |q|
  {
    if q == [] {
      hide Term;
      assert Mul(q, m) == Zeros(|m| - 1);
    } else {
      hide Mul, Term, TermSum;
      assert |q| - 1 == |q[1..]|;
      TermSumShift(q, m, k, |q| - 1);
      MulCoefficient(q, m, k);
      if k > 0 {
        MulIsConvolution(q[1..], m, k - 1);
      } else {
        NoTerms(q[1..], m, k - 1, |q| - 1);
      }
    }
  }

  /** x^B + p. */
  function Divisor(p: Word): (m: Word)
    ensures |m| == |p| + 1
  {
    [true] + p
  }

  /** `q` and `r` are a quotient and a remainder of `d`: d = q (x^B + p) + r, deg r < B. */
  ghost predicate IsDivision(d: Word, p: Word, q: Word, r: Word) {
    && |r| == |p|
    && |d| == |q| + |p|
    && d == Xor(Mul(q, Divisor(p)), Zeros(|q|) + r)
  }

  lemma MulCons(c: bool, q: Word, m: Word)
    requires |m| > 0
    ensures var top := if c then m + Zeros(|q|) else Zeros(|m| + |q|);
            Mul([c] + q, m) == Xor(top, [false] + Mul(q, m))
  {
    assert ([c] + q)[1..] == q;
  }

  lemma XorCons(x: bool, y: bool, a: Word, b: Word)
    requires |a| == |b|
    ensures Xor([x] + a, [y] + b) == [x != y] + Xor(a, b)
  {}

  lemma ZerosCons(n: nat, r: Word)
    ensures Zeros(n + 1) + r == [false] + (Zeros(n) + r)
  {}

  lemma XorTwice(a: Word, z: Word)
    requires |a| == |z|
    ensures Xor(z, Xor(a, z)) == a
  {}

  /** Undoing a reduction gives the dividend back. */
  lemma ReduceInverse(d: Word, p: Word)
    requires |d| > |p|
    ensures var n := |d| - 1 - |p|;
            d == Xor(if d[0] then Divisor(p) + Zeros(n) else Zeros(|d|), [false] + Reduce(d, p))
  {
    hide Xor, Zeros;
    var z := p + Zeros(|d| - 1 - |p|);
    assert d == [d[0]] + d[1..];
    if d[0] {
      assert Divisor(p) + Zeros(|d| - 1 - |p|) == [true] + z;
      XorCons(true, false, z, Xor(d[1..], z));
      XorTwice(d[1..], z);
    } else {
      assert Zeros(|d|) == [false] + Zeros(|d| - 1) by {
        ZerosCons(|d| - 1, []);
      }
      XorCons(false, false, Zeros(|d| - 1), d[1..]);
      XorZeros(d[1..]);
    }
  }

  lemma LongDivisionStep(d: Word, p: Word, q: Word, r: Word)
    requires |d| > |p|
    requires IsDivision(Reduce(d, p), p, q, r)
    ensures IsDivision(d, p, [d[0]] + q, r)
  {
    hide Xor, Zeros, Mul, Reduce, Divisor;
    var inner, padded := Mul(q, Divisor(p)), Zeros(|q|) + r;
    var top := if d[0] then Divisor(p) + Zeros(|q|) else Zeros(|d|);
    ReduceInverse(d, p);
    XorCons(false, false, inner, padded);
    XorAssociates(top, [false] + inner, [false] + padded);
    MulCons(d[0], q, Divisor(p));
    ZerosCons(|q|, r);
  }

  lemma {:induction false} LongDivision(d: Word, p: Word)
    requires |d| >= |p|
    ensures IsDivision(d, p, Quot(d, p), Rem(d, p))
    decreases |d|
  {
    if |d| > |p| {
      var e := Reduce(d, p);
      LongDivision(e, p);
      LongDivisionStep(d, p, Quot(e, p), Rem(e, p));
    } else {
      assert Mul([], Divisor(p)) == Zeros(|p|);
      assert Zeros(0) + d == d;
    }
  }

  lemma {:induction false} MulLinear(a: Word, b: Word, m: Word)
    requires |a| == |b| && |m| > 0
    ensures Mul(Xor(a, b), m) == Xor(Mul(a, m), Mul(b, m))
  {
    if a != [] {
      MulLinear(a[1..], b[1..], m);
      assert Xor(a, b)[1..] == Xor(a[1..], b[1..]);
      assert Xor(a, b) != [];
    } else {
      assert Xor(a, b) == [];
    }
  }

  /** A multiple of x^B + p that has degree below B is zero. */
  lemma {:induction false} SmallMultiple(q: Word, p: Word, r: Word)
    requires |r| == |p|
    requires Mul(q, Divisor(p)) == Zeros(|q|) + r
    ensures q == Zeros(|q|) && r == Zeros(|r|)
  {
    if q == [] {
      assert r == Zeros(0) + r;
    } else {
      var rest := Mul(q[1..], Divisor(p));
      assert Mul(q, Divisor(p))[0] == q[0];
      assert !(Zeros(|q|) + r)[0];
      assert rest == Mul(q, Divisor(p))[1..];
      assert (Zeros(|q|) + r)[1..] == Zeros(|q| - 1) + r;
      SmallMultiple(q[1..], p, r);
    }
  }

  lemma XorExchange(a: Word, b: Word, c: Word, d: Word)
    requires |a| == |b| == |c| == |d| && Xor(a, b) == Xor(c, d)
    ensures Xor(a, c) == Xor(b, d)
  {
    forall i | 0 <= i < |a|
      ensures Xor(a, c)[i] == Xor(b, d)[i]
    {
      assert Xor(a, b)[i] == Xor(c, d)[i];
    }
  }

  lemma XorPadded(n: nat, a: Word, b: Word)
    requires |a| == |b|
    ensures Xor(Zeros(n) + a, Zeros(n) + b) == Zeros(n) + Xor(a, b)
  {}

  /** Quotient and remainder are unique, so `Rem` is the only word of B bits
      congruent to the dividend. */
  lemma RemUnique(d: Word, p: Word, q: Word, r: Word)
    requires IsDivision(d, p, q, r)
    ensures q == Quot(d, p) && r == Rem(d, p)
  {
    hide Xor, Mul, Quot, Rem;
    LongDivision(d, p);
    var q', r' := Quot(d, p), Rem(d, p);
    var m := Divisor(p);
    MulLinear(q, q', m);
    XorExchange(Mul(q, m), Zeros(|q|) + r, Mul(q', m), Zeros(|q|) + r');
    XorPadded(|q|, r, r');
    SmallMultiple(Xor(q, q'), p, Xor(r, r'));
    XorZeroIff(q, q');
    XorZeroIff(r, r');
  }

  // ----- the bitwise process computes exactly this remainder -----

  /** I x^n + b x^B, for an initial remainder I and a stream b of n bits. */
  function Dividend(init: Word, bits: Word): (d: Word)
    ensures |d| == |init| + |bits|
  {
    Xor(init + Zeros(|bits|), bits + Zeros(|init|))
  }

  /** A division step of the register is a long-division step of the dividend. */
  lemma DividendStep(r: Word, p: Word, bits: Word)
    requires |r| == |p| > 0 && bits != []
    ensures Dividend(Step(r, p, bits[0]), bits[1..]) == Reduce(Dividend(r, bits), p)
  {
    var d, s := Dividend(r, bits), Step(r, p, bits[0]);
    var n := |bits| - 1;
    var e := Dividend(s, bits[1..]);
    var z := p + Zeros(n);
    assert d[0] == (r[0] != bits[0]);
    forall i | 0 <= i < |e|
      ensures e[i] == Reduce(d, p)[i]
    {
      assert (bits[1..] + Zeros(|p|))[i] == (bits + Zeros(|p|))[i + 1];
      assert (s + Zeros(n))[i] == ((r + Zeros(n + 1))[i + 1] != (d[0] && z[i]));
    }
  }

  lemma {:induction false} RunIsRem(r: Word, p: Word, bits: Word)
    requires |r| == |p| > 0
    ensures Run(r, p, bits) == Rem(Dividend(r, bits), p)
    decreases |bits|
  {
    if bits == [] {
      assert Dividend(r, bits) == r;
    } else {
      RunIsRem(Step(r, p, bits[0]), p, bits[1..]);
      DividendStep(r, p, bits);
    }
  }

  /** The masked remainder after a bit stream is the one polynomial of degree
      below B congruent to I x^n + b x^B modulo x^B + p. */
  lemma RunIsTheRemainder(r: Word, p: Word, bits: Word)
    requires |r| == |p| > 0
    ensures exists q :: IsDivision(Dividend(r, bits), p, q, Run(r, p, bits))
    ensures forall q, r' :: IsDivision(Dividend(r, bits), p, q, r') ==> r' == Run(r, p, bits)
  {
    var d := Dividend(r, bits);
    RunIsRem(r, p, bits);
    LongDivision(d, p);
    assert IsDivision(d, p, Quot(d, p), Run(r, p, bits));
    forall q, r' | IsDivision(d, p, q, r')
      ensures r' == Run(r, p, bits)
    {
      RemUnique(d, p, q, r');
    }
  }

  // ----- laws of Rem -----

  lemma ReduceLinear(d: Word, e: Word, p: Word)
    requires |d| == |e| > |p|
    ensures Reduce(Xor(d, e), p) == Xor(Reduce(d, p), Reduce(e, p))
  {}

  lemma {:induction false} RemLinear(d: Word, e: Word, p: Word)
    requires |d| == |e| >= |p|
    ensures Rem(Xor(d, e), p) == Xor(Rem(d, p), Rem(e, p))
    decreases |d|
  {
    if |d| > |p| {
      RemLinear(Reduce(d, p), Reduce(e, p), p);
      ReduceLinear(d, e, p);
    }
  }

  lemma {:induction false} RemLeadingZeros(k: nat, d: Word, p: Word)
    requires |d| >= |p|
    ensures Rem(Zeros(k) + d, p) == Rem(d, p)
    decreases k
  {
    if k == 0 {
      assert Zeros(0) + d == d;
    } else {
      assert Reduce(Zeros(k) + d, p) == Zeros(k - 1) + d;
      RemLeadingZeros(k - 1, d, p);
    }
  }

  lemma XorAppend(a: Word, z: Word, e: Word)
    requires |a| == |z|
    ensures Xor(a + e, z + Zeros(|e|)) == Xor(a, z) + e
  {}

  lemma ReduceAppend(d: Word, e: Word, p: Word)
    requires |d| > |p|
    ensures Reduce(d + e, p) == Reduce(d, p) + e
  {
    hide Xor;
    var z := p + Zeros(|d| - 1 - |p|);
    assert (d + e)[1..] == d[1..] + e;
    assert p + Zeros(|d + e| - 1 - |p|) == z + Zeros(|e|);
    XorAppend(d[1..], z, e);
  }

  /** The register may be reduced early: appending data commutes with taking remainders. */
  lemma {:induction false} RemAppend(d: Word, e: Word, p: Word)
    requires |d| >= |p|
    ensures Rem(d + e, p) == Rem(Rem(d, p) + e, p)
    decreases |d|
  {
    if |d| > |p| {
      RemAppend(Reduce(d, p), e, p);
      ReduceAppend(d, e, p);
    }
  }

  lemma RemZeros(n: nat, p: Word)
    requires n >= |p|
    ensures Rem(Zeros(n), p) == Zeros(|p|)
  {
    assert Zeros(n) == Zeros(n - |p|) + Zeros(|p|);
    RemLeadingZeros(n - |p|, Zeros(|p|), p);
  }

  lemma DividendLinear(r: Word, s: Word, a: Word, b: Word)
    requires |r| == |s| && |a| == |b|
    ensures Dividend(Xor(r, s), Xor(a, b)) == Xor(Dividend(r, a), Dividend(s, b))
  {}

  lemma RunLinear(r: Word, s: Word, p: Word, a: Word, b: Word)
    requires |r| == |s| == |p| > 0 && |a| == |b|
    ensures Run(Xor(r, s), p, Xor(a, b)) == Xor(Run(r, p, a), Run(s, p, b))
  {
    RunIsRem(r, p, a);
    RunIsRem(s, p, b);
    RunIsRem(Xor(r, s), p, Xor(a, b));
    DividendLinear(r, s, a, b);
    RemLinear(Dividend(r, a), Dividend(s, b), p);
  }

  /** From a zero remainder the dividend is the stream itself, times x^B. */
  lemma RunFromZero(p: Word, bits: Word)
    requires |p| > 0
    ensures Run(Zeros(|p|), p, bits) == Rem(bits + Zeros(|p|), p)
  {
    RunIsRem(Zeros(|p|), p, bits);
    assert Dividend(Zeros(|p|), bits) == bits + Zeros(|p|);
  }

  /** Fewer than B+1 bits act on the remainder as an XOR into its top positions. */
  lemma Absorb(r: Word, p: Word, bits: Word)
    requires |r| == |p| > 0 && |bits| <= |p|
    ensures Run(r, p, bits) == Run(Xor(r, bits + Zeros(|p| - |bits|)), p, Zeros(|bits|))
  {
    var s := Xor(r, bits + Zeros(|p| - |bits|));
    RunIsRem(r, p, bits);
    RunIsRem(s, p, Zeros(|bits|));
    assert Dividend(r, bits) == Dividend(s, Zeros(|bits|));
  }
}
