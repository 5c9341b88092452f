/** `rational`: a fraction object whose operators update it in place and keep it in
    lowest terms over a positive denominator. */
module RationalNumber {

  import opened Divisibility
  import opened LowestTerms
  import ContinuedFractions

  // ----- the constructor's helpers -----

  /** Euclid's algorithm with the signed C++ remainder. */
  function InnerGcd(a: int, b: int): (g: int)
    decreases Abs(b)
  {
    if b == 0 then a
    else
      TModBounds(a, b);
      InnerGcd(b, TMod(a, b))
  }

  predicate IsNormalized(n: int, d: int) {
    d > 0 && (n != 0 || d == 1) && Abs(InnerGcd(n, d)) == 1
  }

  lemma {:induction false} InnerGcdIsGcd(a: int, b: int)
    ensures Abs(InnerGcd(a, b)) == Gcd(a, b)
    decreases Abs(b)
  {
    if b != 0 {
      TModBounds(a, b);
      InnerGcdIsGcd(b, TMod(a, b));
    }
  }

  /** The check used by the converting constructors decides the class invariant. */
  lemma IsNormalizedDecidesInvariant(n: int, d: int)
    ensures IsNormalized(n, d) <==> Normal(n, d)
  {
    InnerGcdIsGcd(n, d);
    if n == 0 && d > 0 {
      assert Gcd(0, d) == NatGcd(0, d) == NatGcd(d, 0) == d by {
        assert 0 % d == 0;
      }
    }
  }

  /** The numbers `normalize` stores for n/d: both divided by their gcd, with the
      sign moved to the numerator. */
  lemma NormalizeInLowestTerms(n: int, d: int)
    requires n != 0 && d != 0
    ensures var g := Gcd(n, d);
            var x, y := TDiv(n, g), TDiv(d, g);
            && g > 0 && y != 0
            && Value(x, y) == Value(n, d) && Value(-x, -y) == Value(n, d)
            && (if y < 0 then Normal(-x, -y) else Normal(x, y))
  {
    var g := Gcd(n, d);
    var x, y := GcdQuotients(n, d);
    TDivExact(g, x);
    TDivExact(g, y);
    assert (g * x) * y == x * (g * y);
    CrossProduct(x, y, n, d);
    SignFlip(x, y);
    CrossProduct(-x, -y, x, y);
    CoprimeNegate(x, y);
  }

  // ----- the class -----

  lemma ZeroValue(n: int, d: int)
    requires d != 0
    ensures LowestTerms.Value(n, d) == 0.0 <==> n == 0
  {
    CrossProduct(n, d, 0, 1);
  }

  /** An integer operand is the fraction i/1; the gcds with 1 are 1. */
  lemma IntegerOperand(n: int, d: int, i: int)
    requires Normal(n, d)
    ensures Normal(i, 1) && LowestTerms.Value(i, 1) == i as real
    ensures Gcd(n, 1) == 1 && Gcd(1, d) == 1
    ensures TDiv(n, 1) == n && TDiv(1, 1) == 1 && TDiv(d, 1) == d
  {
    CoprimeBy(i, 1, 0, 1);
    CoprimeBy(n, 1, 0, 1);
    CoprimeBy(1, d, 1, 0);
    TDivExact(1, n);
    TDivExact(1, d);
    TDivExact(1, 1);
  }

  predicate Within(values: seq<int>, limit: nat) {
    forall v :: v in values ==> Abs(v) <= limit
  }

  /** The range holds both operands and the result. */
  predicate Holds(limit: nat, a: int, b: int, c: int, d: int, x: int, y: int) {
    && Abs(a) <= limit && Abs(b) <= limit && Abs(c) <= limit && Abs(d) <= limit
    && Abs(x) <= limit && Abs(y) <= limit
  }

  lemma WithinTen(s: seq<int>, limit: nat)
    requires |s| == 10
    ensures Within(s, limit) <==>
            && Abs(s[0]) <= limit && Abs(s[1]) <= limit && Abs(s[2]) <= limit && Abs(s[3]) <= limit
            && Abs(s[4]) <= limit && Abs(s[5]) <= limit && Abs(s[6]) <= limit && Abs(s[7]) <= limit
            && Abs(s[8]) <= limit && Abs(s[9]) <= limit
  {
    assert forall v :: v in s ==> v == s[0] || v == s[1] || v == s[2] || v == s[3] || v == s[4] ||
                                  v == s[5] || v == s[6] || v == s[7] || v == s[8] || v == s[9];
  }

  lemma SumFitsWithin(a: int, b: int, c: int, d: int, formed: seq<int>, limit: nat)
    requires b > 0 && d > 0
    requires var g := Gcd(b, d);
             var b1, d1 := TDiv(b, g), TDiv(d, g);
             var n := a * d1 + c * b1;
             var h := Gcd(n, g);
             formed == [g, b1, d1, a * d1, c * b1, n, h, TDiv(n, h), TDiv(d, h), b1 * TDiv(d, h)]
    ensures Within(formed, limit) <==> SumFits(a, b, c, d, limit)
  {
    hide TDiv, Gcd, Within;
    WithinTen(formed, limit);
  }

  lemma DifferenceFitsWithin(a: int, b: int, c: int, d: int, formed: seq<int>, limit: nat)
    requires b > 0 && d > 0
    requires var g := Gcd(b, d);
             var b1, d1 := TDiv(b, g), TDiv(d, g);
             var n := a * d1 - c * b1;
             var h := Gcd(n, g);
             formed == [g, b1, d1, a * d1, c * b1, n, h, TDiv(n, h), TDiv(d, h), b1 * TDiv(d, h)]
    ensures Within(formed, limit) <==> DifferenceFits(a, b, c, d, limit)
  {
    hide TDiv, Gcd, Within;
    WithinTen(formed, limit);
  }

  /** What the operators compute, and when it fits. */
  lemma SumFormed(a: int, b: int, c: int, d: int, x: int, y: int, formed: seq<int>)
    requires Normal(a, b) && Normal(c, d) && Normal(x, y) && Value(x, y) == Value(a, b) + Value(c, d)
    requires var g := Gcd(b, d);
             var b1, d1 := TDiv(b, g), TDiv(d, g);
             var n := a * d1 + c * b1;
             var h := Gcd(n, g);
             formed == [g, b1, d1, a * d1, c * b1, n, h, TDiv(n, h), TDiv(d, h), b1 * TDiv(d, h)]
    ensures forall limit: nat | Holds(limit, a, b, c, d, x, y) ::
              Within(formed, limit) <==> ProductsFit(a, b, c, d, (a < 0) != (c < 0), limit)
  {
    hide TDiv, Gcd, Coprime, Value, ProductsFit, SumFits, Within;
    forall limit: nat | Holds(limit, a, b, c, d, x, y)
      ensures Within(formed, limit) <==> ProductsFit(a, b, c, d, (a < 0) != (c < 0), limit)
    {
      SumStaysInRange(a, b, c, d, x, y, limit);
      SumFitsWithin(a, b, c, d, formed, limit);
    }
  }

  lemma DifferenceFormed(a: int, b: int, c: int, d: int, x: int, y: int, formed: seq<int>)
    requires Normal(a, b) && Normal(c, d) && Normal(x, y) && Value(x, y) == Value(a, b) - Value(c, d)
    requires var g := Gcd(b, d);
             var b1, d1 := TDiv(b, g), TDiv(d, g);
             var n := a * d1 - c * b1;
             var h := Gcd(n, g);
             formed == [g, b1, d1, a * d1, c * b1, n, h, TDiv(n, h), TDiv(d, h), b1 * TDiv(d, h)]
    ensures forall limit: nat | Holds(limit, a, b, c, d, x, y) ::
              Within(formed, limit) <==> ProductsFit(a, b, c, d, (a < 0) != (c > 0), limit)
  {
    hide TDiv, Gcd, Coprime, Value, ProductsFit, DifferenceFits, Within;
    forall limit: nat | Holds(limit, a, b, c, d, x, y)
      ensures Within(formed, limit) <==> ProductsFit(a, b, c, d, (a < 0) != (c > 0), limit)
    {
      DifferenceStaysInRange(a, b, c, d, x, y, limit);
      DifferenceFitsWithin(a, b, c, d, formed, limit);
    }
  }

  lemma ProductFormed(a: int, b: int, c: int, d: int, x: int, y: int, formed: seq<int>)
    requires Normal(a, b) && Normal(c, d) && Normal(x, y) && Value(x, y) == Value(a, b) * Value(c, d)
    requires var g1, g2 := Gcd(a, d), Gcd(c, b);
             formed == [g1, g2, TDiv(a, g1), TDiv(c, g2), TDiv(a, g1) * TDiv(c, g2),
                        TDiv(b, g2), TDiv(d, g1), TDiv(b, g2) * TDiv(d, g1)]
    ensures forall limit: nat | Holds(limit, a, b, c, d, x, y) :: Within(formed, limit)
  {
    hide TDiv, Gcd, Coprime, Value;
    forall limit: nat | Holds(limit, a, b, c, d, x, y)
      ensures Within(formed, limit)
    {
      ProductStaysInRange(a, b, c, d, x, y, limit);
    }
  }

  lemma QuotientFormed(a: int, b: int, c: int, d: int, x: int, y: int, core: seq<int>, formed: seq<int>)
    requires Normal(a, b) && Normal(c, d) && a != 0 && c != 0 && Value(c, d) != 0.0
    requires Normal(x, y) && Value(x, y) == Value(a, b) / Value(c, d)
    requires var g1, g2 := Gcd(a, c), Gcd(d, b);
             core == [g1, g2, TDiv(a, g1), TDiv(d, g2), TDiv(a, g1) * TDiv(d, g2),
                      TDiv(b, g2), TDiv(c, g1), TDiv(b, g2) * TDiv(c, g1)]
    requires formed == core || formed == core + [x, y]
    ensures forall limit: nat | Holds(limit, a, b, c, d, x, y) :: Within(formed, limit)
  {
    hide TDiv, Gcd, Coprime, Value;
    forall limit: nat | Holds(limit, a, b, c, d, x, y)
      ensures Within(formed, limit)
    {
      QuotientStaysInRange(a, b, c, d, x, y, limit);
    }
  }

  class Rational {
    var num: int
    var den: int

    ghost predicate Valid()
      reads this
    {
      Normal(num, den)
    }

    predicate InRange(limit: nat): (fits: bool)
      reads this
      ensures fits <==> 0 <= num + limit <= 2 * limit && 0 <= den + limit <= 2 * limit
    {
      Abs(num) <= limit && Abs(den) <= limit
    }

    ghost function Value(): real
      requires den != 0
      reads this
    {
      LowestTerms.Value(num, den)
    }

    /** The constructors from one integer, and the default constructor. */
    constructor FromInteger(n: int)
      ensures Valid() && Value() == n as real
    {
      num, den := n, 1;
      CoprimeBy(n, 1, 0, 1);
    }

    /** The fields as given, before `normalize` runs. */
    constructor Raw(n: int, d: int)
      ensures num == n && den == d
    {
      num, den := n, d;
    }

    /** `false` stands for the exception `bad_rational`, thrown exactly on a zero denominator. */
    method Normalize() returns (ok: bool)
      modifies this
      ensures ok == (old(den) != 0)
      ensures ok ==> Valid() && Value() == old(LowestTerms.Value(num, if den == 0 then 1 else den))
      ensures !ok ==> num == old(num) && den == old(den)
    {
      if den == 0 {
        return false;
      }
      if num == 0 {
        CrossProduct(0, 1, 0, den);
        CoprimeBy(0, 1, 0, 1);
        den := 1;
        return true;
      }
      NormalizeInLowestTerms(num, den);
      var g := Gcd(num, den);
      num := TDiv(num, g);
      den := TDiv(den, g);
      if den < 0 {
        num := -num;
        den := -den;
      }
      return true;
    }

    /** The constructor from numerator and denominator. */
    static method Make(n: int, d: int) returns (r: Rational?)
      ensures r == null <==> d == 0
      ensures r != null ==> fresh(r) && r.Valid() && r.Value() == LowestTerms.Value(n, d)
    {
      var x := new Rational.Raw(n, d);
      var ok := x.Normalize();
      r := if ok then x else null;
    }

    // ----- rational operands; `r` may be this very object -----

    /** `formed` records every value computed. */
    method AddAssign(r: Rational) returns (ghost formed: seq<int>)
      requires Valid() && r.Valid()
      modifies this
      ensures Valid() && Value() == old(Value()) + old(r.Value())
      ensures forall limit: nat :: old(InRange(limit) && r.InRange(limit)) && InRange(limit) ==>
                (Within(formed, limit) <==> ProductsFit(old(num), old(den), old(r.num), old(r.den),
                                                        (old(num) < 0) != (old(r.num) < 0), limit))
    {
      hide TDiv, Gcd, Coprime, LowestTerms.Value, ProductsFit, SumFits;
      ghost var a, b := num, den;
      var rNum, rDen := r.num, r.den;
      SumInLowestTerms(num, den, rNum, rDen);
      var g := Gcd(den, rDen);
      den := TDiv(den, g);
      formed := [g, den, TDiv(rDen, g), num * TDiv(rDen, g), rNum * den];
      num := num * TDiv(rDen, g) + rNum * den;
      g := Gcd(num, g);
      formed := formed + [num, g];
      num := TDiv(num, g);
      formed := formed + [num, TDiv(rDen, g), den * TDiv(rDen, g)];
      den := den * TDiv(rDen, g);
      SumFormed(a, b, rNum, rDen, num, den, formed);
    }

    method SubtractAssign(r: Rational) returns (ghost formed: seq<int>)
      requires Valid() && r.Valid()
      modifies this
      ensures Valid() && Value() == old(Value()) - old(r.Value())
      ensures forall limit: nat :: old(InRange(limit) && r.InRange(limit)) && InRange(limit) ==>
                (Within(formed, limit) <==> ProductsFit(old(num), old(den), old(r.num), old(r.den),
                                                        (old(num) < 0) != (old(r.num) > 0), limit))
    {
      hide TDiv, Gcd, Coprime, LowestTerms.Value, ProductsFit, DifferenceFits;
      ghost var a, b := num, den;
      var rNum, rDen := r.num, r.den;
      CoprimeNegate(rNum, rDen);
      SumInLowestTerms(num, den, -rNum, rDen);
      NegatedValue(rNum, rDen);
      var g := Gcd(den, rDen);
      den := TDiv(den, g);
      SignFlip(rNum, den);
      formed := [g, den, TDiv(rDen, g), num * TDiv(rDen, g), rNum * den];
      num := num * TDiv(rDen, g) - rNum * den;
      g := Gcd(num, g);
      formed := formed + [num, g];
      num := TDiv(num, g);
      formed := formed + [num, TDiv(rDen, g), den * TDiv(rDen, g)];
      den := den * TDiv(rDen, g);
      DifferenceFormed(a, b, rNum, rDen, num, den, formed);
    }

    method MultiplyAssign(r: Rational) returns (ghost formed: seq<int>)
      requires Valid() && r.Valid()
      modifies this
      ensures Valid() && Value() == old(Value()) * old(r.Value())
      ensures forall limit: nat :: old(InRange(limit) && r.InRange(limit)) && InRange(limit) ==>
                Within(formed, limit)
    {
      hide TDiv, Gcd, Coprime, LowestTerms.Value;
      ghost var a, b := num, den;
      var rNum, rDen := r.num, r.den;
      ProductInLowestTerms(num, den, rNum, rDen);
      var gcd1 := Gcd(num, rDen);
      var gcd2 := Gcd(rNum, den);
      formed := [gcd1, gcd2, TDiv(num, gcd1), TDiv(rNum, gcd2)];
      num := TDiv(num, gcd1) * TDiv(rNum, gcd2);
      formed := formed + [num, TDiv(den, gcd2), TDiv(rDen, gcd1)];
      den := TDiv(den, gcd2) * TDiv(rDen, gcd1);
      formed := formed + [den];
      ProductFormed(a, b, rNum, rDen, num, den, formed);
    }

    /** `false` stands for `bad_rational`; nothing has changed then. */
    method DivideAssign(r: Rational) returns (ok: bool, ghost formed: seq<int>)
      requires Valid() && r.Valid()
      modifies this
      ensures ok == (old(r.Value()) != 0.0) && Valid()
      ensures ok ==> Value() == old(Value()) / old(r.Value())
      ensures !ok ==> num == old(num) && den == old(den)
      ensures forall limit: nat :: old(InRange(limit) && r.InRange(limit)) && InRange(limit) ==>
                Within(formed, limit)
    {
      hide TDiv, Gcd, Coprime, LowestTerms.Value;
      ghost var a, b := num, den;
      var rNum, rDen := r.num, r.den;
      ZeroValue(rNum, rDen);
      if rNum == 0 {
        return false, [];
      }
      if num == 0 {
        ZeroValue(num, den);
        return true, [];
      }
      QuotientInLowestTerms(num, den, rNum, rDen);
      var gcd1 := Gcd(num, rNum);
      var gcd2 := Gcd(rDen, den);
      formed := [gcd1, gcd2, TDiv(num, gcd1), TDiv(rDen, gcd2)];
      num := TDiv(num, gcd1) * TDiv(rDen, gcd2);
      formed := formed + [num, TDiv(den, gcd2), TDiv(rNum, gcd1)];
      den := TDiv(den, gcd2) * TDiv(rNum, gcd1);
      formed := formed + [den];
      ghost var core := formed;
      if den < 0 {
        num := -num;
        den := -den;
        formed := formed + [num, den];
      }
      QuotientFormed(a, b, rNum, rDen, num, den, core, formed);
      return true, formed;
    }

    // ----- integer operands -----

    method AddInteger(i: int)
      requires Valid()
      modifies this
      ensures Valid() && Value() == old(Value()) + i as real
    {
      CoprimeShift(num, den, i);
      ValueOfSum(num, den, i, 1);
      num := num + i * den;
    }

    method SubtractInteger(i: int)
      requires Valid()
      modifies this
      ensures Valid() && Value() == old(Value()) - i as real
    {
      CoprimeShift(num, den, -i);
      ValueOfSum(num, den, -i, 1);
      SignFlip(i, den);
      num := num - i * den;
    }

    method MultiplyInteger(i: int)
      requires Valid()
      modifies this
      ensures Valid() && Value() == old(Value()) * i as real
    {
      hide TDiv, Gcd, Coprime, LowestTerms.Value;
      IntegerOperand(num, den, i);
      ProductInLowestTerms(num, den, i, 1);
      var gcd := Gcd(i, den);
      num := num * TDiv(i, gcd);
      den := TDiv(den, gcd);
    }

    method DivideInteger(i: int) returns (ok: bool)
      requires Valid()
      modifies this
      ensures ok == (i != 0) && Valid()
      ensures ok ==> Value() == old(Value()) / i as real
      ensures !ok ==> num == old(num) && den == old(den)
    {
      if i == 0 {
        return false;
      }
      if num == 0 {
        ZeroValue(num, den);
        return true;
      }
      IntegerOperand(num, den, i);
      QuotientInLowestTerms(num, den, i, 1);
      var gcd := Gcd(num, i);
      num := TDiv(num, gcd);
      den := den * TDiv(i, gcd);
      if den < 0 {
        num := -num;
        den := -den;
      }
      return true;
    }

    method Increment()
      requires Valid()
      modifies this
      ensures Valid() && Value() == old(Value()) + 1.0
    {
      CoprimeShift(num, den, 1);
      ValueOfSum(num, den, 1, 1);
      num := num + den;
    }

    method Decrement()
      requires Valid()
      modifies this
      ensures Valid() && Value() == old(Value()) - 1.0
    {
      CoprimeShift(num, den, -1);
      ValueOfSum(num, den, -1, 1);
      num := num - den;
    }

    // ----- comparisons -----

    method LessThan(r: Rational) returns (less: bool)
      requires Valid() && r.Valid()
      ensures less <==> Value() < r.Value()
    {
      ValueOrder(num, den, r.num, r.den);
      ghost var peak;
      less, peak := ContinuedFractions.LessThan(num, den, r.num, r.den);
    }

    method LessThanInteger(i: int) returns (less: bool)
      requires Valid()
      ensures less <==> Value() < i as real
    {
      ValueOrder(num, den, i, 1);
      less := ContinuedFractions.LessThanInteger(num, den, i);
    }

    /** Comparing the fields compares the values. */
    method Equals(r: Rational) returns (same: bool)
      requires Valid() && r.Valid()
      ensures same <==> Value() == r.Value()
      ensures same <==> num == r.num && den == r.den
    {
      NormalFormUnique(num, den, r.num, r.den);
      same := num == r.num && den == r.den;
    }
  }

  /** Unary minus constructs its result. */
  method Negate(r: Rational) returns (n: Rational)
    requires r.Valid()
    ensures fresh(n) && n.Valid() && n.num == -r.num && n.den == r.den
  {
    CoprimeNegate(r.num, r.den);
    var made := Rational.Make(-r.num, r.den);
    n := made;
    NormalFormUnique(n.num, n.den, -r.num, r.den);
  }

  method Absolute(r: Rational) returns (a: Rational)
    requires r.Valid()
    ensures a.Valid() && a.num == Abs(r.num) && a.den == r.den
  {
    if r.num >= 0 {
      a := r;
    } else {
      a := Negate(r);
    }
  }

  // ----- laws across operations -----

  /** `(x += y) -= y` restores the very same fields. */
  method AddThenSubtract(x: Rational, y: Rational)
    requires x != y && x.Valid() && y.Valid()
    modifies x
    ensures x.num == old(x.num) && x.den == old(x.den)
  {
    ghost var _ := x.AddAssign(y);
    ghost var _ := x.SubtractAssign(y);
    NormalFormUnique(x.num, x.den, old(x.num), old(x.den));
  }

  /** So does `(x *= y) /= y` for a non-zero y, whatever the signs. */
  method MultiplyThenDivide(x: Rational, y: Rational) returns (ok: bool)
    requires x != y && x.Valid() && y.Valid()
    modifies x
    ensures ok == (y.num != 0)
    ensures ok ==> x.num == old(x.num) && x.den == old(x.den)
  {
    hide LowestTerms.Value, Coprime, Gcd;
    ghost var v, w := x.Value(), y.Value();
    ghost var _ := x.MultiplyAssign(y);
    ghost var formed;
    ok, formed := x.DivideAssign(y);
    ZeroValue(y.num, y.den);
    if ok {
      DivideBack(v * w, w);
      CancelReal((v * w) / w, v, w);
      NormalFormUnique(x.num, x.den, old(x.num), old(x.den));
    }
  }

  /** Exactly one of x < y, x == y, y < x holds, and adding the same number to both
      sides changes neither answer. */
  method OrderIsTotalAndKeptBySums(x: Rational, y: Rational, z: Rational)
    returns (less: bool, same: bool, greater: bool, stillLess: bool, stillSame: bool)
    requires x != y && x.Valid() && y.Valid() && z.Valid() && z != x && z != y
    modifies x, y
    ensures (less && !same && !greater) || (!less && same && !greater) || (!less && !same && greater)
    ensures x.Valid() && y.Valid() && stillLess == less && stillSame == same
  {
    less := x.LessThan(y);
    same := x.Equals(y);
    greater := y.LessThan(x);
    ghost var _ := x.AddAssign(z);
    ghost var _ := y.AddAssign(z);
    stillLess := x.LessThan(y);
    stillSame := x.Equals(y);
  }
}
