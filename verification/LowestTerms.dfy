/** Fractions in lowest terms: why the library's in-place arithmetic stays normalized
    without normalizing, and computes exact values. */
module LowestTerms {

  import opened Divisibility

  /** The class invariant of `rational`. */
  predicate Normal(n: int, d: int) {
    d > 0 && Coprime(n, d)
  }

  ghost function Value(n: int, d: int): (x: real)
    requires d != 0
  {
    n as real / d as real
  }

  // ----- values and cross products -----

  lemma DivideBack(p: real, q: real)
    requires q != 0.0
    ensures (p / q) * q == p
  {}

  lemma CancelReal(x: real, y: real, z: real)
    requires z != 0.0 && x * z == y * z
    ensures x == y
  {
    assert (x - y) * z == 0.0;
  }

  lemma CrossScale(x: real, y: real, p: real, q: real)
    requires p != 0.0 && q != 0.0
    ensures x == y <==> (x * p) * q == (y * q) * p
  {
    assert (x * p) * q == x * (p * q) && (y * q) * p == y * (p * q);
    assert p * q != 0.0;
    if x * (p * q) == y * (p * q) {
      CancelReal(x, y, p * q);
    }
  }

  lemma CrossProduct(a: int, b: int, c: int, d: int)
    requires b != 0 && d != 0
    ensures Value(a, b) == Value(c, d) <==> a * d == c * b
  {
    var x, y, p, q := Value(a, b), Value(c, d), b as real, d as real;
    DivideBack(a as real, p);
    DivideBack(c as real, q);
    CrossScale(x, y, p, q);
    assert (a * d) as real == (x * p) * q;
    assert (c * b) as real == (y * q) * p;
  }

  lemma ValueOfSum(a: int, b: int, c: int, d: int)
    requires b != 0 && d != 0
    ensures b * d != 0
    ensures Value(a * d + c * b, b * d) == Value(a, b) + Value(c, d)
  {
    var x, y, p, q := Value(a, b), Value(c, d), b as real, d as real;
    if b * d == 0 {
      ZeroProduct(b, d);
    }
    DivideBack(a as real, p);
    DivideBack(c as real, q);
    DivideBack((a * d + c * b) as real, (b * d) as real);
    assert (a * d) as real == (x * p) * q && (c * b) as real == (y * q) * p;
    assert (x * p) * q + (y * q) * p == (x + y) * (p * q);
    assert (b * d) as real == p * q;
    CancelReal(Value(a * d + c * b, b * d), x + y, p * q);
  }

  lemma ValueOfProduct(a: int, b: int, c: int, d: int)
    requires b != 0 && d != 0
    ensures b * d != 0
    ensures Value(a * c, b * d) == Value(a, b) * Value(c, d)
  {
    var x, y, p, q := Value(a, b), Value(c, d), b as real, d as real;
    if b * d == 0 {
      ZeroProduct(b, d);
    }
    DivideBack(a as real, p);
    DivideBack(c as real, q);
    DivideBack((a * c) as real, (b * d) as real);
    assert (a * c) as real == (x * p) * (y * q);
    assert (x * p) * (y * q) == (x * y) * (p * q);
    assert (b * d) as real == p * q;
    CancelReal(Value(a * c, b * d), x * y, p * q);
  }

  lemma AssociateReal(x: real, y: real, z: real)
    ensures (x * y) * z == x * (y * z)
  {}

  lemma ValueOfReciprocal(c: int, d: int)
    requires c != 0 && d != 0
    ensures Value(c, d) != 0.0 && Value(d, c) == 1.0 / Value(c, d)
  {
    var x, y, p, q := Value(c, d), Value(d, c), c as real, d as real;
    DivideBack(p, q);
    DivideBack(q, p);
    assert x * q == p && y * p == q;
    AssociateReal(y, x, q);
    CancelReal(y * x, 1.0, q);
    DivideBack(1.0, x);
    CancelReal(y, 1.0 / x, x);
  }

  lemma ScaleOrder(x: real, y: real, z: real)
    requires z > 0.0
    ensures x < y <==> x * z < y * z
  {
    if x < y {
      assert (y - x) * z > 0.0;
    } else {
      assert (x - y) * z >= 0.0;
    }
  }

  lemma ValueOrder(a: int, b: int, c: int, d: int)
    requires b > 0 && d > 0
    ensures Value(a, b) < Value(c, d) <==> a * d < c * b
  {
    var x, y, p, q := Value(a, b), Value(c, d), b as real, d as real;
    DivideBack(a as real, p);
    DivideBack(c as real, q);
    assert (a * d) as real == (x * p) * q && (c * b) as real == (y * q) * p;
    assert (x * p) * q == x * (p * q) && (y * q) * p == y * (p * q);
    ScaleOrder(x, y, p * q);
  }

  // ----- one value, one normalized form -----

  /** Structural equality of normalized fractions is equality of values. */
  lemma NormalFormUnique(a: int, b: int, c: int, d: int)
    requires Normal(a, b) && Normal(c, d)
    ensures Value(a, b) == Value(c, d) <==> a == c && b == d
  {
    CrossProduct(a, b, c, d);
    if a * d == c * b {
      CoprimeSymmetric(a, b);
      CoprimeSymmetric(c, d);
      assert Divides(b, a * d) by { assert a * d == b * c; }
      EuclidLemma(b, a, d);
      assert Divides(d, c * b) by { assert c * b == d * a; }
      EuclidLemma(d, c, b);
      DividesEachOther(b, d);
      assert b * a == b * c;
      Cancel(b, a, c);
    }
  }

  // ----- addition: divide only by gcd(num, g) -----

  lemma SumCoprime(a: int, b: int, c: int, d: int, g: int, b1: int, d1: int, n: int)
    requires Normal(a, b) && Coprime(b1, d1)
    requires b == g * b1 && n == a * d1 + c * b1
    ensures Coprime(n, b1)
  {
    assert Divides(b1, b) by { assert b == b1 * g; }
    assert Divides(a, a) by { assert a == a * 1; }
    CoprimeDivisors(a, b, a, b1);
    CoprimeSymmetric(a, b1);
    CoprimeProduct(b1, a, d1);
    CoprimeSymmetric(b1, a * d1);
    CoprimeShift(a * d1, b1, c);
  }

  lemma DivisorOfCoprime(n: int, h: int, x: int, m: int)
    requires Coprime(n, m) && n == h * x
    ensures Coprime(x, m)
  {
    assert Divides(x, n) by { assert n == x * h; }
    assert Divides(m, m) by { assert m == m * 1; }
    CoprimeDivisors(n, m, x, m);
  }

  lemma SumValue(a: int, b: int, c: int, d: int, g: int, b1: int, d1: int, h: int, x: int, e: int)
    requires b == g * b1 && d == g * d1 && d == h * e && h * x == a * d1 + c * b1
    ensures x * (b * d) == (a * d + c * b) * (b1 * e)
  {
    assert a * d + c * b == g * (h * x) by {
      assert a * (g * d1) == g * (a * d1) && c * (g * b1) == g * (c * b1);
      Distribute(g, a * d1, c * b1);
    }
    assert (g * (h * x)) * (b1 * e) == x * ((g * b1) * (h * e));
  }

  lemma PositiveFactor(g: int, k: int)
    requires g > 0 && g * k > 0
    ensures k > 0
  {}

  lemma PositiveProduct(x: int, y: int)
    requires x > 0 && y > 0
    ensures x * y > 0
  {}

  /** `operator+=` on a/b and c/d: with g = gcd(b, d) the only common factor of the
      new numerator and denominator is gcd(num, g), so dividing by it normalizes. */
  lemma SumInLowestTerms(a: int, b: int, c: int, d: int)
    requires Normal(a, b) && Normal(c, d)
    ensures var g := Gcd(b, d);
            var b1 := TDiv(b, g);
            var n := a * TDiv(d, g) + c * b1;
            var h := Gcd(n, g);
            && h > 0
            && Normal(TDiv(n, h), b1 * TDiv(d, h))
            && Value(TDiv(n, h), b1 * TDiv(d, h)) == Value(a, b) + Value(c, d)
  {
    var g := Gcd(b, d);
    var b1, d1 := GcdQuotients(b, d);
    TDivExact(g, b1);
    TDivExact(g, d1);
    var n := a * d1 + c * b1;
    var h := Gcd(n, g);
    var x, k := GcdQuotients(n, g);
    TDivExact(h, x);
    var e := k * d1;
    assert d == h * e by { Associate(h, k, d1); }
    TDivExact(h, e);

    SumCoprime(a, b, c, d, g, b1, d1, n);
    CoprimeSymmetric(b1, d1);
    SumCoprime(c, d, a, b, g, d1, b1, n);
    DivisorOfCoprime(n, h, x, b1);
    DivisorOfCoprime(n, h, x, d1);
    CoprimeProduct(x, k, d1);
    CoprimeProduct(x, b1, e);

    PositiveFactor(g, b1);
    PositiveFactor(h, e);
    PositiveProduct(b1, e);
    SumValue(a, b, c, d, g, b1, d1, h, x, e);
    ValueOfSum(a, b, c, d);
    CrossProduct(x, b1 * e, a * d + c * b, b * d);
  }

  // ----- multiplication and division: cancel crosswise first -----

  lemma Regroup(a: int, b: int, c: int, d: int, g: int, h: int)
    ensures (a * c) * ((h * b) * (g * d)) == ((g * a) * (h * c)) * (b * d)
  {}

  lemma DividesBy(g: int, a: int, k: int)
    requires a == g * k
    ensures Divides(k, a)
  {
    assert a == k * g;
  }

  /** With coprime a, b and coprime c, d, cancelling gcd(a, d) and gcd(c, b)
      leaves the product coprime. */
  lemma CrossReduced(a: int, b: int, c: int, d: int) returns (a': int, b': int, c': int, d': int)
    requires Coprime(a, b) && Coprime(c, d) && b != 0 && d != 0
    ensures var g1, g2 := Gcd(a, d), Gcd(c, b);
            && g1 > 0 && g2 > 0
            && a == g1 * a' && d == g1 * d' && c == g2 * c' && b == g2 * b'
            && a' == TDiv(a, g1) && d' == TDiv(d, g1) && c' == TDiv(c, g2) && b' == TDiv(b, g2)
    ensures Coprime(a' * c', b' * d') && b' * d' != 0
    ensures (a' * c') * (b * d) == (a * c) * (b' * d')
  {
    var g1, g2 := Gcd(a, d), Gcd(c, b);
    a', d' := GcdQuotients(a, d);
    c', b' := GcdQuotients(c, b);
    TDivExact(g1, a');
    TDivExact(g1, d');
    TDivExact(g2, c');
    TDivExact(g2, b');
    DividesBy(g1, a, a');
    DividesBy(g1, d, d');
    DividesBy(g2, c, c');
    DividesBy(g2, b, b');
    CoprimeDivisors(a, b, a', b');
    CoprimeDivisors(c, d, c', d');
    CoprimeProduct(a', b', d');
    CoprimeProduct(c', b', d');
    CoprimeSymmetric(a', b' * d');
    CoprimeSymmetric(c', b' * d');
    CoprimeProduct(b' * d', a', c');
    CoprimeSymmetric(b' * d', a' * c');
    if b' * d' == 0 {
      ZeroProduct(b', d');
    }
    Regroup(a', b', c', d', g1, g2);
  }

  lemma ProductInLowestTerms(a: int, b: int, c: int, d: int)
    requires Normal(a, b) && Normal(c, d)
    ensures var g1, g2 := Gcd(a, d), Gcd(c, b);
            var n, m := TDiv(a, g1) * TDiv(c, g2), TDiv(b, g2) * TDiv(d, g1);
            Normal(n, m) && Value(n, m) == Value(a, b) * Value(c, d)
  {
    var a', b', c', d' := CrossReduced(a, b, c, d);
    PositiveFactor(Gcd(c, b), b');
    PositiveFactor(Gcd(a, d), d');
    PositiveProduct(b', d');
    ValueOfProduct(a, b, c, d);
    CrossProduct(a' * c', b' * d', a * c, b * d);
  }

  lemma DivisionIsProduct(x: real, y: real)
    requires y != 0.0
    ensures x / y == x * (1.0 / y)
  {
    DivideBack(x, y);
    DivideBack(1.0, y);
    assert (x * (1.0 / y)) * y == x * ((1.0 / y) * y);
    CancelReal(x / y, x * (1.0 / y), y);
  }

  lemma QuotientInLowestTerms(a: int, b: int, c: int, d: int)
    requires Normal(a, b) && Normal(c, d) && c != 0
    ensures var g1, g2 := Gcd(a, c), Gcd(d, b);
            var n, m := TDiv(a, g1) * TDiv(d, g2), TDiv(b, g2) * TDiv(c, g1);
            && m != 0
            && (if m < 0 then Normal(-n, -m) else Normal(n, m))
            && Value(c, d) != 0.0
            && Value(n, m) == Value(a, b) / Value(c, d)
            && Value(-n, -m) == Value(n, m)
  {
    CoprimeSymmetric(c, d);
    var a', b', d', c' := CrossReduced(a, b, d, c);
    var n, m := a' * d', b' * c';
    CoprimeNegate(n, m);
    ValueOfProduct(a, b, d, c);
    ValueOfReciprocal(c, d);
    CrossProduct(n, m, a * d, b * c);
    CrossProduct(-n, -m, n, m);
    SignFlip(n, m);
    DivisionIsProduct(Value(a, b), Value(c, d));
  }

  lemma ProductAtLeast(x: int, y: int)
    requires x > 0 && y > 0
    ensures x * y >= x && x * y >= y
  {}

  lemma QuotientBound(g: int, a: int, k: int)
    requires g > 0 && a == g * k
    ensures Abs(k) <= Abs(a)
    ensures a != 0 ==> g <= Abs(a)
  {
    AbsProduct(g, k);
    if k != 0 {
      ProductAtLeast(g, Abs(k));
    }
  }

  /** The crosswise form cannot overflow a symmetric range that holds the operands
      and the exact result: every factor, quotient and product on the way fits. */
  lemma ProductStaysInRange(a: int, b: int, c: int, d: int, n: int, m: int, limit: nat)
    requires Normal(a, b) && Normal(c, d)
    requires Abs(a) <= limit && b <= limit && Abs(c) <= limit && d <= limit
    requires Normal(n, m) && Value(n, m) == Value(a, b) * Value(c, d) && Abs(n) <= limit && m <= limit
    ensures var g1, g2 := Gcd(a, d), Gcd(c, b);
            && 0 < g1 <= limit && 0 < g2 <= limit
            && Abs(TDiv(a, g1)) <= limit && Abs(TDiv(d, g1)) <= limit
            && Abs(TDiv(c, g2)) <= limit && Abs(TDiv(b, g2)) <= limit
            && Abs(TDiv(a, g1) * TDiv(c, g2)) <= limit
            && Abs(TDiv(b, g2) * TDiv(d, g1)) <= limit
  {
    var a', b', c', d' := CrossReduced(a, b, c, d);
    ProductInLowestTerms(a, b, c, d);
    NormalFormUnique(n, m, a' * c', b' * d');
    QuotientBound(Gcd(a, d), a, a');
    QuotientBound(Gcd(a, d), d, d');
    QuotientBound(Gcd(c, b), c, c');
    QuotientBound(Gcd(c, b), b, b');
  }

  lemma QuotientStaysInRange(a: int, b: int, c: int, d: int, n: int, m: int, limit: nat)
    requires Normal(a, b) && Normal(c, d) && a != 0 && c != 0
    requires Abs(a) <= limit && b <= limit && Abs(c) <= limit && d <= limit
    requires Value(c, d) != 0.0
    requires Normal(n, m) && Value(n, m) == Value(a, b) / Value(c, d) && Abs(n) <= limit && m <= limit
    ensures var g1, g2 := Gcd(a, c), Gcd(d, b);
            && 0 < g1 <= limit && 0 < g2 <= limit
            && Abs(TDiv(a, g1)) <= limit && Abs(TDiv(c, g1)) <= limit
            && Abs(TDiv(d, g2)) <= limit && Abs(TDiv(b, g2)) <= limit
            && Abs(TDiv(a, g1) * TDiv(d, g2)) <= limit
            && Abs(TDiv(b, g2) * TDiv(c, g1)) <= limit
  {
    CoprimeSymmetric(c, d);
    var a', b', d', c' := CrossReduced(a, b, d, c);
    QuotientInLowestTerms(a, b, c, d);
    var p, q := a' * d', b' * c';
    if q < 0 {
      NormalFormUnique(n, m, -p, -q);
    } else {
      NormalFormUnique(n, m, p, q);
    }
    QuotientBound(Gcd(a, c), a, a');
    QuotientBound(Gcd(a, c), c, c');
    QuotientBound(Gcd(d, b), d, d');
    QuotientBound(Gcd(d, b), b, b');
  }

  // ----- the range of addition and subtraction -----

  /** Every value that `operator+=` forms fits the range: the gcds, the quotients, the
      two products, their sum, and what is stored. */
  predicate SumFits(a: int, b: int, c: int, d: int, limit: nat)
    requires b > 0 && d > 0
  {
    var g := Gcd(b, d);
    var b1, d1 := TDiv(b, g), TDiv(d, g);
    var n := a * d1 + c * b1;
    var h := Gcd(n, g);
    && g <= limit && Abs(b1) <= limit && Abs(d1) <= limit
    && Abs(a * d1) <= limit && Abs(c * b1) <= limit && Abs(n) <= limit
    && h <= limit
    && Abs(TDiv(n, h)) <= limit && Abs(TDiv(d, h)) <= limit && Abs(b1 * TDiv(d, h)) <= limit
  }

  /** Every value that `operator-=` forms fits the range. */
  predicate DifferenceFits(a: int, b: int, c: int, d: int, limit: nat)
    requires b > 0 && d > 0
  {
    var g := Gcd(b, d);
    var b1, d1 := TDiv(b, g), TDiv(d, g);
    var n := a * d1 - c * b1;
    var h := Gcd(n, g);
    && g <= limit && Abs(b1) <= limit && Abs(d1) <= limit
    && Abs(a * d1) <= limit && Abs(c * b1) <= limit && Abs(n) <= limit
    && h <= limit
    && Abs(TDiv(n, h)) <= limit && Abs(TDiv(d, h)) <= limit && Abs(b1 * TDiv(d, h)) <= limit
  }

  lemma PositiveQuotient(g: int, a: int)
    requires g > 0 && a > 0 && Divides(g, a)
    ensures a / g > 0
  {
    var k :| a == g * k;
    DivideExactly(g, k);
    PositiveFactor(g, k);
  }

  /** What is left of a denominator after cancelling its gcd with another. */
  function Reduced(d: int, other: int): (k: int)
    requires d > 0 && other > 0
    ensures k > 0
  {
    GcdDivides(d, other);
    PositiveQuotient(Gcd(d, other), d);
    d / Gcd(d, other)
  }

  /** A condition on the operands that can be evaluated without leaving the range.
      `opposite` says that the two products are not both negative or both non-negative. */
  predicate ProductsFit(a: int, b: int, c: int, d: int, opposite: bool, limit: nat)
    requires b > 0 && d > 0
  {
    && Abs(a) <= limit / Reduced(d, b)
    && Abs(c) <= limit / Reduced(b, d)
    && (opposite || Abs(a) * Reduced(d, b) <= limit - Abs(c) * Reduced(b, d))
  }

  lemma ScaledAtMost(x: nat, y: nat, k: nat)
    requires x <= y
    ensures x * k <= y * k && (x + 1) * k == x * k + k
  {}

  lemma QuotientFits(x: nat, k: nat, limit: nat)
    requires k > 0
    ensures x <= limit / k <==> x * k <= limit
  {
    var q, r := limit / k, limit % k;
    DivMod(limit, k);
    if x <= q {
      ScaledAtMost(x, q, k);
    } else {
      ScaledAtMost(q + 1, x, k);
    }
  }

  lemma SameSigns(a: int, k: int)
    requires k > 0
    ensures a >= 0 ==> a * k >= 0
    ensures a < 0 ==> a * k < 0
  {}

  /** The sum of two products fits with them exactly when their signs differ or
      their magnitudes leave room. */
  lemma SumOfProducts(a: int, d1: int, c: int, b1: int, limit: nat)
    requires d1 > 0 && b1 > 0
    ensures Abs(a * d1) <= limit && Abs(c * b1) <= limit && Abs(a * d1 + c * b1) <= limit <==>
            && Abs(a) <= limit / d1
            && Abs(c) <= limit / b1
            && ((a < 0) != (c < 0) || Abs(a) * d1 <= limit - Abs(c) * b1)
  {
    AbsProduct(a, d1);
    AbsProduct(c, b1);
    QuotientFits(Abs(a), d1, limit);
    QuotientFits(Abs(c), b1, limit);
    SameSigns(a, d1);
    SameSigns(c, b1);
  }

  /** The values around the two products never leave the range by themselves. */
  lemma SumResultFits(a: int, b: int, c: int, d: int, x: int, y: int, limit: nat)
    requires Normal(a, b) && Normal(c, d) && b <= limit && d <= limit
    requires Normal(x, y) && Value(x, y) == Value(a, b) + Value(c, d) && Abs(x) <= limit && y <= limit
    ensures var g := Gcd(b, d);
            var b1, d1 := TDiv(b, g), TDiv(d, g);
            var n := a * d1 + c * b1;
            var h := Gcd(n, g);
            && g > 0 && b1 == b / g > 0 && d1 == d / g > 0
            && g <= limit && b1 <= limit && d1 <= limit && h <= limit
            && TDiv(n, h) == x && b1 * TDiv(d, h) == y && 0 < TDiv(d, h) <= limit
            && n == h * x && 0 < h && Divides(h, g)
  {
    hide Coprime, Value;
    var g := Gcd(b, d);
    var b1, d1 := GcdQuotients(b, d);
    TDivExact(g, b1);
    TDivExact(g, d1);
    DivideExactly(g, b1);
    DivideExactly(g, d1);
    PositiveFactor(g, b1);
    PositiveFactor(g, d1);
    QuotientBound(g, b, b1);
    QuotientBound(g, d, d1);
    var n := a * d1 + c * b1;
    var h := Gcd(n, g);
    var x', k := GcdQuotients(n, g);
    TDivExact(h, x');
    Associate(h, k, d1);
    TDivExact(h, k * d1);
    PositiveFactor(h, k * d1);
    QuotientBound(h, d, k * d1);
    QuotientBound(h, g, k);
    SumInLowestTerms(a, b, c, d);
    NormalFormUnique(x, y, x', b1 * TDiv(d, h));
  }

  /** Exactly when `+=` stays within a symmetric range that holds the operands and the
      exact result. */
  lemma SumStaysInRange(a: int, b: int, c: int, d: int, x: int, y: int, limit: nat)
    requires Normal(a, b) && Normal(c, d)
    requires Abs(a) <= limit && b <= limit && Abs(c) <= limit && d <= limit
    requires Normal(x, y) && Value(x, y) == Value(a, b) + Value(c, d) && Abs(x) <= limit && y <= limit
    ensures SumFits(a, b, c, d, limit) <==> ProductsFit(a, b, c, d, (a < 0) != (c < 0), limit)
  {
    hide Coprime, Value;
    SumResultFits(a, b, c, d, x, y, limit);
    GcdSymmetric(b, d);
    SumOfProducts(a, Reduced(d, b), c, Reduced(b, d), limit);
  }

  lemma DifferenceFitsAsSum(a: int, b: int, c: int, d: int, limit: nat)
    requires Normal(a, b) && Normal(c, d)
    ensures DifferenceFits(a, b, c, d, limit) <==> SumFits(a, b, -c, d, limit)
  {
    hide TDiv;
    SignFlip(c, TDiv(b, Gcd(b, d)));
  }

  lemma NegateFactor(x: real, y: real)
    ensures (-x) * y == -(x * y)
  {}

  lemma NegatedValue(n: int, d: int)
    requires d != 0
    ensures Value(-n, d) == -Value(n, d)
  {
    DivideBack(n as real, d as real);
    DivideBack((-n) as real, d as real);
    NegateFactor(Value(n, d), d as real);
    CancelReal(Value(-n, d), -Value(n, d), d as real);
  }

  /** Exactly when `-=` does. */
  lemma DifferenceStaysInRange(a: int, b: int, c: int, d: int, x: int, y: int, limit: nat)
    requires Normal(a, b) && Normal(c, d)
    requires Abs(a) <= limit && b <= limit && Abs(c) <= limit && d <= limit
    requires Normal(x, y) && Value(x, y) == Value(a, b) - Value(c, d) && Abs(x) <= limit && y <= limit
    ensures DifferenceFits(a, b, c, d, limit) <==> ProductsFit(a, b, c, d, (a < 0) != (c > 0), limit)
  {
    hide SumFits, DifferenceFits, Coprime;
    CoprimeNegate(c, d);
    NegatedValue(c, d);
    DifferenceFitsAsSum(a, b, c, d, limit);
    SumStaysInRange(a, b, -c, d, x, y, limit);
  }

  /** In every range [-limit, limit] with an odd limit from 3 on, the largest value of
      each two's complement type among them: limit/2 + limit/2 = limit/1 has operands
      and result in range, but the sum formed first is 2 limit. */
  lemma SumCanLeaveRange(limit: nat)
    requires limit >= 3 && limit % 2 == 1
    ensures Normal(limit, 2) && Normal(limit, 1)
    ensures Value(limit, 1) == Value(limit, 2) + Value(limit, 2)
    ensures !SumFits(limit, 2, limit, 2, limit)
  {
    CoprimeBy(limit, 2, 1, -(limit / 2));
    CoprimeBy(limit, 1, 0, 1);
    ValueOfSum(limit, 2, limit, 2);
    CrossProduct(limit, 1, limit * 2 + limit * 2, 2 * 2);
    assert Gcd(2, 2) == NatGcd(2, 0) == 2;
    assert TDiv(2, 2) == 1;
  }
}
