/** `gcd_evaluator` and `lcm_evaluator` for rationals: greatest common divisors and
    least common multiples in the sense of integer multiples of fractions. */
module RationalGcd {

  import opened Divisibility
  import opened LowestTerms
  import opened RationalNumber

  /** n/d is k times p/q. */
  ghost predicate Times(n: int, d: int, k: int, p: int, q: int)
    requires d != 0 && q != 0
  {
    Value(n, d) == k as real * Value(p, q)
  }

  /** n/d is an integer multiple of p/q. */
  ghost predicate MultipleOf(n: int, d: int, p: int, q: int)
    requires d != 0 && q != 0
  {
    exists k: int :: Times(n, d, k, p, q)
  }

  lemma ScaledValue(k: int, p: int, q: int)
    requires q != 0
    ensures Value(k * p, q) == k as real * Value(p, q)
  {
    ValueOfProduct(k, 1, p, q);
    DivideBack(k as real, 1.0);
  }

  lemma TimesIsCrossProduct(n: int, d: int, k: int, p: int, q: int)
    requires d != 0 && q != 0
    ensures Times(n, d, k, p, q) <==> n * q == k * (p * d)
  {
    ScaledValue(k, p, q);
    CrossProduct(n, d, k * p, q);
    Associate(k, p, d);
  }

  lemma Exchange(g: int, x: int, l: int, y: int)
    ensures (g * x) * (l * y) == (x * y) * (g * l)
  {}

  lemma MultipleByFactors(g: int, l: int, x: int, y: int)
    requires l != 0 && l * y != 0
    ensures MultipleOf(g * x, l, g, l * y)
  {
    Exchange(g, x, l, y);
    TimesIsCrossProduct(g * x, l, x * y, g, l * y);
  }

  lemma DividesFirstFactor(m: int, a: int, b: int, c: int)
    requires m == a * (b * c)
    ensures Divides(b, m) && Divides(c, m)
  {
    assert m == b * (a * c);
    assert m == c * (a * b);
  }

  /** In lowest terms, "multiple of p/q" splits into two divisibilities. */
  lemma MultipleSplits(n: int, d: int, p: int, q: int)
    requires Normal(n, d) && Normal(p, q) && MultipleOf(n, d, p, q)
    ensures Divides(p, n) && Divides(d, q)
  {
    var k :| Times(n, d, k, p, q);
    TimesIsCrossProduct(n, d, k, p, q);
    DividesFirstFactor(n * q, k, p, d);
    CoprimeSymmetric(n, d);
    assert n * q == q * n;
    EuclidLemma(p, q, n);
    EuclidLemma(d, n, q);
  }

  lemma Cofactor(d: int, a: int) returns (k: int)
    requires Divides(d, a)
    ensures a == d * k
  {
    k :| a == d * k;
  }

  lemma DividesItself(a: int)
    ensures Divides(a, a)
  {
    assert a == a * 1;
  }

  lemma DividesProduct(a: int, b: int)
    ensures Divides(a, a * b) && Divides(b, a * b)
  {
    assert a * b == b * a;
  }

  lemma GcdResultNormal(n1: int, d1: int, n2: int, d2: int)
    requires Normal(n1, d1) && Normal(n2, d2)
    ensures Normal(Gcd(n1, n2), Lcm(d1, d2))
  {
    var g, l := Gcd(n1, n2), Lcm(d1, d2);
    var _, _ := LcmIsMultiple(d1, d2);
    GcdDivides(n1, n2);
    DividesItself(d1);
    DividesItself(d2);
    DividesItself(g);
    CoprimeDivisors(n1, d1, g, d1);
    CoprimeDivisors(n2, d2, g, d2);
    CoprimeProduct(g, d1, d2);
    DividesProduct(d1, d2);
    LcmLeast(d1, d2, d1 * d2);
    CoprimeDivisors(g, d1 * d2, g, l);
  }

  /** gcd(n1, n2) / lcm(d1, d2) is already in lowest terms, both arguments are
      integer multiples of it, and so is it of every fraction with that property. */
  lemma GcdEvaluator(n1: int, d1: int, n2: int, d2: int)
    requires Normal(n1, d1) && Normal(n2, d2)
    ensures var g, l := Gcd(n1, n2), Lcm(d1, d2);
            && Normal(g, l)
            && MultipleOf(n1, d1, g, l) && MultipleOf(n2, d2, g, l)
            && forall p, q :: Normal(p, q) && MultipleOf(n1, d1, p, q) && MultipleOf(n2, d2, p, q) ==>
                 MultipleOf(g, l, p, q)
  {
    var g, l := Gcd(n1, n2), Lcm(d1, d2);
    GcdResultNormal(n1, d1, n2, d2);
    var _, _, x1, x2 := Bezout(n1, n2);
    var y1, y2 := LcmIsMultiple(d1, d2);
    MultipleByFactors(g, d1, x1, y1);
    MultipleByFactors(g, d2, x2, y2);
    forall p, q | Normal(p, q) && MultipleOf(n1, d1, p, q) && MultipleOf(n2, d2, p, q)
      ensures MultipleOf(g, l, p, q)
    {
      MultipleSplits(n1, d1, p, q);
      MultipleSplits(n2, d2, p, q);
      GcdGreatest(n1, n2, p);
      LcmLeast(d1, d2, q);
      var s := Cofactor(p, g);
      var t := Cofactor(l, q);
      MultipleByFactors(p, l, s, t);
    }
  }

  lemma LcmDividesProduct(a: int, b: int)
    ensures Divides(Lcm(a, b), a * b)
  {
    if a == 0 || b == 0 {
      assert a * b == 0 * 0;
    } else {
      DividesProduct(a, b);
      LcmLeast(a, b, a * b);
    }
  }

  lemma LcmResultNormal(n1: int, d1: int, n2: int, d2: int)
    requires Normal(n1, d1) && Normal(n2, d2)
    ensures Normal(Lcm(n1, n2), Gcd(d1, d2))
  {
    var m, g := Lcm(n1, n2), Gcd(d1, d2);
    GcdDivides(d1, d2);
    DividesItself(n1);
    DividesItself(n2);
    DividesItself(g);
    CoprimeDivisors(n1, d1, n1, g);
    CoprimeDivisors(n2, d2, n2, g);
    CoprimeSymmetric(n1, g);
    CoprimeSymmetric(n2, g);
    CoprimeProduct(g, n1, n2);
    LcmDividesProduct(n1, n2);
    CoprimeDivisors(g, n1 * n2, g, m);
    CoprimeSymmetric(g, m);
  }

  /** A multiple of both, zero included, is a multiple of `Lcm`. */
  lemma LcmDividesMultiples(a: int, b: int, m: int)
    requires Divides(a, m) && Divides(b, m)
    ensures Divides(Lcm(a, b), m)
  {
    if a == 0 || b == 0 {
      assert m == 0;
      assert m == Lcm(a, b) * 0;
    } else {
      LcmLeast(a, b, m);
    }
  }

  lemma DividesLcm(a: int, b: int) returns (x: int, y: int)
    ensures Lcm(a, b) == a * x && Lcm(a, b) == b * y
  {
    if a == 0 || b == 0 {
      x, y := 0, 0;
    } else {
      x, y := LcmIsMultiple(a, b);
    }
  }

  /** Dually for lcm(n1, n2) / gcd(d1, d2), which divides every common multiple. */
  lemma LcmEvaluator(n1: int, d1: int, n2: int, d2: int)
    requires Normal(n1, d1) && Normal(n2, d2)
    ensures var m, g := Lcm(n1, n2), Gcd(d1, d2);
            && Normal(m, g)
            && MultipleOf(m, g, n1, d1) && MultipleOf(m, g, n2, d2)
            && forall p, q :: Normal(p, q) && MultipleOf(p, q, n1, d1) && MultipleOf(p, q, n2, d2) ==>
                 MultipleOf(p, q, m, g)
  {
    var m, g := Lcm(n1, n2), Gcd(d1, d2);
    LcmResultNormal(n1, d1, n2, d2);
    var x1, x2 := DividesLcm(n1, n2);
    var _, _, y1, y2 := Bezout(d1, d2);
    MultipleByFactors(n1, g, x1, y1);
    MultipleByFactors(n2, g, x2, y2);
    forall p, q | Normal(p, q) && MultipleOf(p, q, n1, d1) && MultipleOf(p, q, n2, d2)
      ensures MultipleOf(p, q, m, g)
    {
      MultipleSplits(p, q, n1, d1);
      MultipleSplits(p, q, n2, d2);
      LcmDividesMultiples(n1, n2, p);
      GcdGreatest(d1, d2, q);
      var s := Cofactor(m, p);
      var t := Cofactor(q, g);
      MultipleByFactors(m, q, s, t);
    }
  }

  /** The evaluators construct their result, which normalizes it: to itself. */
  method EvaluateGcd(a: Rational, b: Rational) returns (r: Rational)
    requires a.Valid() && b.Valid()
    ensures fresh(r) && r.Valid() && r.num == Gcd(a.num, b.num) && r.den == Lcm(a.den, b.den)
  {
    GcdResultNormal(a.num, a.den, b.num, b.den);
    var made := Rational.Make(Gcd(a.num, b.num), Lcm(a.den, b.den));
    r := made;
    NormalFormUnique(r.num, r.den, Gcd(a.num, b.num), Lcm(a.den, b.den));
  }

  method EvaluateLcm(a: Rational, b: Rational) returns (r: Rational)
    requires a.Valid() && b.Valid()
    ensures fresh(r) && r.Valid() && r.num == Lcm(a.num, b.num) && r.den == Gcd(a.den, b.den)
  {
    LcmResultNormal(a.num, a.den, b.num, b.den);
    var made := Rational.Make(Lcm(a.num, b.num), Gcd(a.den, b.den));
    r := made;
    NormalFormUnique(r.num, r.den, Lcm(a.num, b.num), Gcd(a.den, b.den));
  }
}
