/** Divisibility of integers: greatest common divisors, Bezout's identity and
    lowest terms. `Gcd` and `Lcm` are what the library's `integer::gcd` and
    `integer::lcm` return: non-negative for all arguments. */
module Divisibility {

  function Abs(x: int): (a: nat) {
    if x < 0 then -x else x
  }

  ghost predicate Divides(d: int, a: int) {
    exists k :: a == d * k
  }

  function NatGcd(a: nat, b: nat): (g: nat)
    ensures g == 0 <==> a == 0 && b == 0
    decreases b
  {
    if b == 0 then a else NatGcd(b, a % b)
  }

  function Gcd(a: int, b: int): (g: nat)
    ensures g == 0 <==> a == 0 && b == 0
  {
    NatGcd(Abs(a), Abs(b))
  }

  function Lcm(a: int, b: int): (m: nat) {
    if a == 0 || b == 0 then 0 else Abs(a * b) / Gcd(a, b)
  }

  predicate Coprime(a: int, b: int) {
    Gcd(a, b) == 1
  }

  /** C++ division and remainder: truncation toward zero. */
  function TDiv(a: int, b: int): (q: int)
    requires b != 0
  {
    if (a < 0) == (b < 0) then Abs(a) / Abs(b) else -(Abs(a) / Abs(b))
  }

  function TMod(a: int, b: int): (r: int)
    requires b != 0
  {
    a - b * TDiv(a, b)
  }

  // ----- rearranging products -----

  lemma Associate(x: int, y: int, z: int)
    ensures (x * y) * z == x * (y * z)
  {}

  lemma Distribute(x: int, y: int, z: int)
    ensures x * (y + z) == x * y + x * z
  {}

  lemma DistributeMinus(x: int, y: int, z: int)
    ensures x * (y - z) == x * y - x * z
  {}

  lemma SignFlip(x: int, y: int)
    ensures (-x) * (-y) == x * y && (-x) * y == -(x * y) && x * (-y) == -(x * y)
  {}

  lemma AbsProduct(x: int, y: int)
    ensures Abs(x * y) == Abs(x) * Abs(y)
  {
    if x >= 0 && y >= 0 {
    } else if x < 0 && y < 0 {
      assert x * y == (-x) * (-y);
    } else if x < 0 {
      assert x * y == -((-x) * y);
    } else {
      assert x * y == -(x * (-y));
    }
  }

  lemma ZeroProduct(x: int, y: int)
    requires x * y == 0
    ensures x == 0 || y == 0
  {}

  lemma Cancel(g: int, a: int, b: int)
    requires g != 0 && g * a == g * b
    ensures a == b
  {
    DistributeMinus(g, a, b);
    ZeroProduct(g, a - b);
  }

  // ----- Bezout -----

  lemma DivMod(a: nat, b: nat)
    requires b > 0
    ensures a == b * (a / b) + a % b
  {}

  lemma BezoutStep(a: int, b: int, q: int, r: int, u: int, v: int)
    requires a == b * q + r
    ensures a * v + b * (u - q * v) == b * u + r * v
  {
    Associate(b, q, v);
    DistributeMinus(b, u, q * v);
    Distribute(v, b * q, r);
  }

  lemma QuotientStep(a: int, b: int, q: int, r: int, g: int, x: int, y: int)
    requires a == b * q + r && b == g * x && r == g * y
    ensures a == g * (x * q + y)
  {
    Associate(g, x, q);
    Distribute(g, x * q, y);
  }

  /** The gcd as an integer combination, and as a common divisor. */
  lemma {:induction false} NatBezout(a: nat, b: nat) returns (u: int, v: int, x: nat, y: nat)
    ensures var g := NatGcd(a, b);
            && a * u + b * v == g
            && a == g * x && b == g * y
    decreases b
  {
    if b == 0 {
      u, v, x, y := 1, 0, 1, 0;
    } else {
      var q, r := a / b, a % b;
      DivMod(a, b);
      var u', v', x', y' := NatBezout(b, r);
      u, v := v', u' - q * v';
      x, y := x' * q + y', x';
      BezoutStep(a, b, q, r, u', v');
      QuotientStep(a, b, q, r, NatGcd(b, r), x', y');
    }
  }

  lemma Bezout(a: int, b: int) returns (u: int, v: int, x: int, y: int)
    ensures var g := Gcd(a, b);
            && a * u + b * v == g
            && a == g * x && b == g * y
  {
    var u', v', x': int, y': int := NatBezout(Abs(a), Abs(b));
    u := if a < 0 then -u' else u';
    v := if b < 0 then -v' else v';
    x := if a < 0 then -x' else x';
    y := if b < 0 then -y' else y';
    SignFlip(Abs(a), u');
    SignFlip(Abs(b), v');
    SignFlip(Gcd(a, b), x');
    SignFlip(Gcd(a, b), y');
  }

  lemma GcdDivides(a: int, b: int)
    ensures Divides(Gcd(a, b), a) && Divides(Gcd(a, b), b)
  {
    var u, v, x, y := Bezout(a, b);
  }

  lemma DividesSum(d: int, a: int, b: int, u: int, v: int)
    requires Divides(d, a) && Divides(d, b)
    ensures Divides(d, a * u + b * v)
  {
    var k :| a == d * k;
    var l :| b == d * l;
    Associate(d, k, u);
    Associate(d, l, v);
    Distribute(d, k * u, l * v);
  }

  lemma GcdGreatest(a: int, b: int, d: int)
    requires Divides(d, a) && Divides(d, b)
    ensures Divides(d, Gcd(a, b))
  {
    var u, v, x, y := Bezout(a, b);
    DividesSum(d, a, b, u, v);
  }

  lemma AtLeastFactor(d: nat, k: nat)
    requires d * k != 0
    ensures 0 < d <= d * k
  {}

  lemma DivisorBound(d: int, a: int)
    requires Divides(d, a) && a != 0
    ensures d != 0 && Abs(d) <= Abs(a)
  {
    var k :| a == d * k;
    AbsProduct(d, k);
    AtLeastFactor(Abs(d), Abs(k));
  }

  lemma DividesEachOther(a: nat, b: nat)
    requires Divides(a, b) && Divides(b, a)
    ensures a == b
  {
    if a != 0 {
      DivisorBound(b, a);
      DivisorBound(a, b);
    } else {
      var k :| b == a * k;
    }
  }

  lemma GcdSymmetric(a: int, b: int)
    ensures Gcd(a, b) == Gcd(b, a)
  {
    GcdDivides(a, b);
    GcdDivides(b, a);
    GcdGreatest(a, b, Gcd(b, a));
    GcdGreatest(b, a, Gcd(a, b));
    DividesEachOther(Gcd(a, b), Gcd(b, a));
  }

  // ----- coprime numbers -----

  /** A combination equal to 1 is the whole proof of coprimality. */
  lemma CoprimeBy(a: int, b: int, u: int, v: int)
    requires a * u + b * v == 1
    ensures Coprime(a, b)
  {
    GcdDivides(a, b);
    DividesSum(Gcd(a, b), a, b, u, v);
    DivisorBound(Gcd(a, b), 1);
  }

  lemma CoprimeSymmetric(a: int, b: int)
    requires Coprime(a, b)
    ensures Coprime(b, a)
  {
    GcdSymmetric(a, b);
  }

  lemma ExpandProduct(a: int, b: int, c: int, u: int, v: int, s: int, t: int)
    ensures (a * u + b * v) * (a * s + c * t) ==
            a * (u * a * s + u * c * t + b * v * s) + (b * c) * (v * t)
  {}

  lemma CombineUnits(a: int, b: int, c: int, u: int, v: int, s: int, t: int) returns (w: int, z: int)
    requires a * u + b * v == 1 && a * s + c * t == 1
    ensures a * w + (b * c) * z == 1
  {
    w, z := u * a * s + u * c * t + b * v * s, v * t;
    ExpandProduct(a, b, c, u, v, s, t);
    var m, n := a * u + b * v, a * s + c * t;
    assert m * n == 1;
  }

  lemma CoprimeCombination(a: int, b: int) returns (u: int, v: int)
    requires Coprime(a, b)
    ensures a * u + b * v == 1
  {
    var x, y;
    u, v, x, y := Bezout(a, b);
  }

  lemma CoprimeProduct(a: int, b: int, c: int)
    requires Coprime(a, b) && Coprime(a, c)
    ensures Coprime(a, b * c)
  {
    var u, v := CoprimeCombination(a, b);
    var s, t := CoprimeCombination(a, c);
    var w, z := CombineUnits(a, b, c, u, v, s, t);
    CoprimeBy(a, b * c, w, z);
  }

  lemma CoprimeDivisors(a: int, b: int, c: int, d: int)
    requires Coprime(a, b) && Divides(c, a) && Divides(d, b)
    ensures Coprime(c, d)
  {
    var u, v, _, _ := Bezout(a, b);
    var k :| a == c * k;
    var l :| b == d * l;
    Associate(c, k, u);
    Associate(d, l, v);
    CoprimeBy(c, d, k * u, l * v);
  }

  lemma CoprimeShift(a: int, b: int, k: int)
    requires Coprime(a, b)
    ensures Coprime(a + k * b, b)
  {
    var u, v, _, _ := Bezout(a, b);
    var w := v - k * u;
    assert (a + k * b) * u + b * w == a * u + b * v by {
      DistributeMinus(b, v, k * u);
      Distribute(u, a, k * b);
      Associate(b, k, u);
    }
    CoprimeBy(a + k * b, b, u, w);
  }

  lemma CoprimeNegate(a: int, b: int)
    requires Coprime(a, b)
    ensures Coprime(-a, b) && Coprime(a, -b) && Coprime(-a, -b)
  {}

  /** Dividing both numbers by their gcd leaves coprime numbers. */
  lemma GcdQuotients(a: int, b: int) returns (x: int, y: int)
    requires a != 0 || b != 0
    ensures a == Gcd(a, b) * x && b == Gcd(a, b) * y && Coprime(x, y)
  {
    var u, v;
    u, v, x, y := Bezout(a, b);
    var g := Gcd(a, b);
    Associate(g, x, u);
    Associate(g, y, v);
    Distribute(g, x * u, y * v);
    Cancel(g, x * u + y * v, 1);
    CoprimeBy(x, y, u, v);
  }

  lemma EuclidExpansion(a: int, b: int, c: int, u: int, v: int)
    requires a * u + b * v == 1
    ensures c == a * (c * u) + (b * c) * v
  {
    Distribute(c, a * u, b * v);
    Associate(a, u, c);
    Associate(b, c, v);
    Associate(b, v, c);
  }

  /** Euclid's lemma. */
  lemma EuclidLemma(a: int, b: int, c: int)
    requires Coprime(a, b) && Divides(a, b * c)
    ensures Divides(a, c)
  {
    var u, v, _, _ := Bezout(a, b);
    var k :| b * c == a * k;
    assert c == a * (c * u + k * v) by {
      EuclidExpansion(a, b, c, u, v);
      Associate(a, k, v);
      Distribute(a, c * u, k * v);
    }
  }

  // ----- least common multiples -----

  lemma CrossFactors(a: int, b: int, g: int, p: int, q: int)
    requires a == g * p && b == g * q
    ensures a * b == g * (p * b) && p * b == a * q && p * b == b * p
    ensures a != 0 ==> p != 0
  {
    Associate(g, p, b);
    Associate(p, g, q);
  }

  lemma NonZeroProduct(x: int, y: int)
    requires x != 0 && y != 0
    ensures x * y != 0
  {}

  lemma MultipleBounds(g: int, k: int)
    requires g >= 0
    ensures k >= 1 ==> g * k >= g
    ensures k <= -1 ==> g * k <= -g
  {}

  lemma SmallMultiple(g: int, k: int)
    requires 0 <= g * k < g
    ensures k == 0
  {
    MultipleBounds(g, k);
  }

  lemma DivideExactly(g: int, m: int)
    requires g > 0
    ensures g * m / g == m
  {
    var q, r := g * m / g, g * m % g;
    assert g * m == g * q + r;
    DistributeMinus(g, m, q);
    SmallMultiple(g, m - q);
  }

  lemma LcmIsMultiple(a: int, b: int) returns (x: int, y: int)
    requires a != 0 && b != 0
    ensures Lcm(a, b) > 0 && Lcm(a, b) * Gcd(a, b) == Abs(a * b)
    ensures Lcm(a, b) == a * x && Lcm(a, b) == b * y
  {
    var _, _, p, q := Bezout(a, b);
    var g := Gcd(a, b);
    CrossFactors(a, b, g, p, q);
    AbsProduct(g, p * b);
    DivideExactly(g, Abs(p * b));
    NonZeroProduct(p, b);
    if p * b < 0 {
      x, y := -q, -p;
      SignFlip(a, q);
      SignFlip(b, p);
    } else {
      x, y := q, p;
    }
  }

  lemma LcmExpansion(a: int, b: int, u: int, v: int, k: int, l: int, m: int)
    requires m == a * k && m == b * l
    ensures (a * u + b * v) * m == (a * b) * (l * u + k * v)
  {
    Distribute(m, a * u, b * v);
    Distribute(a * b, l * u, k * v);
    assert (a * u) * (b * l) == (a * b) * (l * u);
    assert (b * v) * (a * k) == (a * b) * (k * v);
  }

  lemma LcmLeast(a: int, b: int, m: int)
    requires a != 0 && b != 0 && Divides(a, m) && Divides(b, m)
    ensures Divides(Lcm(a, b), m)
  {
    var u, v, p, q := Bezout(a, b);
    var x, y := LcmIsMultiple(a, b);
    var k :| m == a * k;
    var l :| m == b * l;
    var g, c, n := Gcd(a, b), Lcm(a, b), l * u + k * v;
    assert g * m == (a * b) * n by {
      LcmExpansion(a, b, u, v, k, l, m);
    }
    var s := if a * b < 0 then -n else n;
    assert (a * b) * n == Abs(a * b) * s;
    Associate(g, c, s);
    Cancel(g, m, c * s);
  }

  // ----- truncated division -----

  lemma SignOfProduct(b: int, k: int)
    requires b != 0
    ensures k != 0 ==> (b * k < 0) == ((b < 0) != (k < 0))
    ensures k == 0 ==> b * k == 0
  {}

  /** Where the divisor divides, truncation is exact. */
  lemma TDivExact(b: int, k: int)
    requires b != 0
    ensures TDiv(b * k, b) == k
  {
    AbsProduct(b, k);
    DivideExactly(Abs(b), Abs(k));
    SignOfProduct(b, k);
  }

  /** The truncated remainder is smaller than the divisor and has the sign of the dividend. */
  lemma TModBounds(a: int, b: int)
    requires b != 0
    ensures Abs(TMod(a, b)) < Abs(b)
    ensures a >= 0 ==> TMod(a, b) >= 0
    ensures a <= 0 ==> TMod(a, b) <= 0
    ensures Abs(TMod(a, b)) == Abs(a) % Abs(b)
  {
    DivMod(Abs(a), Abs(b));
    SignFlip(Abs(b), Abs(a) / Abs(b));
  }

  lemma DivisionUnique(x: int, p: int, q: int, r: int)
    requires p > 0 && x == p * q + r && 0 <= r < p
    ensures x / p == q && x % p == r
  {
    var q', r' := x / p, x % p;
    assert x == p * q' + r';
    DistributeMinus(p, q, q');
    MultipleBounds(p, q - q');
  }

  /** Both remainders lie on one side of zero, so they cannot differ by a multiple. */
  lemma SameRemainder(b: int, k: int, r: int, r': int)
    requires b != 0 && b * k == r - r' && Abs(r) < Abs(b) && Abs(r') < Abs(b)
    requires (r >= 0 && r' >= 0) || (r <= 0 && r' <= 0)
    ensures k == 0 && r == r'
  {
    AbsProduct(b, k);
    MultipleBounds(Abs(b), Abs(k));
  }

  lemma TruncationIsDivision(a: int, b: int)
    requires b != 0
    ensures a == TDiv(a, b) * b + TMod(a, b)
  {
    DivMod(Abs(a), Abs(b));
    SignFlip(Abs(a) / Abs(b), Abs(b));
  }

  /** C++ division: the only quotient and remainder for which the remainder is smaller
      than the divisor and has the sign of the dividend. */
  lemma TruncatedDivision(a: int, b: int, q: int, r: int)
    requires b != 0
    ensures q == TDiv(a, b) && r == TMod(a, b) <==>
            a == q * b + r && Abs(r) < Abs(b) && (a >= 0 ==> r >= 0) && (a <= 0 ==> r <= 0)
  {
    hide TDiv, TMod;
    TModBounds(a, b);
    TruncationIsDivision(a, b);
    if a == q * b + r && Abs(r) < Abs(b) && (a >= 0 ==> r >= 0) && (a <= 0 ==> r <= 0) {
      DistributeMinus(b, TDiv(a, b), q);
      SameRemainder(b, TDiv(a, b) - q, r, TMod(a, b));
    }
  }
}
