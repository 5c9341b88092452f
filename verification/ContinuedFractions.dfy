/** `rational::operator<`: ordering fractions by their continued fractions, without
    ever forming a cross product. */
module ContinuedFractions {

  import opened Divisibility

  /** The order the comparison must decide; only the specification multiplies. */
  predicate Below(n1: int, d1: int, n2: int, d2: int) {
    n1 * d2 < n2 * d1
  }

  function Max(x: nat, y: nat): (m: nat) {
    if x < y then y else x
  }

  /** A mixed fraction with a proper, non-negative remainder. */
  predicate Mixed(n: int, d: int, q: int, r: int) {
    n == q * d + r && 0 <= r < d
  }

  lemma MulMonotone(d: int, x: int, y: int)
    requires d > 0 && x <= y
    ensures x * d <= y * d
    ensures (x - 1) * d < x * d
  {}

  /** Different whole parts decide the order. */
  lemma QuotientsDecide(n1: int, d1: int, q1: int, r1: int, n2: int, d2: int, q2: int, r2: int)
    requires Mixed(n1, d1, q1, r1) && Mixed(n2, d2, q2, r2) && q1 < q2
    ensures Below(n1, d1, n2, d2) && !Below(n2, d2, n1, d1)
  {
    assert (q1 + 1) * d1 <= q2 * d1 by { MulMonotone(d1, q1 + 1, q2); }
    assert n1 < q2 * d1;
    assert n1 * d2 < (q2 * d1) * d2 by { MulMonotone(d2, n1 + 1, q2 * d1); }
    assert (q2 * d2) * d1 <= n2 * d1 by { MulMonotone(d1, q2 * d2, n2); }
    assert (q2 * d1) * d2 == (q2 * d2) * d1;
  }

  /** Equal whole parts: the order is that of the fractional parts, so the opposite
      of the order of their reciprocals. */
  lemma ReciprocateOrder(n1: int, d1: int, q: int, r1: int, n2: int, d2: int, r2: int)
    requires Mixed(n1, d1, q, r1) && Mixed(n2, d2, q, r2)
    ensures Below(n1, d1, n2, d2) <==> Below(d2, r2, d1, r1)
    ensures Below(n2, d2, n1, d1) <==> Below(d1, r1, d2, r2)
  {
    assert n1 * d2 == (q * d1) * d2 + r1 * d2;
    assert n2 * d1 == (q * d2) * d1 + r2 * d1;
    assert (q * d1) * d2 == (q * d2) * d1;
  }

  lemma TruncationParts(n: int, d: int) returns (p: nat, m: nat)
    requires d > 0
    ensures Abs(n) == d * p + m
    ensures TDiv(n, d) == if n < 0 then -(p as int) else p
    ensures TMod(n, d) == if n < 0 then -(m as int) else m
    ensures n == TDiv(n, d) * d + TMod(n, d)
  {
    p, m := Abs(n) / d, Abs(n) % d;
    DivMod(Abs(n), d);
    SignFlip(d, p);
  }

  lemma PartSize(a: nat, d: int, p: nat, m: nat)
    requires d > 0 && a == d * p + m
    ensures p <= a && (m > 0 ==> p < a)
  {
    assert p <= d * p;
  }

  lemma QuotientSize(n: int, d: int, q: int, r: int)
    requires d > 0 && q == TDiv(n, d) && r == TMod(n, d)
    ensures n == q * d + r && Abs(q) <= Abs(n)
    ensures r < 0 ==> q <= 0 && -q < Abs(n)
  {
    hide TDiv, TMod;
    var p, m := TruncationParts(n, d);
    PartSize(Abs(n), d, p, m);
  }

  /** Truncated quotient and remainder, then the fix-up of a negative remainder. The
      quotient never grows beyond the numerator. */
  method FloorDivide(n: int, d: int) returns (q: int, r: int)
    requires d > 0
    ensures Mixed(n, d, q, r) && Abs(q) <= Abs(n)
  {
    q, r := TDiv(n, d), TMod(n, d);
    TModBounds(n, d);
    QuotientSize(n, d, q, r);
    while r < 0
      invariant n == q * d + r && -d < r < d
      invariant Abs(q) <= Abs(n) && (r < 0 ==> q <= 0 && -q < Abs(n))
      decreases -r
    {
      assert (q - 1) * d == q * d - d;
      r := r + d;
      q := q - 1;
    }
  }

  /** When one expansion has ended, its remainder 0 against a positive one decides. */
  lemma ZeroRemainder(td: int, tr: int, rd: int, rr: int)
    requires td > 0 && rd > 0 && (tr == 0 || rr == 0)
    requires tr >= 0 && rr >= 0 && tr != rr
    ensures Below(rd, rr, td, tr) <==> tr == 0
    ensures Below(td, tr, rd, rr) <==> rr == 0
  {
    if tr == 0 {
      assert td * rr > 0;
    } else {
      assert rd * tr > 0;
    }
  }

  /** C++ `/` and `%` on a non-negative dividend and a positive divisor. */
  method NonNegativeDivide(n: nat, d: nat) returns (q: nat, r: nat)
    requires d > 0
    ensures Mixed(n, d, q, r) && q <= n
  {
    TModBounds(n, d);
    QuotientSize(n, d, TDiv(n, d), TMod(n, d));
    q, r := TDiv(n, d), TMod(n, d);
  }

  /** The comparison loop. `peak` is the largest magnitude any variable takes: it
      never exceeds the operands', so nothing overflows where cross products might. */
  method LessThan(n1: int, d1: int, n2: int, d2: int) returns (less: bool, ghost peak: nat)
    requires d1 > 0 && d2 > 0
    ensures less <==> Below(n1, d1, n2, d2)
    ensures peak <= Max(Max(Abs(n1), d1), Max(Abs(n2), d2))
  {
    var tn, td, rn, rd := n1, d1, n2, d2;
    var tq, tr := FloorDivide(tn, td);
    var rq, rr := FloorDivide(rn, rd);
    peak := Max(Max(Max(Abs(tn), td), Max(Abs(tq), tr)), Max(Max(Abs(rn), rd), Max(Abs(rq), rr)));
    ghost var limit: nat := peak;
    var reverse := false;
    while true
      invariant Mixed(tn, td, tq, tr) && Mixed(rn, rd, rq, rr)
      invariant Below(n1, d1, n2, d2) <==> if reverse then Below(rn, rd, tn, td) else Below(tn, td, rn, rd)
      invariant peak == limit && td <= limit && rd <= limit
      decreases td
    {
      if tq != rq {
        if tq < rq {
          QuotientsDecide(tn, td, tq, tr, rn, rd, rq, rr);
        } else {
          QuotientsDecide(rn, rd, rq, rr, tn, td, tq, tr);
        }
        less := if reverse then tq > rq else tq < rq;
        return;
      }
      ReciprocateOrder(tn, td, tq, tr, rn, rd, rr);
      reverse := !reverse;
      if tr == 0 || rr == 0 {
        break;
      }
      tn, td := td, tr;
      tq, tr := NonNegativeDivide(tn, td);
      rn, rd := rd, rr;
      rq, rr := NonNegativeDivide(rn, rd);
      peak := Max(peak, Max(Max(Max(tn, td), Max(tq, tr)), Max(Max(rn, rd), Max(rq, rr))));
    }
    if tr == rr {
      less := false;
    } else {
      less := (tr != 0) != reverse;
      ZeroRemainder(td, tr, rd, rr);
    }
  }

  /** `operator<` against an integer looks at the whole part only. */
  method LessThanInteger(n: int, d: int, i: int) returns (less: bool)
    requires d > 0
    ensures less <==> Below(n, d, i, 1)
  {
    var q, r := FloorDivide(n, d);
    less := q < i;
    if less {
      assert (q + 1) * d <= i * d by { MulMonotone(d, q + 1, i); }
    } else {
      assert i * d <= q * d by { MulMonotone(d, i, q); }
    }
  }
}
