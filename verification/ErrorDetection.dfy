/** What the bitwise division detects: the reason a CRC is computed at all. */
module ErrorDetection {

  import opened Words
  import opened PolynomialDivision

  /** The two streams agree everywhere outside `width` positions from `from`. */
  predicate DifferWithin(a: Word, b: Word, from: nat, width: nat)
    requires |a| == |b|
  {
    forall i :: 0 <= i < |a| && !(from <= i < from + width) ==> a[i] == b[i]
  }

  /** No burst of at most B bits goes unnoticed, whatever the register held before. */
  ghost predicate DetectsBursts(p: Word)
    requires |p| > 0
  {
    forall r: Word, a: Word, b: Word, from: nat ::
      |r| == |p| && |a| == |b| && a != b && DifferWithin(a, b, from, |p|) ==>
        Run(r, p, a) != Run(r, p, b)
  }

  // ----- shifting in a zero bit loses nothing when the constant coefficient is 1 -----

  lemma NonZeroBit(w: Word) returns (i: nat)
    requires w != Zeros(|w|)
    ensures i < |w| && w[i]
  {
    i :| 0 <= i < |w| && w[i] != Zeros(|w|)[i];
  }

  lemma ZeroStepInvertible(r: Word, p: Word)
    requires |r| == |p| > 0 && p[|p| - 1]
    requires r != Zeros(|p|)
    ensures Step(r, p, false) != Zeros(|p|)
  {
    var i := NonZeroBit(r);
    var s := Step(r, p, false);
    assert s[|p| - 1] == r[0];
    assert !r[0] && i > 0 ==> s[i - 1] == r[i];
  }

  lemma {:induction false} ZeroRunInvertible(r: Word, p: Word, n: nat)
    requires |r| == |p| > 0 && p[|p| - 1]
    requires r != Zeros(|p|)
    ensures Run(r, p, Zeros(n)) != Zeros(|p|)
    decreases n
  {
    if n > 0 {
      assert Zeros(n)[1..] == Zeros(n - 1);
      ZeroStepInvertible(r, p);
      ZeroRunInvertible(Step(r, p, false), p, n - 1);
    }
  }

  lemma RunOfZeros(p: Word, n: nat)
    requires |p| > 0
    ensures Run(Zeros(|p|), p, Zeros(n)) == Zeros(|p|)
  {
    hide Run, Rem;
    RunFromZero(p, Zeros(n));
    assert Zeros(n) + Zeros(|p|) == Zeros(n + |p|);
    RemZeros(n + |p|, p);
  }

  /** An error pattern that is one burst leaves a non-zero remainder. */
  lemma BurstLeavesRemainder(p: Word, lead: nat, w: Word, trail: nat)
    requires |p| > 0 && p[|p| - 1]
    requires |w| <= |p| && w != Zeros(|w|)
    ensures Run(Zeros(|p|), p, Zeros(lead) + w + Zeros(trail)) != Zeros(|p|)
  {
    var z := Zeros(|p|);
    var r := Xor(z, w + Zeros(|p| - |w|));
    RunConcat(z, p, Zeros(lead) + w, Zeros(trail));
    RunConcat(z, p, Zeros(lead), w);
    RunOfZeros(p, lead);
    Absorb(z, p, w);
    var i := NonZeroBit(w);
    assert r[i];
    ZeroRunInvertible(r, p, |w|);
    ZeroRunInvertible(Run(r, p, Zeros(|w|)), p, trail);
  }

  lemma DifferenceRemainder(r: Word, p: Word, a: Word, b: Word)
    requires |r| == |p| > 0 && |a| == |b|
    ensures Run(r, p, a) == Run(r, p, b) <==> Run(Zeros(|p|), p, Xor(a, b)) == Zeros(|p|)
  {
    RunLinear(r, r, p, a, b);
    XorSelf(r);
    XorZeroIff(Run(r, p, a), Run(r, p, b));
  }

  /** The error pattern of a burst, cut out of the zeros around it. */
  lemma ErrorPattern(a: Word, b: Word, from: nat, width: nat) returns (lead: nat, w: Word, trail: nat)
    requires |a| == |b| && a != b && DifferWithin(a, b, from, width)
    ensures Xor(a, b) == Zeros(lead) + w + Zeros(trail)
    ensures |w| <= width && w != Zeros(|w|)
  {
    var k :| 0 <= k < |a| && a[k] != b[k];
    lead := from;
    var end := if from + width <= |a| then from + width else |a|;
    trail := |a| - end;
    var e := Xor(a, b);
    w := e[lead..end];
    assert w[k - lead];
  }

  lemma BurstDetected(r: Word, p: Word, a: Word, b: Word, from: nat)
    requires |r| == |p| > 0 && p[|p| - 1]
    requires |a| == |b| && a != b && DifferWithin(a, b, from, |p|)
    ensures Run(r, p, a) != Run(r, p, b)
  {
    var lead, w, trail := ErrorPattern(a, b, from, |p|);
    BurstLeavesRemainder(p, lead, w, trail);
    DifferenceRemainder(r, p, a, b);
  }

  /** When the constant coefficient is 0, this B-bit burst is invisible. */
  function BlindBurst(p: Word): (e: Word)
    requires |p| > 0
    ensures |e| == |p|
  {
    [true] + p[..|p| - 1]
  }

  lemma BlindBurstStep(p: Word)
    requires |p| > 0 && !p[|p| - 1]
    ensures Step(BlindBurst(p), p, false) == Zeros(|p|)
  {
    assert BlindBurst(p)[1..] + [false] == p;
    XorSelf(p);
  }

  lemma BlindBurstRunsToZero(p: Word)
    requires |p| > 0 && !p[|p| - 1]
    ensures Run(BlindBurst(p), p, Zeros(|p|)) == Zeros(|p|)
  {
    hide Run, Step;
    BlindBurstStep(p);
    RunOfZeros(p, |p| - 1);
    RunCons(BlindBurst(p), p, false, Zeros(|p| - 1));
    assert [false] + Zeros(|p| - 1) == Zeros(|p|);
  }

  lemma BlindBurstUndetected(r: Word, p: Word)
    requires |r| == |p| > 0 && !p[|p| - 1]
    ensures Run(r, p, BlindBurst(p)) == Run(r, p, Zeros(|p|))
  {
    var z, e := Zeros(|p|), BlindBurst(p);
    assert Run(z, p, e) == z by {
      hide Run;
      Absorb(z, p, e);
      assert Xor(z, e + Zeros(0)) == e;
      BlindBurstRunsToZero(p);
    }
    XorZeros(e);
    DifferenceRemainder(r, p, e, z);
  }

  /** Every burst of at most B bits is detected exactly when the low bit of the
      truncated polynomial is set. */
  lemma BurstDetectionCriterion(p: Word)
    requires |p| > 0
    ensures DetectsBursts(p) <==> p[|p| - 1]
  {
    if p[|p| - 1] {
      forall r: Word, a: Word, b: Word, from: nat
        | |r| == |p| && |a| == |b| && a != b && DifferWithin(a, b, from, |p|)
        ensures Run(r, p, a) != Run(r, p, b)
      {
        BurstDetected(r, p, a, b, from);
      }
    } else {
      var z, e := Zeros(|p|), BlindBurst(p);
      BlindBurstUndetected(z, p);
      assert e[0] && !z[0];
      assert DifferWithin(e, z, 0, |p|);
    }
  }

  // ----- errors in an odd number of positions -----

  function Parity(w: Word): bool {
    if w == [] then false else w[0] != Parity(w[1..])
  }

  lemma {:induction false} ParityConcat(a: Word, b: Word)
    ensures Parity(a + b) == (Parity(a) != Parity(b))
  {
    if a == [] {
      assert a + b == b;
    } else {
      ParityConcat(a[1..], b);
      assert (a + b)[1..] == a[1..] + b;
    }
  }

  lemma {:induction false} ParityXor(a: Word, b: Word)
    requires |a| == |b|
    ensures Parity(Xor(a, b)) == (Parity(a) != Parity(b))
  {
    if a != [] {
      ParityXor(a[1..], b[1..]);
      assert Xor(a, b)[1..] == Xor(a[1..], b[1..]);
    }
  }

  lemma {:induction false} ParityZeros(n: nat)
    ensures !Parity(Zeros(n))
  {
    if n > 0 {
      assert Zeros(n)[1..] == Zeros(n - 1);
      ParityZeros(n - 1);
    }
  }

  /** When x + 1 divides x^B + p, the register carries the parity of everything fed. */
  lemma {:induction false} RunKeepsParity(r: Word, p: Word, bits: Word)
    requires |r| == |p| > 0 && Parity(p)
    ensures Parity(Run(r, p, bits)) == (Parity(r) != Parity(bits))
    decreases |bits|
  {
    if bits != [] {
      var s := r[1..] + [false];
      ParityConcat(r[1..], [false]);
      assert Parity([false]) == false;
      ParityXor(s, p);
      RunKeepsParity(Step(r, p, bits[0]), p, bits[1..]);
    }
  }

  ghost predicate DetectsOddErrors(p: Word)
    requires |p| > 0
  {
    forall r: Word, a: Word, b: Word ::
      |r| == |p| && |a| == |b| && Parity(Xor(a, b)) ==> Run(r, p, a) != Run(r, p, b)
  }

  lemma OddErrorDetected(r: Word, p: Word, a: Word, b: Word)
    requires |r| == |p| > 0 && Parity(p)
    requires |a| == |b| && Parity(Xor(a, b))
    ensures Run(r, p, a) != Run(r, p, b)
  {
    RunKeepsParity(r, p, a);
    RunKeepsParity(r, p, b);
    ParityXor(a, b);
  }

  /** The divisor itself, as an error pattern, is a multiple of the divisor. */
  lemma DivisorUndetected(p: Word)
    requires |p| > 0
    ensures Run(Zeros(|p|), p, Divisor(p)) == Zeros(|p|)
  {
    hide Run;
    var z := Zeros(|p|);
    assert Step(z, p, true) == p;
    RunCons(z, p, true, p);
    Absorb(p, p, p);
    assert p + Zeros(0) == p;
    XorSelf(p);
    RunOfZeros(p, |p|);
  }

  /** Every error in an odd number of positions is detected exactly when p has an
      odd number of ones. */
  lemma OddErrorCriterion(p: Word)
    requires |p| > 0
    ensures DetectsOddErrors(p) <==> Parity(p)
  {
    if Parity(p) {
      forall r: Word, a: Word, b: Word | |r| == |p| && |a| == |b| && Parity(Xor(a, b))
        ensures Run(r, p, a) != Run(r, p, b)
      {
        OddErrorDetected(r, p, a, b);
      }
    } else {
      var r, a, b := Zeros(|p|), Divisor(p), Zeros(|p| + 1);
      assert a[1..] == p;
      XorZeros(a);
      DivisorUndetected(p);
      RunOfZeros(p, |p| + 1);
      assert Parity(Xor(a, b)) && Run(r, p, a) == Run(r, p, b);
    }
  }
}
