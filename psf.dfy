/** The three bounded point-spread functions of algorithms.py (Optimized,
    Simplified, Bounded), the derivation of their lower thresholds, and what
    that derivation buys: each falloff meets 1 at the lower threshold and 0
    at the upper one, and falls in between. */
module Psf {
  import opened Light

  /** k of the Bounded variant (algorithms.py line 152). */
  const BoundedK: real := 0.0016

  // ---------------------------------------------------------------------
  // Shared arithmetic of the rational falloffs
  // ---------------------------------------------------------------------

  /** (num / x - 1)^2: the bracket both rational falloffs square. */
  function Bracket(num: real, x: real): (r: real)
    requires x != 0.0
    ensures r >= 0.0
  {
    var brackets := num / x - 1.0;
    brackets * brackets
  }

  lemma DivideAntitone(num: real, x1: real, x2: real)
    requires num >= 0.0 && 0.0 < x1 <= x2
    ensures num / x2 <= num / x1
  {
    var q1, q2 := num / x1, num / x2;
    assert q1 * x1 == num && q2 * x2 == num;
    assert q2 >= 0.0;
    assert q2 * x1 <= q2 * x2;
  }

  lemma SquareMonotone(u1: real, u2: real)
    requires 0.0 <= u1 <= u2
    ensures u1 * u1 <= u2 * u2
  {
    assert u2 * u2 - u1 * u1 == (u2 - u1) * (u2 + u1);
  }

  lemma SquareStrictlyMonotone(u1: real, u2: real)
    requires 0.0 <= u1 < u2
    ensures u1 * u1 < u2 * u2
  {
    assert u2 * u2 - u1 * u1 == (u2 - u1) * (u2 + u1);
    ProductPositive(u2 - u1, u2 + u1);
  }

  lemma ProductPositive(u: real, v: real)
    requires u > 0.0 && v > 0.0
    ensures u * v > 0.0
  {
  }

  /** Multiplying by a non-negative factor keeps order (stated without a
      precondition so that callers can use its contrapositive). */
  lemma MultiplyKeepsOrder(a: real, b: real, x: real)
    requires x >= 0.0
    ensures a <= b ==> a * x <= b * x
  {
    assert b * x - a * x == (b - a) * x;
  }

  lemma DivideExact(num: real, x: real, q: real)
    requires x != 0.0 && q * x == num
    ensures num / x == q
  {
    var d := num / x;
    assert d * x == num;
    assert (d - q) * x == 0.0;
  }

  /** Inside the support (x up to num) the bracket is non-negative and falls as x grows. */
  lemma BracketFalls(num: real, x1: real, x2: real)
    requires 0.0 < x1 <= x2 <= num
    ensures 0.0 <= Bracket(num, x2) <= Bracket(num, x1)
  {
    DivideAntitone(num, x1, x2);
    DivideAntitone(num, x2, num);
    DivideExact(num, num, 1.0);
    SquareMonotone(num / x2 - 1.0, num / x1 - 1.0);
  }

  /** Past the support (x beyond num) the bracket grows again. */
  lemma BracketRegrows(num: real, x1: real, x2: real)
    requires 0.0 < num <= x1 < x2
    ensures Bracket(num, x1) < Bracket(num, x2)
  {
    DivideAntitone(num, x1, x2);
    DivideAntitone(num, num, x1);
    DivideExact(num, num, 1.0);
    assert num / x2 < num / x1 by {
      var q1, q2 := num / x1, num / x2;
      assert q1 * x1 == num && q2 * x2 == num;
      MultiplyKeepsOrder(q1, 0.0, x1);
      assert q1 > 0.0;
      assert q1 * x2 - q1 * x1 == q1 * (x2 - x1);
      ProductPositive(q1, x2 - x1);
      MultiplyKeepsOrder(q1, q2, x2);
    }
    SquareStrictlyMonotone(1.0 - num / x1, 1.0 - num / x2);
  }

  /** Inside (0, num) the bracket is strictly positive: num / x exceeds 1. */
  lemma BracketPositive(num: real, x: real)
    requires 0.0 < x < num
    ensures Bracket(num, x) > 0.0
  {
    var q := num / x;
    assert q * x == num;
    MultiplyKeepsOrder(q, 1.0, x);
    SquareStrictlyMonotone(0.0, q - 1.0);
  }

  lemma ScaleByPositive(u: real, v: real, k: real)
    requires u <= v && k > 0.0
    ensures u / k <= v / k && k * u <= k * v
  {
    assert v / k - u / k == (v - u) / k;
  }

  lemma ScaleStrictByPositive(u: real, v: real, k: real)
    requires u < v && k > 0.0
    ensures u / k < v / k && k * u < k * v
  {
    assert v / k - u / k == (v - u) / k;
  }

  // ---------------------------------------------------------------------
  // Optimized (lines 36-47, parameters lines 66-70)
  // ---------------------------------------------------------------------

  /** The Optimized falloff (b / (theta - h) - 1)^2 / k. */
  function OptimizedFalloff(theta: real, h: real, k: real, b: real): real
    requires theta != h && k != 0.0
  {
    Bracket(b, theta - h) / k
  }

  /** PSF_Optimized: 1 below min_theta, the falloff below max_theta, 0 beyond. */
  function PsfOptimized(theta: real, minTheta: real, maxTheta: real, h: real, k: real, b: real): (r: real)
    requires k != 0.0
    requires minTheta <= theta < maxTheta ==> theta != h
    ensures theta < minTheta ==> r == 1.0
    ensures k > 0.0 ==> r >= 0.0
  {
    if theta < minTheta then 1.0
    else if theta < maxTheta then OptimizedFalloff(theta, h, k, b)
    else 0.0
  }

  datatype OptimizedShape = OptimizedShape(minTheta: real, maxTheta: real, h: real, k: real, b: real)

  /** Lines 69-70: b = max_theta - h and min_theta = h + b / (sqrt(k) + 1),
      with sqrtK standing for np.sqrt(k). The thresholds come out ordered
      h < min_theta < max_theta. */
  function OptimizedParams(maxTheta: real, h: real, k: real, sqrtK: real): (s: OptimizedShape)
    requires sqrtK > 0.0 && sqrtK * sqrtK == k && h < maxTheta
    ensures s.maxTheta == maxTheta && s.h == h && s.k == k && s.k > 0.0
    ensures s.b > 0.0 && s.h < s.minTheta < s.maxTheta
  {
    var b := maxTheta - h;
    var offset := b / (sqrtK + 1.0);
    assert 0.0 < offset < b by {
      assert offset * (sqrtK + 1.0) == b;
      assert offset * sqrtK > 0.0 by { assert offset > 0.0; }
    }
    OptimizedShape(h + offset, maxTheta, h, k, b)
  }

  /** The derivation of min_theta makes the falloff exactly 1 at min_theta,
      and b = max_theta - h makes it exactly 0 at max_theta: the PSF is
      continuous at both thresholds. */
  lemma OptimizedContinuous(maxTheta: real, h: real, k: real, sqrtK: real)
    requires sqrtK > 0.0 && sqrtK * sqrtK == k && h < maxTheta
    ensures var s := OptimizedParams(maxTheta, h, k, sqrtK);
      OptimizedFalloff(s.minTheta, h, k, s.b) == 1.0 && OptimizedFalloff(maxTheta, h, k, s.b) == 0.0
  {
    var s := OptimizedParams(maxTheta, h, k, sqrtK);
    var x := s.minTheta - h;
    assert x * (sqrtK + 1.0) == s.b;
    DivideExact(s.b, x, sqrtK + 1.0);
    DivideExact(maxTheta - h, maxTheta - h, 1.0);
    assert Bracket(s.b, x) == k;
  }

  /** Over the whole axis the Optimized PSF stays in [0, 1] and never
      increases with theta. */
  lemma PsfOptimizedFalls(maxTheta: real, h: real, k: real, sqrtK: real, t1: real, t2: real)
    requires sqrtK > 0.0 && sqrtK * sqrtK == k && h < maxTheta
    requires t1 <= t2
    ensures var s := OptimizedParams(maxTheta, h, k, sqrtK);
      0.0 <= PsfOptimized(t2, s.minTheta, maxTheta, h, k, s.b)
          <= PsfOptimized(t1, s.minTheta, maxTheta, h, k, s.b) <= 1.0
  {
    var s := OptimizedParams(maxTheta, h, k, sqrtK);
    OptimizedContinuous(maxTheta, h, k, sqrtK);
    if s.minTheta <= t1 < maxTheta {
      BracketFalls(s.b, s.minTheta - h, t1 - h);
      ScaleByPositive(Bracket(s.b, t1 - h), Bracket(s.b, s.minTheta - h), k);
      if t2 < maxTheta {
        BracketFalls(s.b, t1 - h, t2 - h);
        ScaleByPositive(Bracket(s.b, t2 - h), Bracket(s.b, t1 - h), k);
      }
    } else if t1 < s.minTheta && s.minTheta <= t2 < maxTheta {
      BracketFalls(s.b, s.minTheta - h, t2 - h);
      ScaleByPositive(Bracket(s.b, t2 - h), Bracket(s.b, s.minTheta - h), k);
      ScaleByPositive(0.0, Bracket(s.b, t2 - h), k);
    }
  }

  /** Every angle below max_theta gets some light: past the overexposed
      core the Optimized PSF is still strictly positive. */
  lemma PsfOptimizedPositive(maxTheta: real, h: real, k: real, sqrtK: real, theta: real)
    requires sqrtK > 0.0 && sqrtK * sqrtK == k && h < maxTheta && theta < maxTheta
    ensures var s := OptimizedParams(maxTheta, h, k, sqrtK);
      PsfOptimized(theta, s.minTheta, maxTheta, h, k, s.b) > 0.0
  {
    var s := OptimizedParams(maxTheta, h, k, sqrtK);
    if s.minTheta <= theta {
      BracketPositive(s.b, theta - h);
      ScaleStrictByPositive(0.0, Bracket(s.b, theta - h), k);
    }
  }

  /** Beyond max_theta the raw Optimized formula grows again, which is why
      the PSF returns 0 there instead. */
  lemma OptimizedRegrowsBeyondMax(maxTheta: real, h: real, k: real, sqrtK: real, t1: real, t2: real)
    requires sqrtK > 0.0 && sqrtK * sqrtK == k && h < maxTheta
    requires maxTheta <= t1 < t2
    ensures var s := OptimizedParams(maxTheta, h, k, sqrtK);
      OptimizedFalloff(t1, h, k, s.b) < OptimizedFalloff(t2, h, k, s.b)
  {
    var s := OptimizedParams(maxTheta, h, k, sqrtK);
    BracketRegrows(s.b, t1 - h, t2 - h);
    ScaleStrictByPositive(Bracket(s.b, t1 - h), Bracket(s.b, t2 - h), k);
  }

  // ---------------------------------------------------------------------
  // Simplified (lines 93-104, parameters lines 123-125)
  // ---------------------------------------------------------------------

  /** The Simplified falloff k * (max_theta / theta - 1)^2. */
  function SimplifiedFalloff(theta: real, maxTheta: real, k: real): real
    requires theta != 0.0
  {
    k * Bracket(maxTheta, theta)
  }

  /** PSF_Simplified: 1 below min_theta, the falloff below max_theta, 0 beyond. */
  function PsfSimplified(theta: real, minTheta: real, maxTheta: real, k: real): (r: real)
    requires minTheta <= theta < maxTheta ==> theta != 0.0
    ensures theta < minTheta ==> r == 1.0
    ensures k >= 0.0 ==> r >= 0.0
  {
    if theta < minTheta then 1.0
    else if theta < maxTheta then SimplifiedFalloff(theta, maxTheta, k)
    else 0.0
  }

  datatype SimplifiedShape = SimplifiedShape(minTheta: real, maxTheta: real, k: real)

  /** Line 125: min_theta = max_theta / (k^-1/2 + 1), with sqrtK standing
      for k^1/2. For a positive radius the thresholds come out ordered
      0 < min_theta < max_theta; otherwise the falloff range is empty. */
  function SimplifiedParams(maxTheta: real, k: real, sqrtK: real): (s: SimplifiedShape)
    requires sqrtK > 0.0 && sqrtK * sqrtK == k
    ensures s.maxTheta == maxTheta && s.k == k && s.k > 0.0
    ensures maxTheta > 0.0 ==> 0.0 < s.minTheta < s.maxTheta
    ensures maxTheta <= 0.0 ==> s.maxTheta <= s.minTheta
  {
    var inverseRoot := 1.0 / sqrtK;
    assert inverseRoot > 0.0;
    var minTheta := maxTheta / (inverseRoot + 1.0);
    assert minTheta * (inverseRoot + 1.0) == maxTheta;
    assert maxTheta - minTheta == minTheta * inverseRoot;
    MultiplyKeepsOrder(0.0, minTheta, inverseRoot);
    MultiplyKeepsOrder(minTheta, 0.0, inverseRoot + 1.0);
    MultiplyKeepsOrder(minTheta, 0.0, inverseRoot);
    SimplifiedShape(minTheta, maxTheta, k)
  }

  /** The derivation of min_theta makes the Simplified falloff exactly 1 at
      min_theta, and it is exactly 0 at max_theta. */
  lemma SimplifiedContinuous(maxTheta: real, k: real, sqrtK: real)
    requires maxTheta > 0.0 && sqrtK > 0.0 && sqrtK * sqrtK == k
    ensures var s := SimplifiedParams(maxTheta, k, sqrtK);
      SimplifiedFalloff(s.minTheta, maxTheta, k) == 1.0 && SimplifiedFalloff(maxTheta, maxTheta, k) == 0.0
  {
    var s := SimplifiedParams(maxTheta, k, sqrtK);
    var inverseRoot := 1.0 / sqrtK;
    assert s.minTheta * (inverseRoot + 1.0) == maxTheta;
    DivideExact(maxTheta, s.minTheta, inverseRoot + 1.0);
    assert Bracket(maxTheta, s.minTheta) == inverseRoot * inverseRoot;
    assert inverseRoot * inverseRoot * k == 1.0 by {
      assert inverseRoot * sqrtK == 1.0;
      assert inverseRoot * inverseRoot * (sqrtK * sqrtK) == (inverseRoot * sqrtK) * (inverseRoot * sqrtK);
    }
    DivideExact(maxTheta, maxTheta, 1.0);
  }

  /** For any k > 0 the Simplified falloff is non-negative and non-increasing
      on (0, max_theta]. */
  lemma SimplifiedFalloffFalls(maxTheta: real, k: real, t1: real, t2: real)
    requires k > 0.0 && 0.0 < t1 <= t2 <= maxTheta
    ensures 0.0 <= SimplifiedFalloff(t2, maxTheta, k) <= SimplifiedFalloff(t1, maxTheta, k)
  {
    var b1, b2 := Bracket(maxTheta, t1), Bracket(maxTheta, t2);
    assert 0.0 <= b2 <= b1 by {
      BracketFalls(maxTheta, t1, t2);
    }
    assert 0.0 <= k * b2 <= k * b1 by {
      ScaleByPositive(b2, b1, k);
      ScaleByPositive(0.0, b2, k);
    }
  }

  /** Every angle below max_theta gets some light: past the overexposed
      core the Simplified PSF is still strictly positive. */
  lemma PsfSimplifiedPositive(maxTheta: real, k: real, sqrtK: real, theta: real)
    requires maxTheta > 0.0 && sqrtK > 0.0 && sqrtK * sqrtK == k && theta < maxTheta
    ensures var s := SimplifiedParams(maxTheta, k, sqrtK);
      PsfSimplified(theta, s.minTheta, maxTheta, k) > 0.0
  {
    var s := SimplifiedParams(maxTheta, k, sqrtK);
    if s.minTheta <= theta {
      BracketPositive(maxTheta, theta);
      ScaleStrictByPositive(0.0, Bracket(maxTheta, theta), k);
    }
  }

  /** For any k > 0 the raw Simplified formula grows again beyond
      max_theta, which is why both PSF_Simplified and PSF_Bounded return 0
      there instead. */
  lemma SimplifiedRegrowsBeyondMax(maxTheta: real, k: real, t1: real, t2: real)
    requires k > 0.0 && 0.0 < maxTheta <= t1 < t2
    ensures SimplifiedFalloff(t1, maxTheta, k) < SimplifiedFalloff(t2, maxTheta, k)
  {
    BracketRegrows(maxTheta, t1, t2);
    ScaleStrictByPositive(Bracket(maxTheta, t1), Bracket(maxTheta, t2), k);
  }

  /** Over the whole axis the Simplified PSF stays in [0, 1] and never
      increases with theta. */
  lemma PsfSimplifiedFalls(maxTheta: real, k: real, sqrtK: real, t1: real, t2: real)
    requires maxTheta > 0.0 && sqrtK > 0.0 && sqrtK * sqrtK == k
    requires t1 <= t2
    ensures var s := SimplifiedParams(maxTheta, k, sqrtK);
      0.0 <= PsfSimplified(t2, s.minTheta, maxTheta, k) <= PsfSimplified(t1, s.minTheta, maxTheta, k) <= 1.0
  {
    var s := SimplifiedParams(maxTheta, k, sqrtK);
    SimplifiedContinuous(maxTheta, k, sqrtK);
    if s.minTheta <= t1 < maxTheta {
      SimplifiedFalloffFalls(maxTheta, k, s.minTheta, t1);
      if t2 < maxTheta {
        SimplifiedFalloffFalls(maxTheta, k, t1, t2);
      }
    } else if t1 < s.minTheta && s.minTheta <= t2 < maxTheta {
      SimplifiedFalloffFalls(maxTheta, k, s.minTheta, t2);
    }
  }

  // ---------------------------------------------------------------------
  // Bounded (lines 154-165)
  // ---------------------------------------------------------------------

  /** PSF_Bounded: +infinity at the centre, k * (max_theta / theta - 1)^2
      below max_theta, 0 beyond. Infinite exactly at theta = 0, and never
      negative elsewhere. */
  function PsfBounded(theta: real, maxTheta: real): (r: Sample)
    ensures r.Infinity? <==> theta == 0.0
    ensures r.Finite? ==> r.value >= 0.0
  {
    if theta == 0.0 then Infinity
    else if theta < maxTheta then
      ScaleByPositive(0.0, Bracket(maxTheta, theta), BoundedK);
      Finite(SimplifiedFalloff(theta, maxTheta, BoundedK))
    else Finite(0.0)
  }

  /** Away from the centre the Bounded PSF never increases with theta. */
  lemma PsfBoundedFalls(maxTheta: real, t1: real, t2: real)
    requires 0.0 < t1 <= t2
    ensures PsfBounded(t2, maxTheta).value <= PsfBounded(t1, maxTheta).value
  {
    if t2 < maxTheta {
      SimplifiedFalloffFalls(maxTheta, BoundedK, t1, t2);
    }
  }

  /** Unlike the other two, the Bounded PSF is not clamped to 1: every cell
      closer than max_theta / 26 gets more than 1. */
  lemma PsfBoundedExceedsOne(maxTheta: real, theta: real)
    requires 0.0 < theta && 26.0 * theta < maxTheta
    ensures PsfBounded(theta, maxTheta).value > 1.0
  {
    assert maxTheta / theta > 26.0 by {
      var q := maxTheta / theta;
      assert q * theta == maxTheta;
      MultiplyKeepsOrder(q, 26.0, theta);
    }
    SquareStrictlyMonotone(25.0, maxTheta / theta - 1.0);
  }
}
