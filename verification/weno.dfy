/**
 * Fifth-order WENO reconstruction of the Jiang-Shu kind (`weno5`,
 * petsc/euler2d/fdweno.c:31-55).  Given five consecutive values
 * `um2, um1, u0, up1, up2` it returns the left-biased value at the face
 * between `u0` and `up1`: a nonlinear convex combination of three
 * third-order candidates, each weight being `gamma_k / (eps + beta_k)^2`.
 */
module Weno {
  import opened Vectors

  /** Regulariser of the weights (`eps`, line 33). */
  const Eps: real := 1.0e-6
  /** Linear (optimal) weights (line 34). */
  const Gamma1: real := 1.0 / 10.0
  const Gamma2: real := 3.0 / 5.0
  const Gamma3: real := 3.0 / 10.0

  /** `pow(x, 2)` */
  function Sq(x: real): real { x * x }

  function Min3(a: real, b: real, c: real): real
  {
    if a <= b && a <= c then a else if b <= c then b else c
  }

  function Max3(a: real, b: real, c: real): real
  {
    if a >= b && a >= c then a else if b >= c then b else c
  }

  lemma SqNonNegative(x: real)
    ensures Sq(x) >= 0.0
  {
    if x < 0.0 {
      assert Sq(x) == (-x) * (-x);
    }
  }

  lemma SqPositive(x: real)
    requires x >= Eps
    ensures Sq(x) > 0.0
  {
    MulNonNegative(x, x - Eps);
    assert x * (x - Eps) == x * x - Eps * x;
  }

  /** Smoothness indicator of the left sub-stencil (lines 39-40). */
  function Beta1(um2: real, um1: real, u0: real): (b: real)
    ensures b >= 0.0
  {
    SqNonNegative(um2 - 2.0 * um1 + u0);
    SqNonNegative(um2 - 4.0 * um1 + 3.0 * u0);
    (13.0 / 12.0) * Sq(um2 - 2.0 * um1 + u0) + (1.0 / 4.0) * Sq(um2 - 4.0 * um1 + 3.0 * u0)
  }

  /** Smoothness indicator of the centred sub-stencil (lines 41-42). */
  function Beta2(um1: real, u0: real, up1: real): (b: real)
    ensures b >= 0.0
  {
    SqNonNegative(um1 - 2.0 * u0 + up1);
    SqNonNegative(um1 - up1);
    (13.0 / 12.0) * Sq(um1 - 2.0 * u0 + up1) + (1.0 / 4.0) * Sq(um1 - up1)
  }

  /** Smoothness indicator of the right sub-stencil (lines 43-44). */
  function Beta3(u0: real, up1: real, up2: real): (b: real)
    ensures b >= 0.0
  {
    SqNonNegative(u0 - 2.0 * up1 + up2);
    SqNonNegative(3.0 * u0 - 4.0 * up1 + up2);
    (13.0 / 12.0) * Sq(u0 - 2.0 * up1 + up2) + (1.0 / 4.0) * Sq(3.0 * u0 - 4.0 * up1 + up2)
  }

  /** Nonlinear weight `gamma / (eps + beta)^2` (lines 46-48). */
  function Weight(gamma: real, beta: real): (w: real)
    requires gamma > 0.0 && beta >= 0.0
    ensures w > 0.0
  {
    SqPositive(Eps + beta);
    gamma / Sq(Eps + beta)
  }

  /** Average of `q(x) = a + b*x + c*x^2` over the unit cell centred at `k`. */
  function CellAverage(a: real, b: real, c: real, k: real): real
  {
    a + b * k + c * (k * k + 1.0 / 12.0)
  }

  /** `q(1/2)`, the value of `q(x) = a + b*x + c*x^2` at the right face of cell 0. */
  function FaceValue(a: real, b: real, c: real): real
  {
    a + b / 2.0 + c / 4.0
  }

  /**
   * Third-order candidate values at the face (lines 50-52).  Each one is
   * exact for quadratics: three cell averages of any quadratic on its
   * stencil give the quadratic's value at the face.
   */
  function Candidate1(um2: real, um1: real, u0: real): (r: real)
    ensures forall a, b, c ::
              (um2 == CellAverage(a, b, c, -2.0) && um1 == CellAverage(a, b, c, -1.0) && u0 == CellAverage(a, b, c, 0.0))
              ==> r == FaceValue(a, b, c)
  {
    (1.0 / 3.0) * um2 - (7.0 / 6.0) * um1 + (11.0 / 6.0) * u0
  }

  function Candidate2(um1: real, u0: real, up1: real): (r: real)
    ensures forall a, b, c ::
              (um1 == CellAverage(a, b, c, -1.0) && u0 == CellAverage(a, b, c, 0.0) && up1 == CellAverage(a, b, c, 1.0))
              ==> r == FaceValue(a, b, c)
  {
    -(1.0 / 6.0) * um1 + (5.0 / 6.0) * u0 + (1.0 / 3.0) * up1
  }

  function Candidate3(u0: real, up1: real, up2: real): (r: real)
    ensures forall a, b, c ::
              (u0 == CellAverage(a, b, c, 0.0) && up1 == CellAverage(a, b, c, 1.0) && up2 == CellAverage(a, b, c, 2.0))
              ==> r == FaceValue(a, b, c)
  {
    (1.0 / 3.0) * u0 + (5.0 / 6.0) * up1 - (1.0 / 6.0) * up2
  }

  /** The normalised weighted sum of three values with positive weights. */
  function Blend(w1: real, w2: real, w3: real, a: real, b: real, c: real): (r: real)
    requires w1 > 0.0 && w2 > 0.0 && w3 > 0.0
    ensures Min3(a, b, c) <= r <= Max3(a, b, c)
  {
    ConvexCombination(w1, w2, w3, a, b, c);
    (w1 * a + w2 * b + w3 * c) / (w1 + w2 + w3)
  }

  /**
   * Left value at the face between `u0` and `up1` (lines 31-55).  Every
   * weight is positive, so the result is a convex combination of the three
   * candidates and lies between the smallest and the largest of them.
   */
  function Weno5(um2: real, um1: real, u0: real, up1: real, up2: real): (r: real)
    ensures Min3(Candidate1(um2, um1, u0), Candidate2(um1, u0, up1), Candidate3(u0, up1, up2)) <= r
    ensures r <= Max3(Candidate1(um2, um1, u0), Candidate2(um1, u0, up1), Candidate3(u0, up1, up2))
  {
    Blend(Weight(Gamma1, Beta1(um2, um1, u0)),
          Weight(Gamma2, Beta2(um1, u0, up1)),
          Weight(Gamma3, Beta3(u0, up1, up2)),
          Candidate1(um2, um1, u0), Candidate2(um1, u0, up1), Candidate3(u0, up1, up2))
  }

  /** A normalised positive-weight combination lies between its extreme values. */
  lemma ConvexCombination(w1: real, w2: real, w3: real, a: real, b: real, c: real)
    requires w1 > 0.0 && w2 > 0.0 && w3 > 0.0
    ensures Min3(a, b, c) <= (w1 * a + w2 * b + w3 * c) / (w1 + w2 + w3) <= Max3(a, b, c)
  {
    var lo, hi := Min3(a, b, c), Max3(a, b, c);
    var s, w := w1 * a + w2 * b + w3 * c, w1 + w2 + w3;
    var r := s / w;
    assert r * w == s;
    MulNonNegative(w1, a - lo);
    MulNonNegative(w2, b - lo);
    MulNonNegative(w3, c - lo);
    assert s - lo * w == w1 * (a - lo) + w2 * (b - lo) + w3 * (c - lo);
    assert (r - lo) * w >= 0.0;
    MulNonNegative(w1, hi - a);
    MulNonNegative(w2, hi - b);
    MulNonNegative(w3, hi - c);
    assert hi * w - s == w1 * (hi - a) + w2 * (hi - b) + w3 * (hi - c);
    assert (hi - r) * w >= 0.0;
  }

  /** When the three candidates agree the weights normalise out. */
  lemma {:induction false} AgreeingCandidates(um2: real, um1: real, u0: real, up1: real, up2: real, v: real)
    requires Candidate1(um2, um1, u0) == v && Candidate2(um1, u0, up1) == v && Candidate3(u0, up1, up2) == v
    ensures Weno5(um2, um1, u0, up1, up2) == v
  {
  }

  /** A constant stencil is reproduced exactly. */
  lemma ConstantExact(c: real)
    ensures Weno5(c, c, c, c, c) == c
  {
    AgreeingCandidates(c, c, c, c, c, c);
  }

  /**
   * Samples of the affine profile `a + b*k` at `k = -2..2` give the profile's
   * value at the face `k = 1/2`.
   */
  lemma AffineExact(a: real, b: real)
    ensures Weno5(a - 2.0 * b, a - b, a, a + b, a + 2.0 * b) == a + b / 2.0
  {
    AgreeingCandidates(a - 2.0 * b, a - b, a, a + b, a + 2.0 * b, a + b / 2.0);
  }

  /**
   * For cell averages of any quadratic `q` the reconstruction returns the
   * exact face value `q(1/2)`, whatever the nonlinear weights are.
   */
  lemma QuadraticExact(a: real, b: real, c: real)
    ensures Weno5(CellAverage(a, b, c, -2.0), CellAverage(a, b, c, -1.0), CellAverage(a, b, c, 0.0),
                  CellAverage(a, b, c, 1.0), CellAverage(a, b, c, 2.0))
            == FaceValue(a, b, c)
  {
    AgreeingCandidates(CellAverage(a, b, c, -2.0), CellAverage(a, b, c, -1.0), CellAverage(a, b, c, 0.0),
                       CellAverage(a, b, c, 1.0), CellAverage(a, b, c, 2.0), FaceValue(a, b, c));
  }

  /** Adding a constant to all five inputs adds it to the reconstruction. */
  lemma ShiftInvariant(um2: real, um1: real, u0: real, up1: real, up2: real, s: real)
    ensures Weno5(um2 + s, um1 + s, u0 + s, up1 + s, up2 + s) == Weno5(um2, um1, u0, up1, up2) + s
  {
    assert Beta1(um2 + s, um1 + s, u0 + s) == Beta1(um2, um1, u0) by {
      assert (um2 + s) - 2.0 * (um1 + s) + (u0 + s) == um2 - 2.0 * um1 + u0;
      assert (um2 + s) - 4.0 * (um1 + s) + 3.0 * (u0 + s) == um2 - 4.0 * um1 + 3.0 * u0;
    }
    assert Beta2(um1 + s, u0 + s, up1 + s) == Beta2(um1, u0, up1) by {
      assert (um1 + s) - 2.0 * (u0 + s) + (up1 + s) == um1 - 2.0 * u0 + up1;
      assert (um1 + s) - (up1 + s) == um1 - up1;
    }
    assert Beta3(u0 + s, up1 + s, up2 + s) == Beta3(u0, up1, up2) by {
      assert (u0 + s) - 2.0 * (up1 + s) + (up2 + s) == u0 - 2.0 * up1 + up2;
      assert 3.0 * (u0 + s) - 4.0 * (up1 + s) + (up2 + s) == 3.0 * u0 - 4.0 * up1 + up2;
    }
    var w1 := Weight(Gamma1, Beta1(um2, um1, u0));
    var w2 := Weight(Gamma2, Beta2(um1, u0, up1));
    var w3 := Weight(Gamma3, Beta3(u0, up1, up2));
    var a, b, c := Candidate1(um2, um1, u0), Candidate2(um1, u0, up1), Candidate3(u0, up1, up2);
    BlendShift(w1, w2, w3, a, b, c, s);
  }

  lemma BlendShift(w1: real, w2: real, w3: real, a: real, b: real, c: real, s: real)
    requires w1 > 0.0 && w2 > 0.0 && w3 > 0.0
    ensures Blend(w1, w2, w3, a + s, b + s, c + s) == Blend(w1, w2, w3, a, b, c) + s
  {
    var w := w1 + w2 + w3;
    var r := (w1 * a + w2 * b + w3 * c) / w;
    var r' := (w1 * (a + s) + w2 * (b + s) + w3 * (c + s)) / w;
    assert r * w == w1 * a + w2 * b + w3 * c;
    assert r' * w == w1 * (a + s) + w2 * (b + s) + w3 * (c + s);
    assert r' * w == (r + s) * w;
  }
}
