/** numpy's tolerant equality, `isclose` and `allclose`, over real numbers.

    `np.isclose(a, b, rtol, atol)` holds when |a - b| <= atol + rtol * |b|:
    the relative part is measured against the SECOND argument, which in
    the harness is always the new (candidate) or the reference value. */
module Tolerance {

  function Abs(x: real): (r: real)
    ensures r >= 0.0 && (r == x || r == -x)
  {
    if x < 0.0 then -x else x
  }

  /** `np.isclose(a, b, rtol=rtol, atol=atol)` for finite a and b. */
  predicate IsClose(a: real, b: real, atol: real, rtol: real)
  {
    Abs(a - b) <= atol + rtol * Abs(b)
  }

  /** `np.allclose(xs, ys, rtol=rtol, atol=atol)` for one-dimensional
      arrays: the same length, and every pair of elements close. */
  predicate AllClose(xs: seq<real>, ys: seq<real>, atol: real, rtol: real)
  {
    |xs| == |ys| && forall i :: 0 <= i < |xs| ==> IsClose(xs[i], ys[i], atol, rtol)
  }

  /** A value is close to itself whenever both tolerances are non-negative. */
  lemma IsCloseReflexive(a: real, atol: real, rtol: real)
    requires atol >= 0.0 && rtol >= 0.0
    ensures IsClose(a, a, atol, rtol)
  {
    ProductNonNegative(rtol, Abs(a));
  }

  lemma AllCloseReflexive(xs: seq<real>, atol: real, rtol: real)
    requires atol >= 0.0 && rtol >= 0.0
    ensures AllClose(xs, xs, atol, rtol)
  {
    forall i | 0 <= i < |xs|
      ensures IsClose(xs[i], xs[i], atol, rtol)
    {
      IsCloseReflexive(xs[i], atol, rtol);
    }
  }

  /** Widening either tolerance keeps a close pair close. */
  lemma IsCloseMonotone(a: real, b: real, atol: real, rtol: real, atol': real, rtol': real)
    requires atol <= atol' && rtol <= rtol'
    requires IsClose(a, b, atol, rtol)
    ensures IsClose(a, b, atol', rtol')
  {
    ProductMonotone(rtol, rtol', Abs(b));
  }

  lemma AllCloseMonotone(xs: seq<real>, ys: seq<real>, atol: real, rtol: real, atol': real, rtol': real)
    requires atol <= atol' && rtol <= rtol'
    requires AllClose(xs, ys, atol, rtol)
    ensures AllClose(xs, ys, atol', rtol')
  {
    forall i | 0 <= i < |xs|
      ensures IsClose(xs[i], ys[i], atol', rtol')
    {
      IsCloseMonotone(xs[i], ys[i], atol, rtol, atol', rtol');
    }
  }

  lemma ProductNonNegative(x: real, y: real)
    requires x >= 0.0 && y >= 0.0
    ensures x * y >= 0.0
  {
  }

  lemma ProductMonotone(x: real, x': real, y: real)
    requires x <= x' && y >= 0.0
    ensures x * y <= x' * y
  {
    ProductNonNegative(x' - x, y);
  }
}
