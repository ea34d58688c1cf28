/**
 * Discharge values as they come out of the decoded grid. A grid node holds a
 * floating-point number; here it is either a finite real or the tag for NaN
 * and the two infinities, which every test in the pipeline treats alike.
 */
module Discharge {

  datatype Val = Finite(r: real) | NonFinite

  /** The mask `np.isfinite(v) & (v > 0)`: a value that is finite and strictly positive. */
  predicate IsPositive(v: Val)
  {
    v.Finite? && v.r > 0.0
  }

  /**
   * `round(x, 2)`: the nearest multiple of 0.01, ties going to the even
   * hundredth, taken on the exact real rather than on a binary float.
   */
  function Round2(x: real): real
  {
    var y := x * 100.0;
    var f := y.Floor;
    var d := y - f as real;
    var k := if d < 0.5 then f
             else if d > 0.5 then f + 1
             else if f % 2 == 0 then f else f + 1;
    k as real / 100.0
  }

  /** The rounded value is within half a hundredth of x and has at most two decimals. */
  lemma Round2Nearest(x: real)
    ensures -0.005 <= Round2(x) - x <= 0.005
    ensures (Round2(x) * 100.0).Floor as real == Round2(x) * 100.0
  {
  }

  /** A value that already has at most two decimals is left unchanged. */
  lemma Round2Exact(k: int)
    ensures Round2(k as real / 100.0) == k as real / 100.0
  {
    var y := (k as real / 100.0) * 100.0;
    assert y == k as real;
    assert y.Floor == k;
  }
}
