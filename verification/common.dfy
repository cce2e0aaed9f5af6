/** Shared vocabulary of the calibration model: parameter vectors, the
    failure-carrying result type, and small arithmetic helpers. */
module Common {

  /** A numeric vector: a candidate's roughness parameters, a measurement
      vector, a target vector or a bounds row. */
  type Vec = seq<real>

  datatype Option<T> = None | Some(value: T)

  /** Why an evaluation raised instead of returning fitness values:
      a key the result store does not hold (a `KeyError`), a `'dead'`
      marker among the results, or result rows whose shapes numpy cannot
      combine with the target. */
  datatype Error = MissingKey | DeadEntry | ShapeMismatch

  datatype Result<T> = Success(value: T) | Failure(error: Error)

  predicate StrictlyIncreasing(xs: seq<nat>)
  {
    forall a, b :: 0 <= a < b < |xs| ==> xs[a] < xs[b]
  }

  /** Every component of `x` lies within the closed box `[low, high]`. */
  predicate InBounds(x: Vec, low: Vec, high: Vec)
  {
    && |x| == |low| == |high|
    && forall c :: 0 <= c < |x| ==> low[c] <= x[c] <= high[c]
  }

  function Min(a: nat, b: nat): nat
  {
    if a <= b then a else b
  }

  function Pow2(n: nat): (r: nat)
    ensures r >= 1
  {
    if n == 0 then 1 else 2 * Pow2(n - 1)
  }

  /** Number of `true` entries. */
  function CountTrue(bs: seq<bool>): (r: nat)
    ensures r <= |bs|
  {
    if |bs| == 0 then 0 else CountTrue(bs[..|bs| - 1]) + (if bs[|bs| - 1] then 1 else 0)
  }
}
