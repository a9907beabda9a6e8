/** Axis numbers as callers give them: negative ones count from the end. */
module Axes {
  import opened Text

  predicate AxisInRange(x: int, n: nat) {
    -(n as int) <= x < n
  }

  function Normal(x: int, n: nat): (d: nat)
    requires AxisInRange(x, n)
    ensures d < n && d == x % n
  {
    if x < 0 then x + n else x
  }

  /** The axis meant, or nothing when it is out of range. */
  function NormalDim(d: int, n: nat): (r: Option<nat>)
    ensures r.Some? <==> AxisInRange(d, n)
    ensures r.Some? ==> r.value < n
  {
    if AxisInRange(d, n) then Some(Normal(d, n)) else None
  }

  predicate AllNonNegative(sizes: seq<int>) {
    forall i :: 0 <= i < |sizes| ==> sizes[i] >= 0
  }
}
