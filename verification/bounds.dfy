/**
 The bounds check `alignValue` applies after every change of the value.
 A maximum of 0 stands for every falsy `maxValue` (0, null, undefined):
 the field then has no upper bound.
 */
module Bounds {

  /** Configured bounds that do not cross: no maximum, or a maximum not below the minimum. */
  predicate Consistent(minValue: nat, maxValue: nat) {
    maxValue == 0 || minValue <= maxValue
  }

  predicate InRange(v: int, minValue: nat, maxValue: nat) {
    minValue <= v && (maxValue == 0 || v <= maxValue)
  }

  /**
   The value `alignValue` leaves behind. Below the minimum it is the minimum
   and the maximum is not consulted; above a truthy maximum it is the maximum.
   */
  function Clamp(v: int, minValue: nat, maxValue: nat): (r: nat)
    ensures Consistent(minValue, maxValue) ==> InRange(r, minValue, maxValue)
    ensures InRange(v, minValue, maxValue) ==> r == v
    ensures v < minValue ==> r == minValue
    ensures minValue <= v && maxValue != 0 && maxValue < v ==> r == maxValue
  {
    if v < minValue then minValue
    else if maxValue != 0 && v > maxValue then maxValue
    else v
  }

  function Abs(x: int): nat {
    if x < 0 then -x else x
  }

  /** Clamping twice is clamping once, as long as the bounds do not cross. */
  lemma ClampIdempotent(v: int, minValue: nat, maxValue: nat)
    requires Consistent(minValue, maxValue)
    ensures Clamp(Clamp(v, minValue, maxValue), minValue, maxValue) == Clamp(v, minValue, maxValue)
  {
  }

  /** With bounds that do not cross, the clamped value is the allowed value nearest to v. */
  lemma ClampNearest(v: int, minValue: nat, maxValue: nat, y: int)
    requires Consistent(minValue, maxValue) && InRange(y, minValue, maxValue)
    ensures Abs(Clamp(v, minValue, maxValue) - v) <= Abs(y - v)
  {
  }

  /**
   With a truthy maximum below the minimum the check never settles: 700 is
   pulled down to the maximum 100, which is then pulled up to the minimum 600.
   */
  lemma ClampCrossedBoundsNotIdempotent()
    ensures Clamp(700, 600, 100) == 100
    ensures Clamp(Clamp(700, 600, 100), 600, 100) == 600
  {
  }

  /** A spin up followed by a spin down returns to the start when the first result was not clamped. */
  lemma SpinUpThenDown(v: int, step: nat, minValue: nat, maxValue: nat)
    requires InRange(v, minValue, maxValue) && InRange(v + step, minValue, maxValue)
    ensures Clamp(Clamp(v + step, minValue, maxValue) - step, minValue, maxValue) == v
  {
  }

  /** A spin down followed by a spin up returns to the start when the first result was not clamped. */
  lemma SpinDownThenUp(v: int, step: nat, minValue: nat, maxValue: nat)
    requires InRange(v, minValue, maxValue) && InRange(v - step, minValue, maxValue)
    ensures Clamp(Clamp(v - step, minValue, maxValue) + step, minValue, maxValue) == v
  {
  }
}
