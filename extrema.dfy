/** Extrema that may be unset.

    The histogram starts with `min` and `max` set to NaN and every bucket
    starts without them; `safeMin` and `safeMax` skip an unset side.  Here
    "unset" is `None` instead of NaN. */
module Extrema {

  datatype Option<+T> = None | Some(value: T)

  /** `safeMin`: the smaller of the values that are set; unset only when both sides are. */
  function SafeMin(a: Option<real>, b: Option<real>): (r: Option<real>)
    ensures r.None? <==> a.None? && b.None?
    ensures r == a || r == b
    ensures a.Some? ==> r.value <= a.value
    ensures b.Some? ==> r.value <= b.value
  {
    if a.None? then b
    else if b.None? then a
    else if a.value <= b.value then a else b
  }

  /** `safeMax`: the larger of the values that are set; unset only when both sides are. */
  function SafeMax(a: Option<real>, b: Option<real>): (r: Option<real>)
    ensures r.None? <==> a.None? && b.None?
    ensures r == a || r == b
    ensures a.Some? ==> a.value <= r.value
    ensures b.Some? ==> b.value <= r.value
  {
    if a.None? then b
    else if b.None? then a
    else if a.value >= b.value then a else b
  }

  /** Folding extrema does not depend on the order of the operands, so the
      extrema of a merged histogram do not depend on the order of the merge. */
  lemma ExtremaCommute(a: Option<real>, b: Option<real>)
    ensures SafeMin(a, b) == SafeMin(b, a)
    ensures SafeMax(a, b) == SafeMax(b, a)
  {
  }

  lemma ExtremaAssociate(a: Option<real>, b: Option<real>, c: Option<real>)
    ensures SafeMin(SafeMin(a, b), c) == SafeMin(a, SafeMin(b, c))
    ensures SafeMax(SafeMax(a, b), c) == SafeMax(a, SafeMax(b, c))
  {
  }
}
