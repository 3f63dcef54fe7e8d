/** First-match search over a sequence: the shape shared by Kotlin's
    `firstOrNull { ... }` and by the Java `for` loops that return on the
    first element passing a test. */
module Seqs {
  import opened Wrappers

  /** The index of the first element of `xs` satisfying `p`, or `None`
      when no element does. */
  function FirstWhere<T>(xs: seq<T>, p: T -> bool): (r: Option<nat>)
    ensures r.Some? ==> r.value < |xs| && p(xs[r.value])
    ensures r.Some? ==> forall j :: 0 <= j < r.value ==> !p(xs[j])
    ensures r.None? <==> forall j :: 0 <= j < |xs| ==> !p(xs[j])
    decreases |xs|
  {
    if |xs| == 0 then None
    else if p(xs[0]) then Some(0)
    else
      match FirstWhere(xs[1..], p)
      case None => None
      case Some(i) => Some(i + 1)
  }

  /** The first element of `xs` satisfying `p`, or `None`. */
  function FirstElement<T>(xs: seq<T>, p: T -> bool): (r: Option<T>)
    ensures r.Some? ==> exists i :: 0 <= i < |xs| && xs[i] == r.value && p(xs[i]) && forall j :: 0 <= j < i ==> !p(xs[j])
    ensures r.None? <==> forall j :: 0 <= j < |xs| ==> !p(xs[j])
  {
    match FirstWhere(xs, p)
    case None => None
    case Some(i) => Some(xs[i])
  }
}
