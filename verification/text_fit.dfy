/**
 * `fit_text`: the step-down search for a font size at which a string is
 * narrower than its box.
 *
 * Sizes are integers counting half points, so the 0.5 pt step is exactly 1
 * and the 0.5 pt floor is 1. The string width at a size is a function
 * parameter standing in for the font metrics library.
 */
module TextFit {

  /** The smallest size the search will stop at unconditionally (0.5 pt). */
  const Floor: int := 1

  /** A fitted size and the width measured at it. */
  datatype Fit = Fit(size: int, width: real)

  /** The search stops at `size` when the text fits or the floor is reached. */
  predicate Stops(measure: int -> real, box: real, size: int)
  {
    measure(size) < box || size <= Floor
  }

  /**
   * Measure at `size`; stop when the text is narrower than `box` or the
   * size is at most 0.5 pt, otherwise retry half a point smaller.
   */
  function FitText(measure: int -> real, box: real, size: int): (r: Fit)
    ensures r.size <= size
    ensures r.width == measure(r.size)
    ensures r.width < box || r.size <= Floor
    ensures forall t :: r.size < t <= size ==> measure(t) >= box
    ensures size >= Floor ==> r.size >= Floor
    ensures size <= Floor ==> r.size == size
    decreases size
  {
    if measure(size) < box || size <= Floor then Fit(size, measure(size))
    else FitText(measure, box, size - 1)
  }

  /**
   * The sizes measured, in order: the start size and every half point
   * below it down to the returned size.
   */
  function Tried(measure: int -> real, box: real, size: int): (t: seq<int>)
    ensures |t| >= 1 && t[0] == size && t[|t| - 1] == FitText(measure, box, size).size
    ensures forall k :: 0 <= k < |t| ==> t[k] == size - k
    ensures forall k :: 0 <= k < |t| - 1 ==> !Stops(measure, box, t[k])
    ensures Stops(measure, box, t[|t| - 1])
    decreases size
  {
    if Stops(measure, box, size) then [size]
    else [size] + Tried(measure, box, size - 1)
  }

  /** Width never shrinks as the size grows. */
  ghost predicate Monotone(measure: int -> real)
  {
    forall a, b :: a <= b ==> measure(a) <= measure(b)
  }

  /**
   * For metrics whose width grows with size, the search is exact: at or
   * below the start size and above the floor, the text fits at a size iff
   * that size is at most the returned one.
   */
  lemma FitTextGreatest(measure: int -> real, box: real, size: int, t: int)
    requires Monotone(measure)
    requires Floor < t <= size
    ensures measure(t) < box <==> t <= FitText(measure, box, size).size
  {
  }
}
