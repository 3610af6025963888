/** The `isSig` flag that `getConfidenceInterval` derives from the bounds of the
    confidence interval of the difference between experiment and control. */
module StatsSignificance {

  /** The difference is significant unless zero lies strictly between the two
      bounds (in either order) or both bounds are zero. */
  function IsSig(lower: real, upper: real): (sig: bool)
    ensures sig <==> lower * upper >= 0.0 && !(lower == 0.0 && upper == 0.0)
  {
    if (lower < 0.0 && 0.0 < upper) || (lower > 0.0 && 0.0 > upper) || (lower == 0.0 && upper == 0.0)
    then false
    else true
  }
}
