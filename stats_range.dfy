/** `getRange`: the smallest and largest sample over both sample arrays. */
module StatsRange {
  import JsMath

  /** `{ min, max }` of the concatenated samples. `EmptyRange` is what
      `Math.min()` and `Math.max()` give for no arguments: `min` is +Infinity
      and `max` is -Infinity. */
  datatype Range = EmptyRange | Range(min: real, max: real)

  /** `Math.min(...a)` and `Math.max(...a)` of `a = control.concat(experiment)`. */
  function GetRange(control: seq<real>, experiment: seq<real>): (r: Range)
    ensures r.EmptyRange? <==> |control| + |experiment| == 0
    ensures r.Range? ==> r.min <= r.max
    ensures r.Range? ==> (r.min in control || r.min in experiment)
    ensures r.Range? ==> (r.max in control || r.max in experiment)
    ensures r.Range? ==> forall x :: x in control ==> r.min <= x <= r.max
    ensures r.Range? ==> forall x :: x in experiment ==> r.min <= x <= r.max
  {
    var a := control + experiment;
    assert forall x :: x in a <==> x in control || x in experiment;
    if |a| == 0 then EmptyRange else Range(JsMath.MinOf(a), JsMath.MaxOf(a))
  }

  /** A sample lies in a range when it is between its bounds; nothing lies in
      the empty range. */
  predicate Within(r: Range, x: real)
  {
    r.Range? && r.min <= x <= r.max
  }
}
