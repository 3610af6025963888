/** `getBuckets`: splits the range of both sample arrays, widened by one unit on
    each side, into `bucketCount` contiguous half-open buckets, and counts the
    control and experiment samples that fall in each. */
module StatsBuckets {
  import StatsRange

  /** `Bucket.count`: how many control and experiment samples one bucket holds. */
  datatype Counts = Counts(control: nat, experiment: nat)

  /** `Bucket`: the half-open interval `[min, max)` and its two counts. */
  datatype Bucket = Bucket(min: int, max: int, count: Counts)

  /** The width added below the minimum and above the maximum. */
  const BufferWidth: real := 1.0

  /** `bucketIncrementor`: `(maxBuffer - minBuffer) / bucketCount`. */
  function Increment(min: real, max: real, bucketCount: nat): real
    requires bucketCount >= 1
  {
    ((max + BufferWidth) - (min - BufferWidth)) / bucketCount as real
  }

  /** The value of `count` before the `i`-th push: `minBuffer` plus `i`
      increments. */
  function CountAt(min: real, max: real, bucketCount: nat, i: nat): real
    requires bucketCount >= 1
  {
    min - BufferWidth + i as real * Increment(min, max, bucketCount)
  }

  /** `Math.floor(count)` before the `i`-th push: the lower edge of bucket `i`
      and the upper edge of bucket `i - 1`. */
  function Edge(min: real, max: real, bucketCount: nat, i: nat): int
    requires bucketCount >= 1
  {
    CountAt(min, max, bucketCount, i).Floor
  }

  /** How many samples lie in `[lo, hi)`. */
  function CountIn(samples: seq<real>, lo: int, hi: int): nat
  {
    if |samples| == 0 then 0
    else
      var x := samples[|samples| - 1];
      CountIn(samples[..|samples| - 1], lo, hi) + (if lo as real <= x < hi as real then 1 else 0)
  }

  /** The buckets the push loop lays out under exact arithmetic: none for an
      empty range (there `count` starts at +Infinity, which is not below
      -Infinity) or when the widened range is empty, otherwise `bucketCount`
      of them, bucket `i` spanning `[Edge(i), Edge(i + 1))`, all counts zero. */
  function Layout(range: StatsRange.Range, bucketCount: nat): seq<Bucket>
    requires bucketCount >= 1
  {
    match range
    case EmptyRange => []
    case Range(min, max) =>
      if min - BufferWidth < max + BufferWidth then
        seq(bucketCount, i requires 0 <= i < bucketCount =>
          Bucket(Edge(min, max, bucketCount, i), Edge(min, max, bucketCount, i + 1), Counts(0, 0)))
      else []
  }

  /** Each bucket with the samples of both arrays in `[min, max)` added to its
      counts. */
  function Counted(buckets: seq<Bucket>, control: seq<real>, experiment: seq<real>): seq<Bucket>
  {
    seq(|buckets|, i requires 0 <= i < |buckets| =>
      var b := buckets[i];
      b.(count := Counts(b.count.control + CountIn(control, b.min, b.max),
                              b.count.experiment + CountIn(experiment, b.min, b.max))))
  }

  /** The buckets `getBuckets` returns under exact arithmetic. */
  function BucketsOf(range: StatsRange.Range, bucketCount: nat, control: seq<real>, experiment: seq<real>): seq<Bucket>
    requires bucketCount >= 1
  {
    Counted(Layout(range, bucketCount), control, experiment)
  }

  /** Adding the increment to `count` moves it to the next multiple. */
  lemma NextCount(min: real, max: real, bucketCount: nat, k: nat)
    requires bucketCount >= 1
    ensures CountAt(min, max, bucketCount, k) + Increment(min, max, bucketCount) == CountAt(min, max, bucketCount, k + 1)
  {
  }

  /** With a positive increment, `count` is still below `maxBuffer` exactly
      before the last push; otherwise it never is. */
  lemma {:induction false} CountBelowEnd(min: real, max: real, bucketCount: nat, k: nat)
    requires 1 <= bucketCount && k <= bucketCount
    ensures CountAt(min, max, bucketCount, k) < max + BufferWidth <==> (min - BufferWidth < max + BufferWidth && k < bucketCount)
  {
    var inc := Increment(min, max, bucketCount);
    var spread := (max + BufferWidth) - (min - BufferWidth);
    assert bucketCount as real * inc == spread;
    assert CountAt(min, max, bucketCount, k) - (max + BufferWidth) == (k - bucketCount) as real * inc;
    if spread > 0.0 {
      assert inc > 0.0;
    } else {
      assert (bucketCount - k) as real * -inc >= 0.0;
    }
  }

  /** With a negative `bucketCount` over a non-empty range the increment is
      negative, so after any number `k` of pushes `count` is still below
      `maxBuffer`: the `while (count < maxBuffer)` loop never ends. */
  lemma NegativeCountNeverStops(min: real, max: real, bucketCount: int, k: nat)
    requires min <= max && bucketCount < 0
    ensures (min - BufferWidth) + k as real * (((max + BufferWidth) - (min - BufferWidth)) / bucketCount as real) < max + BufferWidth
  {
  }

  /** `getBuckets(controlSorted, experimentSorted, bucketCount)` over
      `this.range`: lays out the buckets, then counts the samples of both
      arrays into them. */
  method GetBuckets(range: StatsRange.Range, controlSorted: seq<real>, experimentSorted: seq<real>, bucketCount: nat)
    returns (buckets: seq<Bucket>)
    requires bucketCount >= 1
    ensures buckets == BucketsOf(range, bucketCount, controlSorted, experimentSorted)
  {
    buckets := PushBuckets(range, bucketCount);
    buckets := CountSamples(buckets, controlSorted, experimentSorted);
  }

  /** The `while (count < maxBuffer)` loop of `getBuckets`: pushes one empty
      bucket per increment from `minBuffer` until `maxBuffer` is reached. */
  method PushBuckets(range: StatsRange.Range, bucketCount: nat) returns (buckets: seq<Bucket>)
    requires bucketCount >= 1
    ensures buckets == Layout(range, bucketCount)
  {
    buckets := [];
    if range.Range? {
      var min, max := range.min, range.max;
      var minBuffer := min - BufferWidth;
      var maxBuffer := max + BufferWidth;
      var bucketIncrementor := (maxBuffer - minBuffer) / bucketCount as real;
      var count := minBuffer;
      var k: nat := 0;
      CountBelowEnd(min, max, bucketCount, k);
      while count < maxBuffer
        invariant bucketIncrementor == Increment(min, max, bucketCount)
        invariant count == CountAt(min, max, bucketCount, k)
        invariant k <= bucketCount
        invariant minBuffer >= maxBuffer ==> k == 0
        invariant |buckets| == k
        invariant forall i :: 0 <= i < k ==>
          buckets[i] == Bucket(Edge(min, max, bucketCount, i), Edge(min, max, bucketCount, i + 1), Counts(0, 0))
        decreases bucketCount - k
      {
        CountBelowEnd(min, max, bucketCount, k);
        NextCount(min, max, bucketCount, k);
        buckets := buckets + [Bucket(count.Floor, (count + bucketIncrementor).Floor, Counts(0, 0))];
        count := count + bucketIncrementor;
        k := k + 1;
      }
      CountBelowEnd(min, max, bucketCount, k);
    }
  }

  /** The nested loops of `getBuckets`: every bucket adds to its counts the
      control and experiment samples that lie in `[min, max)`. */
  method CountSamples(buckets: seq<Bucket>, controlSorted: seq<real>, experimentSorted: seq<real>)
    returns (counted: seq<Bucket>)
    ensures counted == Counted(buckets, controlSorted, experimentSorted)
  {
    counted := buckets;
    var i := 0;
    while i < |counted|
      invariant 0 <= i <= |counted| == |buckets|
      invariant forall m :: 0 <= m < i ==> counted[m] == Counted(buckets, controlSorted, experimentSorted)[m]
      invariant forall m :: i <= m < |counted| ==> counted[m] == buckets[m]
    {
      var bucket := counted[i];
      var j := 0;
      while j < |controlSorted|
        invariant 0 <= j <= |controlSorted|
        invariant bucket.min == buckets[i].min && bucket.max == buckets[i].max
        invariant bucket.count == buckets[i].count.(control := buckets[i].count.control + CountIn(controlSorted[..j], bucket.min, bucket.max))
      {
        assert controlSorted[..j + 1][..j] == controlSorted[..j];
        var sample := controlSorted[j];
        if sample >= bucket.min as real && sample < bucket.max as real {
          bucket := bucket.(count := bucket.count.(control := bucket.count.control + 1));
        }
        j := j + 1;
      }
      assert controlSorted[..j] == controlSorted;
      j := 0;
      while j < |experimentSorted|
        invariant 0 <= j <= |experimentSorted|
        invariant bucket.min == buckets[i].min && bucket.max == buckets[i].max
        invariant bucket.count == Counts(buckets[i].count.control + CountIn(controlSorted, bucket.min, bucket.max),
                                              buckets[i].count.experiment + CountIn(experimentSorted[..j], bucket.min, bucket.max))
      {
        assert experimentSorted[..j + 1][..j] == experimentSorted[..j];
        var sample := experimentSorted[j];
        if sample >= bucket.min as real && sample < bucket.max as real {
          bucket := bucket.(count := bucket.count.(experiment := bucket.count.experiment + 1));
        }
        j := j + 1;
      }
      assert experimentSorted[..j] == experimentSorted;
      counted := counted[i := bucket];
      i := i + 1;
    }
  }

  /** The control and experiment counts of all buckets, added up. */
  function Totals(buckets: seq<Bucket>): Counts
  {
    if |buckets| == 0 then Counts(0, 0)
    else
      var t, last := Totals(buckets[..|buckets| - 1]), buckets[|buckets| - 1].count;
      Counts(t.control + last.control, t.experiment + last.experiment)
  }

  /** `count` only grows when the widened range is non-empty, so the edges
      ascend. */
  lemma EdgesAscend(min: real, max: real, bucketCount: nat, i: nat, j: nat)
    requires bucketCount >= 1 && min - BufferWidth < max + BufferWidth && i <= j
    ensures Edge(min, max, bucketCount, i) <= Edge(min, max, bucketCount, j)
  {
    var inc := Increment(min, max, bucketCount);
    assert inc > 0.0;
    assert CountAt(min, max, bucketCount, j) - CountAt(min, max, bucketCount, i) == (j - i) as real * inc;
  }

  /** The layout: `bucketCount` buckets, the first starting at
      `Math.floor(min - 1)`, the last ending at `Math.floor(max + 1)`, each
      ending where the next begins, none reaching below its start. */
  lemma BucketsContiguous(range: StatsRange.Range, bucketCount: nat, control: seq<real>, experiment: seq<real>)
    requires bucketCount >= 1 && range.Range? && range.min <= range.max
    ensures var b := BucketsOf(range, bucketCount, control, experiment);
      |b| == bucketCount &&
      b[0].min == (range.min - BufferWidth).Floor &&
      b[bucketCount - 1].max == (range.max + BufferWidth).Floor &&
      (forall i :: 0 <= i < bucketCount - 1 ==> b[i].max == b[i + 1].min) &&
      (forall i :: 0 <= i < bucketCount ==> b[i].min <= b[i].max)
  {
    var min, max := range.min, range.max;
    CountBelowEnd(min, max, bucketCount, bucketCount);
    var inc := Increment(min, max, bucketCount);
    assert bucketCount as real * inc == (max + BufferWidth) - (min - BufferWidth);
    assert CountAt(min, max, bucketCount, bucketCount) == max + BufferWidth;
    forall i | 0 <= i < bucketCount
      ensures Edge(min, max, bucketCount, i) <= Edge(min, max, bucketCount, i + 1)
    {
      EdgesAscend(min, max, bucketCount, i, i + 1);
    }
  }

  /** Counting over `[lo, hi)` is counting over `[lo, mid)` plus over `[mid, hi)`. */
  lemma {:induction false} CountSplit(samples: seq<real>, lo: int, mid: int, hi: int)
    requires lo <= mid <= hi
    ensures CountIn(samples, lo, hi) == CountIn(samples, lo, mid) + CountIn(samples, mid, hi)
  {
    if |samples| > 0 {
      CountSplit(samples[..|samples| - 1], lo, mid, hi);
    }
  }

  /** When every sample lies in `[lo, hi)`, all of them are counted. */
  lemma {:induction false} CountAll(samples: seq<real>, lo: int, hi: int)
    requires forall x :: x in samples ==> lo as real <= x < hi as real
    ensures CountIn(samples, lo, hi) == |samples|
  {
    if |samples| > 0 {
      var init := samples[..|samples| - 1];
      assert forall x :: x in init ==> x in samples;
      assert samples[|samples| - 1] in samples;
      CountAll(init, lo, hi);
    }
  }

  /** Bucket `i` of a non-empty layout spans `[Edge(i), Edge(i + 1))` and
      counts the samples there. */
  lemma BucketAt(min: real, max: real, bucketCount: nat, control: seq<real>, experiment: seq<real>, i: nat)
    requires bucketCount >= 1 && min - BufferWidth < max + BufferWidth && i < bucketCount
    ensures var b := BucketsOf(StatsRange.Range(min, max), bucketCount, control, experiment);
      var lo, hi := Edge(min, max, bucketCount, i), Edge(min, max, bucketCount, i + 1);
      |b| == bucketCount && b[i] == Bucket(lo, hi, Counts(CountIn(control, lo, hi), CountIn(experiment, lo, hi)))
  {
  }

  /** The counts of the first `k` buckets add up to the samples in
      `[Edge(0), Edge(k))`. */
  lemma {:induction false} TotalsTelescope(min: real, max: real, bucketCount: nat, control: seq<real>, experiment: seq<real>, k: nat)
    requires bucketCount >= 1 && min - BufferWidth < max + BufferWidth && k <= bucketCount
    ensures var b := BucketsOf(StatsRange.Range(min, max), bucketCount, control, experiment);
      var lo, hi := Edge(min, max, bucketCount, 0), Edge(min, max, bucketCount, k);
      Totals(b[..k]) == Counts(CountIn(control, lo, hi), CountIn(experiment, lo, hi))
  {
    var b := BucketsOf(StatsRange.Range(min, max), bucketCount, control, experiment);
    var lo := Edge(min, max, bucketCount, 0);
    if k > 0 {
      TotalsTelescope(min, max, bucketCount, control, experiment, k - 1);
      BucketAt(min, max, bucketCount, control, experiment, k - 1);
      assert b[..k][..k - 1] == b[..k - 1];
      var mid, hi := Edge(min, max, bucketCount, k - 1), Edge(min, max, bucketCount, k);
      assert b[..k][k - 1].count == Counts(CountIn(control, mid, hi), CountIn(experiment, mid, hi));
      EdgesAscend(min, max, bucketCount, 0, k - 1);
      EdgesAscend(min, max, bucketCount, k - 1, k);
      CountSplit(control, lo, mid, hi);
      CountSplit(experiment, lo, mid, hi);
    } else {
      CountSplit(control, lo, lo, lo);
      CountSplit(experiment, lo, lo, lo);
    }
  }

  /** Every sample is caught: the outer edges enclose the whole range. */
  lemma OuterEdgesEnclose(range: StatsRange.Range, bucketCount: nat, x: real)
    requires bucketCount >= 1 && StatsRange.Within(range, x)
    ensures Edge(range.min, range.max, bucketCount, 0) as real <= x < Edge(range.min, range.max, bucketCount, bucketCount) as real
  {
    var min, max := range.min, range.max;
    var inc := Increment(min, max, bucketCount);
    assert bucketCount as real * inc == (max + BufferWidth) - (min - BufferWidth);
    assert CountAt(min, max, bucketCount, bucketCount) == max + BufferWidth;
  }

  /** Since the buffer widens the range, the bucket counts add up to the
      sample counts of both arrays: every sample is counted exactly once. */
  lemma BucketTotalsMatchSampleCounts(control: seq<real>, experiment: seq<real>, bucketCount: nat)
    requires bucketCount >= 1
    ensures var range := StatsRange.GetRange(control, experiment);
      Totals(BucketsOf(range, bucketCount, control, experiment)) == Counts(|control|, |experiment|)
  {
    var range := StatsRange.GetRange(control, experiment);
    if range.Range? {
      var min, max := range.min, range.max;
      var b := BucketsOf(range, bucketCount, control, experiment);
      TotalsTelescope(min, max, bucketCount, control, experiment, bucketCount);
      assert b[..bucketCount] == b;
      var lo, hi := Edge(min, max, bucketCount, 0), Edge(min, max, bucketCount, bucketCount);
      forall x | x in control || x in experiment
        ensures lo as real <= x < hi as real
      {
        OuterEdgesEnclose(range, bucketCount, x);
      }
      CountAll(control, lo, hi);
      CountAll(experiment, lo, hi);
    }
  }

  /** A sample in the range lies in exactly one bucket. */
  lemma InExactlyOneBucket(range: StatsRange.Range, bucketCount: nat, control: seq<real>, experiment: seq<real>, x: real)
    requires bucketCount >= 1 && StatsRange.Within(range, x)
    ensures var b := BucketsOf(range, bucketCount, control, experiment);
      (exists i :: 0 <= i < |b| && b[i].min as real <= x < b[i].max as real) &&
      (forall i, j ::
         0 <= i < |b| && 0 <= j < |b| &&
         b[i].min as real <= x < b[i].max as real &&
         b[j].min as real <= x < b[j].max as real
         ==> i == j)
  {
    var min, max := range.min, range.max;
    var b := BucketsOf(range, bucketCount, control, experiment);
    OuterEdgesEnclose(range, bucketCount, x);
    var i := FindBucket(min, max, bucketCount, x, bucketCount);
    assert b[i].min as real <= x < b[i].max as real;
    forall i, j | 0 <= i < |b| && 0 <= j < |b| && b[i].min as real <= x < b[i].max as real
                  && b[j].min as real <= x < b[j].max as real
      ensures i == j
    {
      if i < j {
        EdgesAscend(min, max, bucketCount, i + 1, j);
      } else if j < i {
        EdgesAscend(min, max, bucketCount, j + 1, i);
      }
    }
  }

  /** The bucket below edge `k` that holds a sample between the first edge
      and edge `k`. */
  lemma {:induction false} FindBucket(min: real, max: real, bucketCount: nat, x: real, k: nat) returns (i: nat)
    requires bucketCount >= 1 && min - BufferWidth < max + BufferWidth && k <= bucketCount
    requires Edge(min, max, bucketCount, 0) as real <= x < Edge(min, max, bucketCount, k) as real
    ensures i < k && Edge(min, max, bucketCount, i) as real <= x < Edge(min, max, bucketCount, i + 1) as real
  {
    if Edge(min, max, bucketCount, k - 1) as real <= x {
      i := k - 1;
    } else {
      i := FindBucket(min, max, bucketCount, x, k - 1);
    }
  }
}
