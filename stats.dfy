/** The `Stats` class: compares a control and an experiment sample array. The
    constructor sorts both arrays in place, records their lengths, their
    common range and the histogram buckets over that range. */
module Stats {
  import StatsSort
  import StatsRange
  import StatsBuckets

  /** `sampleCount`. */
  datatype SampleCount = SampleCount(control: nat, experiment: nat)

  /** The default `bucketCount` of `getBuckets`, the only one the constructor uses. */
  const DefaultBucketCount: nat := 12

  class Stats {
    const name: string
    const control: array<real>
    const experiment: array<real>
    const controlSorted: array<real>
    const experimentSorted: array<real>
    const sampleCount: SampleCount
    const range: StatsRange.Range
    const buckets: seq<StatsBuckets.Bucket>

    /** What the constructor establishes: the sorted arrays are the input
        arrays themselves, ascending, and the counts, range and buckets are
        those of their samples. */
    ghost predicate Valid()
      reads control, experiment
    {
      controlSorted == control && experimentSorted == experiment &&
      StatsSort.Ascending(control[..]) && StatsSort.Ascending(experiment[..]) &&
      sampleCount == SampleCount(control.Length, experiment.Length) &&
      range == StatsRange.GetRange(control[..], experiment[..]) &&
      buckets == StatsBuckets.BucketsOf(range, DefaultBucketCount, control[..], experiment[..])
    }

    /** `new Stats({ name, control, experiment })`. `controlSorted` and
        `experimentSorted` alias the input arrays, which `sort` reorders in
        place, so the caller's arrays end up sorted too, holding the same
        samples. */
    constructor (name: string, control: array<real>, experiment: array<real>)
      modifies control, experiment
      ensures Valid()
      ensures this.name == name && this.control == control && this.experiment == experiment
      ensures multiset(control[..]) == old(multiset(control[..]))
      ensures multiset(experiment[..]) == old(multiset(experiment[..]))
    {
      this.name := name;
      this.control := control;
      this.experiment := experiment;
      var controlSorted := control;
      var experimentSorted := experiment;
      StatsSort.SortAscending(controlSorted);
      this.controlSorted := controlSorted;
      StatsSort.SortAscending(experimentSorted);
      this.experimentSorted := experimentSorted;
      this.sampleCount := SampleCount(controlSorted.Length, experimentSorted.Length);
      var range := StatsRange.GetRange(controlSorted[..], experimentSorted[..]);
      this.range := range;
      var buckets := StatsBuckets.GetBuckets(range, controlSorted[..], experimentSorted[..], DefaultBucketCount);
      this.buckets := buckets;
    }

    /** Every sample of both arrays is counted in exactly one bucket, so the
        bucket counts add up to the sample counts. */
    lemma BucketsCountEverySample()
      requires Valid()
      ensures StatsBuckets.Totals(buckets) == StatsBuckets.Counts(sampleCount.control, sampleCount.experiment)
    {
      StatsBuckets.BucketTotalsMatchSampleCounts(control[..], experiment[..], DefaultBucketCount);
    }

    /** The range runs from the first to the last of the sorted samples. */
    lemma RangeFromSortedEnds()
      requires Valid() && control.Length > 0 && experiment.Length > 0
      ensures range.Range?
      ensures range.min == (if control[0] <= experiment[0] then control[0] else experiment[0])
      ensures range.max == (if control[control.Length - 1] >= experiment[experiment.Length - 1]
                            then control[control.Length - 1] else experiment[experiment.Length - 1])
    {
      var c, e := control[..], experiment[..];
      assert c[0] in c && e[0] in e && c[|c| - 1] in c && e[|e| - 1] in e;
      forall x | x in c ensures c[0] <= x <= c[|c| - 1] {
        var k :| 0 <= k < |c| && c[k] == x;
        assert 0 < k ==> c[0] <= c[k];
        assert k < |c| - 1 ==> c[k] <= c[|c| - 1];
      }
      forall x | x in e ensures e[0] <= x <= e[|e| - 1] {
        var k :| 0 <= k < |e| && e[k] == x;
        assert 0 < k ==> e[0] <= e[k];
        assert k < |e| - 1 ==> e[k] <= e[|e| - 1];
      }
    }
  }
}
