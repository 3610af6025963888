/** `getSparkline`: one of eight bar glyphs per number, scaled between a minimum
    and a maximum that default to those of the numbers. */
module StatsSparkline {
  import JsMath

  /** The eight bars, lowest first. */
  const Ticks: seq<char> := ['\U{2581}', '\U{2582}', '\U{2583}', '\U{2584}', '\U{2585}', '\U{2586}', '\U{2587}', '\U{2588}']

  /** The local `lshift(n, bits)`: `Math.floor(n) * Math.pow(2, bits)`. It
      scales the whole part of `n` away from zero and keeps its sign. */
  function Lshift(n: real, bits: nat): (r: int)
    ensures 0.0 <= n ==> n.Floor <= r
    ensures n < 0.0 ==> r <= n.Floor < 0
  {
    n.Floor * JsMath.Pow2(bits)
  }

  /** The divisor `f`: `Math.floor(lshift(max - min, 8) / (ticks.length - 1))`,
      raised to 1 when it is smaller. */
  function Divisor(min: real, max: real): (f: int)
    ensures f >= 1
    ensures max - min >= 1.0 ==> f == Lshift(max - min, 8) / (|Ticks| - 1)
  {
    var f := (Lshift(max - min, 8) as real / (|Ticks| - 1) as real).Floor;
    JsMath.FloorOfQuotient(Lshift(max - min, 8), |Ticks| - 1);
    if f < 1 then 1 else f
  }

  /** The index `Math.floor(lshift(n - min, 8) / f)` into `Ticks` for `n`: the
      number of whole divisors in the shifted offset. */
  function TickIndex(n: real, min: real, f: int): (r: int)
    requires f >= 1
    ensures r * f <= Lshift(n - min, 8) < (r + 1) * f
  {
    var x := Lshift(n - min, 8);
    JsMath.FloorOfQuotient(x, f);
    (x as real / f as real).Floor
  }

  /** The glyph pushed for an index: `ticks[i]`, or `undefined`, which
      `Array.prototype.join` renders as the empty string. */
  function Glyph(i: int): (g: string)
    ensures |g| <= 1
    ensures g != "" <==> 0 <= i < |Ticks|
    ensures forall c :: c in g ==> c in Ticks
  {
    if 0 <= i < |Ticks| then [Ticks[i]] else ""
  }

  /** The glyphs pushed into `results`, one per number, in order. */
  function Glyphs(numbers: seq<real>, min: real, f: int): (g: seq<string>)
    requires f >= 1
  {
    if |numbers| == 0 then []
    else Glyphs(numbers[..|numbers| - 1], min, f) + [Glyph(TickIndex(numbers[|numbers| - 1], min, f))]
  }

  /** The summed length of the parts. */
  function TotalLength(parts: seq<string>): nat
  {
    if |parts| == 0 then 0 else TotalLength(parts[..|parts| - 1]) + |parts[|parts| - 1]|
  }

  /** `results.join('')`: the line is as long as all parts together, every
      character of the line comes from one of the parts, and every character
      of every part is in the line. */
  function Join(parts: seq<string>): (r: string)
    ensures |r| == TotalLength(parts)
    ensures forall c :: c in r ==> exists i :: 0 <= i < |parts| && c in parts[i]
    ensures forall i, c :: 0 <= i < |parts| && c in parts[i] ==> c in r
  {
    if |parts| == 0 then "" else Join(parts[..|parts| - 1]) + parts[|parts| - 1]
  }

  /** `getSparkline(numbers, min, max)` with both bounds given. */
  method GetSparkline(numbers: seq<real>, min: real, max: real) returns (line: string)
    ensures line == Join(Glyphs(numbers, min, Divisor(min, max)))
  {
    var f := (Lshift(max - min, 8) as real / (|Ticks| - 1) as real).Floor;
    if f < 1 {
      f := 1;
    }
    var results: seq<string> := [];
    var i := 0;
    while i < |numbers|
      invariant 0 <= i <= |numbers|
      invariant f == Divisor(min, max)
      invariant results == Glyphs(numbers[..i], min, f)
    {
      assert numbers[..i + 1][..i] == numbers[..i];
      var value := Glyph((Lshift(numbers[i] - min, 8) as real / f as real).Floor);
      results := results + [value];
      i := i + 1;
    }
    assert numbers[..i] == numbers;
    line := Join(results);
  }

  /** `getSparkline(numbers)`: the bounds default to `Math.min` and `Math.max`
      of the numbers. With no numbers those are infinite, but no glyph is
      pushed, so the line is empty. */
  method GetSparklineDefault(numbers: seq<real>) returns (line: string)
    ensures |line| == |numbers|
    ensures forall i :: 0 <= i < |line| ==> line[i] in Ticks
    ensures |numbers| > 0 ==>
      line == Join(Glyphs(numbers, JsMath.MinOf(numbers), Divisor(JsMath.MinOf(numbers), JsMath.MaxOf(numbers))))
  {
    if |numbers| == 0 {
      line := "";
    } else {
      var min, max := JsMath.MinOf(numbers), JsMath.MaxOf(numbers);
      line := GetSparkline(numbers, min, max);
      SparklineInBounds(numbers, min, max);
    }
  }

  /** A quotient is below `k` when the dividend is below `k` divisors. */
  lemma QuotientBelow(x: int, f: int, k: int)
    requires f > 0 && 0 <= x < k * f
    ensures x / f < k
  {
    var q := x / f;
    assert q * f <= x;
    assert (k - q) * f > 0;
  }

  /** A quotient is at least `k` when the dividend is at least `k` divisors. */
  lemma QuotientAtLeast(x: int, f: int, k: int)
    requires f > 0 && k * f <= x
    ensures k <= x / f
  {
    var q := x / f;
    assert x < q * f + f;
    assert (q + 1 - k) * f > 0;
  }

  /** The index arithmetic once the bounds are at least one unit apart: for
      whole-unit offsets `0 <= d <= span` and `f = floor(256 * span / 7)`, the
      index of `d` is between 0 and 7, and the index of `span` itself is 7. */
  lemma ScaledIndexBounds(d: int, span: int, f: int)
    requires 1 <= span && 0 <= d <= span && f == 256 * span / 7
    ensures 0 <= 256 * d / f <= 7 && 256 * span / f == 7
  {
    assert 7 * f <= 256 * span < 7 * f + 7;
    assert f >= 36;
    QuotientBelow(256 * d, f, 8);
    QuotientBelow(256 * span, f, 8);
    QuotientAtLeast(256 * span, f, 7);
    QuotientAtLeast(256 * d, f, 0);
  }

  /** The index of a number between the bounds picks a tick; the minimum maps
      to the lowest tick, and the maximum to the highest once the bounds are at
      least one unit apart. */
  lemma TickIndexInBounds(n: real, min: real, max: real)
    requires min <= n <= max
    ensures 0 <= TickIndex(n, min, Divisor(min, max)) < |Ticks|
    ensures TickIndex(min, min, Divisor(min, max)) == 0
    ensures max - min >= 1.0 ==> TickIndex(max, min, Divisor(min, max)) == |Ticks| - 1
  {
    assert JsMath.Pow2(8) == 256;
    var d, span := (n - min).Floor, (max - min).Floor;
    assert 0 <= d <= span;
    var f := Divisor(min, max);
    JsMath.FloorOfQuotient(256 * span, 7);
    JsMath.FloorOfQuotient(256 * d, f);
    JsMath.FloorOfQuotient(0, f);
    JsMath.FloorOfQuotient(256 * span, f);
    if span == 0 {
      assert f == 1 && d == 0;
    } else {
      assert f == 256 * span / 7;
      ScaledIndexBounds(d, span, f);
    }
  }

  /** The glyph of each number is one character, the tick at its index. */
  lemma {:induction false} GlyphsInBounds(numbers: seq<real>, min: real, max: real)
    requires forall x :: x in numbers ==> min <= x <= max
    ensures var g := Glyphs(numbers, min, Divisor(min, max));
      |g| == |numbers| &&
      forall i :: 0 <= i < |g| ==>
        0 <= TickIndex(numbers[i], min, Divisor(min, max)) < |Ticks| &&
        g[i] == [Ticks[TickIndex(numbers[i], min, Divisor(min, max))]]
  {
    if |numbers| > 0 {
      var init := numbers[..|numbers| - 1];
      assert forall x :: x in init ==> x in numbers;
      GlyphsInBounds(init, min, max);
      assert numbers[|numbers| - 1] in numbers;
      TickIndexInBounds(numbers[|numbers| - 1], min, max);
    }
  }

  /** Each part sits in the line at the offset given by the lengths of the
      parts before it, so the parts appear whole and in order. */
  lemma {:induction false} JoinPositions(parts: seq<string>)
    ensures forall i :: 0 <= i < |parts| ==>
      TotalLength(parts[..i]) + |parts[i]| <= |Join(parts)| &&
      Join(parts)[TotalLength(parts[..i])..TotalLength(parts[..i]) + |parts[i]|] == parts[i]
  {
    if |parts| > 0 {
      var n := |parts| - 1;
      var init := parts[..n];
      JoinPositions(init);
      var j := Join(init);
      assert Join(parts) == j + parts[n];
      forall i | 0 <= i < |parts|
        ensures TotalLength(parts[..i]) + |parts[i]| <= |Join(parts)|
        ensures Join(parts)[TotalLength(parts[..i])..TotalLength(parts[..i]) + |parts[i]|] == parts[i]
      {
        if i < n {
          assert parts[..i] == init[..i];
          var lo := TotalLength(init[..i]);
          assert j[lo..lo + |init[i]|] == init[i];
          assert (j + parts[n])[lo..lo + |parts[i]|] == j[lo..lo + |parts[i]|];
        } else {
          assert parts[..i] == init;
          assert (j + parts[n])[|j|..|j| + |parts[n]|] == parts[n];
        }
      }
    }
  }

  /** Joining one-character parts gives one character per part. */
  lemma {:induction false} JoinSingles(parts: seq<string>)
    requires forall i :: 0 <= i < |parts| ==> |parts[i]| == 1
    ensures |Join(parts)| == |parts|
    ensures forall i :: 0 <= i < |parts| ==> Join(parts)[i] == parts[i][0]
  {
    if |parts| > 0 {
      JoinSingles(parts[..|parts| - 1]);
    }
  }

  /** For numbers between the bounds, the sparkline has exactly one glyph per
      number, and each glyph is the tick at that number's index. */
  lemma SparklineInBounds(numbers: seq<real>, min: real, max: real)
    requires forall x :: x in numbers ==> min <= x <= max
    ensures var line := Join(Glyphs(numbers, min, Divisor(min, max)));
      |line| == |numbers| &&
      forall i :: 0 <= i < |line| ==>
        0 <= TickIndex(numbers[i], min, Divisor(min, max)) < |Ticks| &&
        line[i] == Ticks[TickIndex(numbers[i], min, Divisor(min, max))]
  {
    var g := Glyphs(numbers, min, Divisor(min, max));
    GlyphsInBounds(numbers, min, max);
    JoinSingles(g);
  }
}
