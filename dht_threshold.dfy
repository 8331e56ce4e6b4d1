/** The tick threshold of the DHT drivers: the tick count above which a
    sampled pulse is a one bit. The forty pulse lengths of a frame are put in a
    ten-bucket histogram; the two highest peaks of the histogram are taken as
    the typical lengths of zero and one bits, and the threshold is the mean of
    the two. */
module DhtThreshold {
  import opened Common

  /** Number of histogram buckets. */
  const BucketCount := 10

  /** Exclusive bound on tick counts under which no u32 intermediate of the
      computation overflows; a pulse of a real frame is a few hundred ticks. */
  const TickLimit := 0x1000_0000

  predicate Bounded(ticks: seq<u32>)
  {
    forall i :: 0 <= i < |ticks| ==> ticks[i] < TickLimit
  }

  predicate AtLeast(ticks: seq<u32>, lo: u32)
  {
    forall i :: 0 <= i < |ticks| ==> lo <= ticks[i]
  }

  /** The running minimum of the source: starts at u32::MAX. */
  function Lowest(ticks: seq<u32>): u32
  {
    if |ticks| == 0 then U32_MAX
    else
      var m := Lowest(ticks[..|ticks| - 1]);
      if ticks[|ticks| - 1] < m then ticks[|ticks| - 1] else m
  }

  /** The running maximum of the source: starts at 0. */
  function Highest(ticks: seq<u32>): u32
  {
    if |ticks| == 0 then 0
    else
      var m := Highest(ticks[..|ticks| - 1]);
      if ticks[|ticks| - 1] > m then ticks[|ticks| - 1] else m
  }

  lemma {:induction false} LowestIsMinimum(ticks: seq<u32>)
    requires |ticks| > 0
    ensures Lowest(ticks) in ticks
    ensures AtLeast(ticks, Lowest(ticks))
  {
    var n := |ticks|;
    if n > 1 {
      var prefix := ticks[..n - 1];
      LowestIsMinimum(prefix);
      assert forall i :: 0 <= i < n - 1 ==> ticks[i] == prefix[i];
    }
  }

  lemma {:induction false} HighestIsMaximum(ticks: seq<u32>)
    requires |ticks| > 0
    ensures Highest(ticks) in ticks
    ensures forall i :: 0 <= i < |ticks| ==> ticks[i] <= Highest(ticks)
  {
    var n := |ticks|;
    if n > 1 {
      var prefix := ticks[..n - 1];
      HighestIsMaximum(prefix);
      assert forall i :: 0 <= i < n - 1 ==> ticks[i] == prefix[i];
    }
  }

  /** The bucket a pulse of `t` ticks falls in: its offset from the minimum
      scaled to ten buckets, clamped to the last bucket. */
  function BucketIndex(t: u32, lo: u32, range: u32): (b: nat)
    requires lo <= t < TickLimit && 0 < range
    ensures b < BucketCount
  {
    var scaled: u32 := (t - lo) * BucketCount;
    var b := scaled / range;
    if b >= BucketCount then BucketCount - 1 else b
  }

  /** The histogram of the source: each pulse adds one to its bucket. */
  function Histogram(ticks: seq<u32>, lo: u32, range: u32): (h: seq<nat>)
    requires Bounded(ticks) && AtLeast(ticks, lo) && 0 < range
    ensures |h| == BucketCount
  {
    if |ticks| == 0 then seq(BucketCount, _ => 0)
    else
      var h := Histogram(ticks[..|ticks| - 1], lo, range);
      var b := BucketIndex(ticks[|ticks| - 1], lo, range);
      h[b := h[b] + 1]
  }

  function Sum(h: seq<nat>): nat
  {
    if |h| == 0 then 0 else Sum(h[..|h| - 1]) + h[|h| - 1]
  }

  lemma {:induction false} SumOfZeros(h: seq<nat>)
    requires forall i :: 0 <= i < |h| ==> h[i] == 0
    ensures Sum(h) == 0
  {
    if |h| > 0 {
      SumOfZeros(h[..|h| - 1]);
    }
  }

  lemma {:induction false} SumIncrement(h: seq<nat>, b: nat)
    requires b < |h|
    ensures Sum(h[b := h[b] + 1]) == Sum(h) + 1
  {
    var n := |h|;
    var g := h[b := h[b] + 1];
    if b < n - 1 {
      assert g[..n - 1] == h[..n - 1][b := h[b] + 1];
      SumIncrement(h[..n - 1], b);
    } else {
      assert g[..n - 1] == h[..n - 1];
    }
  }

  /** Every pulse is counted in exactly one bucket: the counts add up to the
      number of pulses. */
  lemma {:induction false} HistogramTotal(ticks: seq<u32>, lo: u32, range: u32)
    requires Bounded(ticks) && AtLeast(ticks, lo) && 0 < range
    ensures Sum(Histogram(ticks, lo, range)) == |ticks|
  {
    if |ticks| == 0 {
      SumOfZeros(Histogram(ticks, lo, range));
    } else {
      var prefix := ticks[..|ticks| - 1];
      HistogramTotal(prefix, lo, range);
      SumIncrement(Histogram(prefix, lo, range), BucketIndex(ticks[|ticks| - 1], lo, range));
    }
  }

  /** A bucket is non-empty exactly when some pulse falls in it. */
  lemma {:induction false} HistogramOccupied(ticks: seq<u32>, lo: u32, range: u32, b: nat)
    requires Bounded(ticks) && AtLeast(ticks, lo) && 0 < range && b < BucketCount
    ensures Histogram(ticks, lo, range)[b] > 0
      <==> exists i :: 0 <= i < |ticks| && BucketIndex(ticks[i], lo, range) == b
  {
    if |ticks| > 0 {
      var n := |ticks|;
      var prefix := ticks[..n - 1];
      HistogramOccupied(prefix, lo, range, b);
      if exists i :: 0 <= i < n && BucketIndex(ticks[i], lo, range) == b {
        var i :| 0 <= i < n && BucketIndex(ticks[i], lo, range) == b;
        if i < n - 1 {
          assert BucketIndex(prefix[i], lo, range) == b;
        }
      } else {
        assert forall i :: 0 <= i < n - 1 ==> BucketIndex(prefix[i], lo, range) != b by {
          forall i | 0 <= i < n - 1
            ensures BucketIndex(prefix[i], lo, range) != b
          {
            assert prefix[i] == ticks[i];
          }
        }
      }
    }
  }

  /** (index, count) of a histogram peak; index -1 pads the peak table. */
  datatype Peak = Peak(index: int, count: nat)

  const Padding := Peak(-1, 0)

  /** A bucket is a peak when it holds more than the bucket before it (or more
      than nothing, for the first) and more than the bucket after it (the last
      bucket has none after it). */
  predicate IsPeak(h: seq<nat>, i: nat)
    requires |h| == BucketCount && i < BucketCount
  {
    var previous := if i == 0 then 0 else h[i - 1];
    h[i] > previous && (i == BucketCount - 1 || h[i] > h[i + 1])
  }

  /** The peaks among the first `n` buckets, in bucket order. */
  function PeaksBelow(h: seq<nat>, n: nat): (peaks: seq<Peak>)
    requires |h| == BucketCount && n <= BucketCount
    ensures |peaks| <= n
  {
    if n == 0 then []
    else
      var peaks := PeaksBelow(h, n - 1);
      if IsPeak(h, n - 1) then peaks + [Peak(n - 1, h[n - 1])] else peaks
  }

  /** The source's fixed table of ten peaks: the peaks found, then padding. */
  function PeakTable(h: seq<nat>): (table: seq<Peak>)
    requires |h| == BucketCount
    ensures |table| == BucketCount
  {
    var peaks := PeaksBelow(h, BucketCount);
    peaks + seq(BucketCount - |peaks|, _ => Padding)
  }

  /** Peaks are listed in increasing bucket order, carry their bucket's count,
      which is positive, and no two are adjacent, so there are at most five. */
  lemma {:induction false} PeaksBelowFacts(h: seq<nat>, n: nat)
    requires |h| == BucketCount && n <= BucketCount
    ensures var peaks := PeaksBelow(h, n);
      && |peaks| <= (n + 1) / 2
      && (forall k :: 0 <= k < |peaks| ==>
            0 <= peaks[k].index < n && peaks[k].count == h[peaks[k].index] > 0
            && IsPeak(h, peaks[k].index))
      && (forall j, k :: 0 <= j < k < |peaks| ==> peaks[j].index < peaks[k].index)
  {
    if n > 0 {
      PeaksBelowFacts(h, n - 1);
      if n > 1 && IsPeak(h, n - 1) {
        assert !IsPeak(h, n - 2);
        PeaksBelowFacts(h, n - 2);
      }
    }
  }

  /** One step of the source's selection of the two highest peaks. */
  function Rank(top: (Peak, Peak), p: Peak): (Peak, Peak)
  {
    if p.count > top.0.count then (p, top.0)
    else if p.count > top.1.count then (top.0, p)
    else top
  }

  /** The selection over a whole table, both candidates starting at `start`. */
  function RankAll(peaks: seq<Peak>, start: Peak): (Peak, Peak)
  {
    if |peaks| == 0 then (start, start)
    else Rank(RankAll(peaks[..|peaks| - 1], start), peaks[|peaks| - 1])
  }

  /** `top.0` is the highest of `peaks` (the earliest one on a tie) and
      `top.1` the highest of the others (again the earliest on a tie). */
  predicate TopTwo(peaks: seq<Peak>, top: (Peak, Peak))
  {
    && top.0 in peaks && top.1 in peaks && top.0.index != top.1.index
    && (forall k :: 0 <= k < |peaks| ==> peaks[k].count <= top.0.count)
    && (forall k :: 0 <= k < |peaks| && peaks[k].index < top.0.index ==> peaks[k].count < top.0.count)
    && (forall k :: 0 <= k < |peaks| && peaks[k].index != top.0.index ==> peaks[k].count <= top.1.count)
    && (forall k :: 0 <= k < |peaks| && peaks[k].index != top.0.index && peaks[k].index < top.1.index ==>
          peaks[k].count < top.1.count)
  }

  predicate Increasing(peaks: seq<Peak>)
  {
    forall j, k :: 0 <= j < k < |peaks| ==> peaks[j].index < peaks[k].index
  }

  predicate Positive(peaks: seq<Peak>)
  {
    forall k :: 0 <= k < |peaks| ==> peaks[k].count > 0
  }

  /** Over at least two real peaks the selection finds the top two. */
  lemma {:induction false} RankAllFindsTopTwo(peaks: seq<Peak>)
    requires |peaks| >= 2 && Increasing(peaks) && Positive(peaks)
    ensures TopTwo(peaks, RankAll(peaks, Padding))
  {
    var n := |peaks|;
    var prefix := peaks[..n - 1];
    var p := peaks[n - 1];
    if n == 2 {
      assert prefix[..0] == [];
      assert RankAll(prefix, Padding) == (peaks[0], Padding);
    } else {
      RankAllFindsTopTwo(prefix);
      assert peaks == prefix + [p];
      RankStep(prefix, p, RankAll(prefix, Padding));
    }
  }

  /** One step of the selection keeps the top two of the peaks seen so far
      when the new peak lies after all of them. */
  lemma RankStep(prefix: seq<Peak>, p: Peak, top: (Peak, Peak))
    requires TopTwo(prefix, top)
    requires forall k :: 0 <= k < |prefix| ==> prefix[k].index < p.index
    ensures TopTwo(prefix + [p], Rank(top, p))
  {
    var peaks := prefix + [p];
    assert forall k :: 0 <= k < |prefix| ==> peaks[k] == prefix[k];
    assert top.0.index < p.index && top.1.index < p.index;
  }

  /** Padding entries never displace a candidate. */
  lemma {:induction false} RankAllIgnoresPadding(peaks: seq<Peak>, n: nat)
    ensures RankAll(peaks + seq(n, _ => Padding), Padding) == RankAll(peaks, Padding)
  {
    if n > 0 {
      var padded := peaks + seq(n, _ => Padding);
      assert padded[..|padded| - 1] == peaks + seq(n - 1, _ => Padding);
      RankAllIgnoresPadding(peaks, n - 1);
    } else {
      assert peaks + seq(n, _ => Padding) == peaks;
    }
  }

  /** With two or more peaks, the selection over the padded table, started
      at its last entry as in the source, picks two real peaks: the top two. */
  lemma SelectedPeaks(h: seq<nat>)
    requires |h| == BucketCount && |PeaksBelow(h, BucketCount)| >= 2
    ensures var table := PeakTable(h);
      var top := RankAll(table, table[BucketCount - 1]);
      && TopTwo(PeaksBelow(h, BucketCount), top)
      && 0 <= top.0.index < BucketCount && 0 <= top.1.index < BucketCount
  {
    var peaks := PeaksBelow(h, BucketCount);
    PeaksBelowFacts(h, BucketCount);
    assert PeakTable(h)[BucketCount - 1] == Padding;
    RankAllIgnoresPadding(peaks, BucketCount - |peaks|);
    RankAllFindsTopTwo(peaks);
  }

  lemma ScaledIndexBound(range: nat, index: nat)
    requires 1 <= range && index < BucketCount - 1
    ensures 0 <= range * index / BucketCount <= range * (index + 1) / BucketCount <= range - 1
  {
    var a := range * index;
    var b := range * (index + 1);
    assert a <= b <= range * (BucketCount - 1);
    DivideMonotone(a, b);
    DivideMonotone(b, range * (BucketCount - 1));
  }

  lemma DivideMonotone(a: nat, b: nat)
    requires a <= b
    ensures a / BucketCount <= b / BucketCount
  {
  }

  /** The approximate tick count of a bucket: the middle of its tick range,
      or the maximum for the last bucket. */
  function IndexToTicks(index: int, lo: u32, hi: u32, range: u32): (ticks: u32)
    requires 0 <= index < BucketCount && lo <= hi < TickLimit && range == hi - lo + 1
    ensures lo <= ticks <= hi
  {
    if index == BucketCount - 1 then hi
    else
      ScaledIndexBound(range, index);
      var base: u32 := range * index / BucketCount + lo;
      var nextBase: u32 := range * (index + 1) / BucketCount + lo;
      (base + nextBase) / 2
  }

  lemma MulMonotone(r: nat, a: nat, b: nat)
    requires a <= b
    ensures r * a <= r * b
  {
  }

  /** A later bucket never maps to fewer ticks. */
  lemma IndexToTicksMonotone(i: int, j: int, lo: u32, hi: u32, range: u32)
    requires 0 <= i <= j < BucketCount && lo <= hi < TickLimit && range == hi - lo + 1
    ensures IndexToTicks(i, lo, hi, range) <= IndexToTicks(j, lo, hi, range)
  {
    if j < BucketCount - 1 {
      MulMonotone(range, i, j);
      MulMonotone(range, i + 1, j + 1);
      var bi, bj := range * i / BucketCount, range * j / BucketCount;
      var ni, nj := range * (i + 1) / BucketCount, range * (j + 1) / BucketCount;
      assert bi <= bj && ni <= nj;
    }
  }

  /** The threshold of a frame's pulses, as the source computes it. It always
      lies between the shortest and the longest pulse. */
  function TickThreshold(ticks: seq<u32>): (threshold: u32)
    requires |ticks| > 0 && Bounded(ticks)
    ensures Lowest(ticks) <= threshold <= Highest(ticks)
  {
    LowestIsMinimum(ticks);
    HighestIsMaximum(ticks);
    var lo := Lowest(ticks);
    var hi := Highest(ticks);
    var range: u32 := hi - lo + 1;
    var h := Histogram(ticks, lo, range);
    if |PeaksBelow(h, BucketCount)| < 2 then lo + range / 2
    else
      SelectedPeaks(h);
      var table := PeakTable(h);
      var top := RankAll(table, table[BucketCount - 1]);
      var highTicks := if top.0.index > top.1.index then IndexToTicks(top.0.index, lo, hi, range)
                       else IndexToTicks(top.1.index, lo, hi, range);
      var lowTicks := if top.0.index > top.1.index then IndexToTicks(top.1.index, lo, hi, range)
                      else IndexToTicks(top.0.index, lo, hi, range);
      (highTicks + lowTicks) / 2
  }

  /** The first loop of determine_tick_threshold: minimum and maximum. */
  method FindRange(bitTicks: seq<u32>) returns (lo: u32, hi: u32)
    requires |bitTicks| > 0 && Bounded(bitTicks)
    ensures lo == Lowest(bitTicks) && hi == Highest(bitTicks)
  {
    lo := U32_MAX;
    hi := 0;
    for i := 0 to |bitTicks|
      invariant lo == Lowest(bitTicks[..i]) && hi == Highest(bitTicks[..i])
    {
      assert bitTicks[..i + 1][..i] == bitTicks[..i];
      if bitTicks[i] < lo {
        lo := bitTicks[i];
      }
      if bitTicks[i] > hi {
        hi := bitTicks[i];
      }
    }
    assert bitTicks[..|bitTicks|] == bitTicks;
  }

  /** One more pulse adds one to its bucket. */
  lemma HistogramStep(ticks: seq<u32>, i: nat, lo: u32, range: u32)
    requires Bounded(ticks) && AtLeast(ticks, lo) && 0 < range && i < |ticks|
    ensures var h := Histogram(ticks[..i], lo, range);
      var b := BucketIndex(ticks[i], lo, range);
      Histogram(ticks[..i + 1], lo, range) == h[b := h[b] + 1]
  {
    assert ticks[..i + 1][..i] == ticks[..i];
  }

  /** The second loop: the histogram, in a fresh ten-entry array. */
  method FillHistogram(bitTicks: seq<u32>, lo: u32, range: u32) returns (buckets: array<nat>)
    requires Bounded(bitTicks) && AtLeast(bitTicks, lo) && 0 < range
    ensures fresh(buckets)
    ensures buckets[..] == Histogram(bitTicks, lo, range)
  {
    buckets := new nat[BucketCount](_ => 0);
    for i := 0 to |bitTicks|
      invariant buckets.Length == BucketCount
      invariant buckets[..] == Histogram(bitTicks[..i], lo, range)
    {
      var scaled: u32 := (bitTicks[i] - lo) * buckets.Length;
      var bucket := scaled / range;
      if bucket >= buckets.Length {
        bucket := buckets.Length - 1;
      }
      HistogramStep(bitTicks, i, lo, range);
      buckets[bucket] := buckets[bucket] + 1;
    }
    assert bitTicks[..|bitTicks|] == bitTicks;
  }

  /** The third loop: the peaks of the histogram, in a fresh padded table. */
  method FindPeaks(buckets: array<nat>) returns (peaks: array<Peak>, numPeaks: nat)
    requires buckets.Length == BucketCount
    ensures fresh(peaks)
    ensures numPeaks == |PeaksBelow(buckets[..], BucketCount)|
    ensures peaks[..] == PeakTable(buckets[..])
  {
    ghost var h := buckets[..];
    peaks := new Peak[BucketCount](_ => Padding);
    var previousCount: nat := 0;
    numPeaks := 0;
    for i := 0 to buckets.Length
      invariant peaks.Length == BucketCount
      invariant numPeaks == |PeaksBelow(h, i)|
      invariant forall k :: 0 <= k < numPeaks ==> peaks[k] == PeaksBelow(h, i)[k]
      invariant forall k :: numPeaks <= k < BucketCount ==> peaks[k] == Padding
      invariant previousCount == if i == 0 then 0 else h[i - 1]
    {
      var count := buckets[i];
      if count > previousCount {
        if i == buckets.Length - 1 || count > buckets[i + 1] {
          peaks[numPeaks] := Peak(i, count);
          numPeaks := numPeaks + 1;
        }
      }
      previousCount := count;
    }
    assert peaks[..] == PeakTable(h);
  }

  /** The fourth loop: the two highest peaks, both starting at the last entry. */
  method SelectTopTwo(peaks: array<Peak>) returns (highest: Peak, second: Peak)
    requires peaks.Length == BucketCount
    ensures highest == RankAll(peaks[..], peaks[BucketCount - 1]).0
    ensures second == RankAll(peaks[..], peaks[BucketCount - 1]).1
  {
    highest := peaks[peaks.Length - 1];
    second := peaks[peaks.Length - 1];
    for i := 0 to peaks.Length
      invariant (highest, second) == RankAll(peaks[..i], peaks[BucketCount - 1])
    {
      assert peaks[..i + 1][..i] == peaks[..i];
      var peak := peaks[i];
      if peak.count > highest.count {
        second := highest;
        highest := peak;
      } else if peak.count > second.count {
        second := peak;
      }
    }
    assert peaks[..BucketCount] == peaks[..];
  }

  /** determine_tick_threshold, its four loops run in order. */
  method DetermineTickThreshold(bitTicks: seq<u32>) returns (threshold: u32)
    requires |bitTicks| > 0 && Bounded(bitTicks)
    ensures threshold == TickThreshold(bitTicks)
  {
    var lo, hi := FindRange(bitTicks);
    LowestIsMinimum(bitTicks);
    HighestIsMaximum(bitTicks);

    var range: u32 := hi - lo + 1;
    var buckets := FillHistogram(bitTicks, lo, range);
    var peaks, numPeaks := FindPeaks(buckets);

    // Take the midpoint if two peaks were not found.
    if numPeaks < 2 {
      return lo + range / 2;
    }

    ghost var h := buckets[..];
    ghost var table := PeakTable(h);
    var highest, second := SelectTopTwo(peaks);
    SelectedPeaks(h);
    assert highest == RankAll(table, table[BucketCount - 1]).0;
    assert second == RankAll(table, table[BucketCount - 1]).1;

    var highTicks: u32;
    var lowTicks: u32;
    if highest.index > second.index {
      highTicks := IndexToTicks(highest.index, lo, hi, range);
      lowTicks := IndexToTicks(second.index, lo, hi, range);
    } else {
      lowTicks := IndexToTicks(highest.index, lo, hi, range);
      highTicks := IndexToTicks(second.index, lo, hi, range);
    }
    // Use the mean of the two peaks as the threshold.
    threshold := (highTicks + lowTicks) / 2;
  }
}
