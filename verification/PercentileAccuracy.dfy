/** End to end: samples are counted into buckets, a percentile is computed from the counts alone, and the
    result is close to the sample that sorting all samples would have given.
 */
module PercentileAccuracy {
  import opened BucketTable
  import opened PercentileBuckets
  import opened Percentiles

  ghost predicate AreSamples(samples: seq<int>) {
    forall j :: 0 <= j < |samples| ==> 0 <= samples[j] <= INT64_MAX
  }

  /** How many samples fall into bucket i. */
  function Tally(samples: seq<int>, i: nat): nat
    requires AreSamples(samples)
  {
    if samples == [] then 0 else Tally(samples[1..], i) + (if IndexOf(samples[0]) == i then 1 else 0)
  }

  function Counts(samples: seq<int>): (counts: seq<int>)
    requires AreSamples(samples)
    ensures IsCounts(counts)
  {
    seq(BUCKETS, i requires 0 <= i < BUCKETS => Tally(samples, i))
  }

  /** One `++counts[PercentileBucketIndexOf(v)]` for every sample. */
  method CountSamples(samples: seq<int>) returns (counts: array<int>)
    requires AreSamples(samples)
    ensures fresh(counts) && counts[..] == Counts(samples)
  {
    counts := new int[BUCKETS](_ => 0);
    for j := 0 to |samples|
      invariant forall i :: 0 <= i < BUCKETS ==> counts[i] == Tally(samples[|samples| - j..], i)
    {
      var v := samples[|samples| - 1 - j];
      assert samples[|samples| - 1 - j..] == [v] + samples[|samples| - j..];
      counts[IndexOf(v)] := counts[IndexOf(v)] + 1;
    }
    assert samples[0..] == samples;
  }

  /** How many samples are less than q. */
  function NumBelow(samples: seq<int>, q: int): nat {
    if samples == [] then 0 else NumBelow(samples[1..], q) + (if samples[0] < q then 1 else 0)
  }

  /** How many samples fall into the first n buckets. */
  function InFirst(samples: seq<int>, n: nat): nat
    requires AreSamples(samples)
  {
    if samples == [] then 0 else InFirst(samples[1..], n) + (if IndexOf(samples[0]) < n then 1 else 0)
  }

  lemma {:induction false} InFirstStep(samples: seq<int>, n: nat)
    requires AreSamples(samples)
    ensures InFirst(samples, 0) == 0
    ensures InFirst(samples, n + 1) == InFirst(samples, n) + Tally(samples, n)
    ensures InFirst(samples, BUCKETS) == |samples|
  {
    if samples == [] {
    } else {
      InFirstStep(samples[1..], n);
    }
  }

  lemma {:induction false} SumIsInFirst(samples: seq<int>, n: nat)
    requires AreSamples(samples) && n <= BUCKETS
    ensures Sum(Counts(samples), n) == InFirst(samples, n)
  {
    InFirstStep(samples, n);
    if n != 0 {
      SumIsInFirst(samples, n - 1);
      InFirstStep(samples, n - 1);
    }
  }

  /** Because the index is monotone, everything in the buckets before q's is less than q, and everything up to
      q lies in the buckets up to q's. */
  lemma {:induction false} BucketsFollowOrder(samples: seq<int>, q: int)
    requires AreSamples(samples) && 0 <= q <= INT64_MAX
    ensures InFirst(samples, IndexOf(q)) <= NumBelow(samples, q)
    ensures NumBelow(samples, q + 1) <= InFirst(samples, IndexOf(q) + 1)
  {
    if samples == [] {
    } else {
      BucketsFollowOrder(samples[1..], q);
      if samples[0] <= q {
        IndexMonotone(samples[0], q);
      } else {
        IndexMonotone(q, samples[0]);
      }
    }
  }

  // ---------- the k-th smallest sample ----------

  /** q is the k-th smallest: fewer than k samples are below it and at least k are at most it. */
  ghost predicate IsKthSmallest(samples: seq<int>, k: nat, q: int) {
    q in samples && NumBelow(samples, q) < k <= NumBelow(samples, q + 1)
  }

  lemma {:induction false} NumBelowMonotone(samples: seq<int>, p: int, q: int)
    requires p <= q
    ensures NumBelow(samples, p) <= NumBelow(samples, q) <= |samples|
  {
    if samples == [] {
    } else {
      NumBelowMonotone(samples[1..], p, q);
    }
  }

  lemma {:induction false} NumBelowEnds(samples: seq<int>, lo: int, hi: int)
    requires forall s :: s in samples ==> lo <= s < hi
    ensures NumBelow(samples, lo) == 0 && NumBelow(samples, hi) == |samples|
  {
    if samples == [] {
    } else {
      assert samples[0] in samples && forall s :: s in samples[1..] ==> s in samples;
      NumBelowEnds(samples[1..], lo, hi);
    }
  }

  lemma {:induction false} OnlySamplesCount(samples: seq<int>, q: int)
    requires NumBelow(samples, q) < NumBelow(samples, q + 1)
    ensures q in samples
  {
    if samples[0] != q {
      OnlySamplesCount(samples[1..], q);
    }
  }

  /** There is exactly one k-th smallest sample for every rank k. */
  lemma KthSmallestExists(samples: seq<int>, k: nat) returns (q: int)
    requires AreSamples(samples) && 1 <= k <= |samples|
    ensures IsKthSmallest(samples, k, q)
  {
    NumBelowEnds(samples, 0, INT64_MAX + 1);
    q := 0;
    while NumBelow(samples, q + 1) < k
      invariant 0 <= q <= INT64_MAX && NumBelow(samples, q) < k
      decreases INT64_MAX - q
    {
      q := q + 1;
    }
    OnlySamplesCount(samples, q);
  }

  lemma KthSmallestUnique(samples: seq<int>, k: nat, q: int, r: int)
    requires IsKthSmallest(samples, k, q) && IsKthSmallest(samples, k, r)
    ensures q == r
  {
    if q < r {
      NumBelowMonotone(samples, q + 1, r);
    } else if r < q {
      NumBelowMonotone(samples, r + 1, q);
    }
  }

  /** The rank of the p-th percentile among n samples: p * n / 100, rounded up. */
  function Rank(p: real, n: nat): int {
    -((-p * n as real / 100.0).Floor)
  }

  lemma RankBounds(p: real, n: nat)
    requires 0 < n && 0.0 < p <= 100.0
    ensures 1 <= Rank(p, n) <= n
    ensures 100.0 * (Rank(p, n) - 1) as real < p * n as real <= 100.0 * Rank(p, n) as real
  {
    var x := -p * n as real / 100.0;
    assert x.Floor as real <= x < x.Floor as real + 1.0;
    PercentOf(p, n as real);
  }

  lemma PercentOf(p: real, n: real)
    requires 0.0 < p <= 100.0 && 0.0 < n
    ensures 0.0 < p * n <= 100.0 * n
    ensures -p * n / 100.0 == -(p * n / 100.0)
  {
  }

  // ---------- the bucket found is the bucket of the k-th smallest sample ----------

  lemma ShareAgainst(a: int, p: real, n: int)
    requires 0 < n
    ensures 100.0 * a as real / n as real < p <==> 100.0 * a as real < p * n as real
  {
    var t := n as real;
    var x := 100.0 * a as real / t;
    assert x * t == 100.0 * a as real;
    if x < p {
      TimesPositive(x, p, t);
    } else if p < x {
      TimesPositive(p, x, t);
    }
  }

  lemma ReachingIsBucketOf(samples: seq<int>, p: real, q: int)
    requires AreSamples(samples) && samples != [] && 0.0 < p <= 100.0
    requires Rank(p, |samples|) >= 0 && IsKthSmallest(samples, Rank(p, |samples|), q)
    ensures Sum(Counts(samples), BUCKETS) == |samples|
    ensures Reaching(Counts(samples), p, 0) == IndexOf(q)
  {
    var counts, i, n := Counts(samples), IndexOf(q), |samples|;
    InFirstStep(samples, 0);
    SumIsInFirst(samples, BUCKETS);
    SumIsInFirst(samples, i);
    SumIsInFirst(samples, i + 1);
    BucketsFollowOrder(samples, q);
    RankBounds(p, n);
    ShareAgainst(Sum(counts, i), p, n);
    ShareAgainst(Sum(counts, i + 1), p, n);
    assert Share(counts, i) < p <= Share(counts, i + 1);
    forall j | 0 < j <= i ensures Share(counts, j) < p {
      ShareMonotone(counts, j, i);
    }
    ReachingFrom(counts, p, i, 0);
  }

  // ---------- the value found lies in that bucket ----------

  /** The interpolated value, as the loop computes it, for lo < p <= hi. */
  lemma Interpolate(p: real, lo: real, hi: real, a: int, b: int)
    requires lo < p <= hi && a < b
    ensures var r := Scale(Fraction(p, Num(lo), Num(hi)), a, b);
            r.Num? && a as real < r.x <= b as real
  {
    DivideMonotone(p - lo, hi - lo, hi - lo);
    ScaleWithin((p - lo) / (hi - lo), a, b);
  }

  lemma ScaleWithin(f: real, a: int, b: int)
    requires 0.0 < f <= 1.0 && a < b
    ensures var r := Scale(Num(f), a, b); r.Num? && a as real < r.x <= b as real
  {
    var w := (b - a) as real;
    assert 0.0 < f * w <= 1.0 * w;
  }

  lemma ScaleMonotone(f: real, g: real, a: int, b: int)
    requires f <= g && a < b
    ensures Scale(Num(f), a, b).x <= Scale(Num(g), a, b).x
  {
    var w := (b - a) as real;
    assert f * w <= g * w;
  }

  lemma LowerBelowBound(i: nat)
    requires i < BUCKETS
    ensures Lower(i) < Bounds()[i]
  {
    if i > 0 {
      AdjacentIncrease(i - 1);
    }
  }

  /** For 0 < p <= 100 the percentile is a number inside the bucket found. */
  lemma PercentileInBucket(counts: seq<int>, p: real)
    requires IsCounts(counts) && Sum(counts, BUCKETS) != 0 && 0.0 < p <= 100.0
    ensures PercentileOf(counts, p).Num?
    ensures var i, r := Reaching(counts, p, 0), PercentileOf(counts, p).x;
            Lower(i) as real < r <= Bounds()[i] as real
  {
    var i := Reaching(counts, p, 0);
    ReachingBrackets(counts, p);
    LowerBelowBound(i);
    Interpolate(p, Share(counts, i), Share(counts, i + 1), Lower(i), Bounds()[i]);
  }

  /** A result is NaN exactly when there are no samples, or p is 0 and the first bucket is empty. */
  lemma NaNExactly(counts: seq<int>, p: real)
    requires IsCounts(counts) && 0.0 <= p <= 100.0
    ensures PercentileOf(counts, p).NaN? <==> Sum(counts, BUCKETS) == 0 || (p == 0.0 && counts[0] == 0)
  {
    if Sum(counts, BUCKETS) != 0 {
      if 0.0 < p {
        PercentileInBucket(counts, p);
      } else {
        ZeroPercentile(counts);
      }
    }
  }

  lemma ZeroPercentile(counts: seq<int>)
    requires IsCounts(counts) && Sum(counts, BUCKETS) != 0
    ensures PercentileOf(counts, 0.0).NaN? <==> counts[0] == 0
    ensures counts[0] != 0 ==> PercentileOf(counts, 0.0) == Num(0.0)
  {
    ShareEnds(counts);
    ShareMonotone(counts, 0, 1);
    ReachingFrom(counts, 0.0, 0, 0);
    ShareIsZero(counts, 1);
    assert Sum(counts, 1) == Sum(counts, 0) + counts[0];
    assert Reaching(counts, 0.0, 0) == 0;
    FractionOfZero(Share(counts, 0), Share(counts, 1));
  }

  lemma FractionOfZero(prevP: real, nextP: real)
    requires prevP == 0.0
    ensures Fraction(0.0, Num(prevP), Num(nextP)).NaN? <==> nextP == 0.0
    ensures nextP != 0.0 ==> Fraction(0.0, Num(prevP), Num(nextP)) == Num(0.0)
  {
  }

  lemma ShareIsZero(counts: seq<int>, n: nat)
    requires |counts| == BUCKETS && n <= BUCKETS && Sum(counts, BUCKETS) != 0
    ensures Share(counts, n) == 0.0 <==> Sum(counts, n) == 0
  {
    assert Share(counts, n) * Sum(counts, BUCKETS) as real == 100.0 * Sum(counts, n) as real;
  }

  /** Larger percentiles give larger values. */
  lemma PercentileMonotone(counts: seq<int>, p: real, q: real)
    requires IsCounts(counts) && Sum(counts, BUCKETS) != 0 && 0.0 < p <= q <= 100.0
    ensures PercentileOf(counts, p).Num? && PercentileOf(counts, q).Num?
    ensures PercentileOf(counts, p).x <= PercentileOf(counts, q).x
  {
    PercentileInBucket(counts, p);
    PercentileInBucket(counts, q);
    ReachingBrackets(counts, p);
    ReachingBrackets(counts, q);
    var i, j := Reaching(counts, p, 0), Reaching(counts, q, 0);
    if i == j {
      LowerBelowBound(i);
      InterpolateMonotone(p, q, Share(counts, i), Share(counts, i + 1), Lower(i), Bounds()[i]);
    } else if i < j {
      LowerBetween(i, j);
    } else {
      assert false;
    }
  }

  lemma InterpolateMonotone(p: real, q: real, lo: real, hi: real, a: int, b: int)
    requires lo < p <= q <= hi && a < b
    ensures Scale(Fraction(p, Num(lo), Num(hi)), a, b).x <= Scale(Fraction(q, Num(lo), Num(hi)), a, b).x
  {
    DivideMonotone(p - lo, q - lo, hi - lo);
    ScaleMonotone((p - lo) / (hi - lo), (q - lo) / (hi - lo), a, b);
  }

  lemma LowerBetween(i: nat, j: nat)
    requires i < j < BUCKETS
    ensures Bounds()[i] <= Lower(j)
  {
    if i < j - 1 {
      BoundsIncrease(i, j - 1);
    }
  }

  /** A value is at most three below its bucket; only the late values are below it at all. */
  lemma ValueNearBucket(v: int)
    requires 0 <= v <= INT64_MAX
    ensures Lower(IndexOf(v)) - 3 <= v <= Bounds()[IndexOf(v)]
    ensures !Late(v) ==> Lower(IndexOf(v)) <= v
  {
    if v < INT64_MAX {
      BucketError(v);
    } else {
      AdjacentIncrease(BUCKETS - 2);
      FirstAboveIs(v, BUCKETS - 1);
    }
    FastIndexExact(v);
    BelowFirstAbove(v);
    if Late(v) {
      LateLower(v, FirstAbove(v));
    }
  }

  lemma BelowFirstAbove(v: int)
    requires 0 <= v
    ensures Lower(FirstAbove(v)) <= v
  {
    var f := FirstAbove(v);
    if f > 0 {
      assert Bounds()[f - 1] <= v;
    }
  }

  lemma LateLower(v: int, f: nat)
    requires Late(v) && f == FirstAbove(v)
    ensures Bounds()[f] <= v + 3
  {
    if v == 15 {
      StartsPointAtPowers(2);
      FirstAboveIs(v, 14);
    } else {
      var k :| 3 <= k <= 30 && Pow4(k) - 3 <= v < Pow4(k);
      NearPower(v, k);
      FirstAboveIs(v, Start(k));
      BoundInGroup(k, 0);
    }
  }

  lemma NearPower(v: int, k: nat)
    requires 3 <= k <= 30 && Pow4(k) - 3 <= v < Pow4(k)
    ensures Brackets(v, Start(k))
  {
    JustBelowPower(k);
    BoundInGroup(k, 0);
    assert GroupBound(k, 0) == Pow4(k) == Bound(Start(k));
  }

  /** The accuracy theorem: the percentile lies in the bucket of the sample of that rank, and differs from the
      sample by at most the bucket's width plus three. */
  lemma Accuracy(samples: seq<int>, p: real, q: int)
    requires AreSamples(samples) && samples != [] && 0.0 < p <= 100.0
    requires Rank(p, |samples|) >= 0 && IsKthSmallest(samples, Rank(p, |samples|), q)
    ensures PercentileOf(Counts(samples), p).Num?
    ensures var i, r := IndexOf(q), PercentileOf(Counts(samples), p).x;
            && Lower(i) as real < r <= Bounds()[i] as real
            && -((Bounds()[i] - Lower(i) + 3) as real) <= r - q as real <= (Bounds()[i] - Lower(i) + 3) as real
  {
    ReachingIsBucketOf(samples, p, q);
    PercentileInBucket(Counts(samples), p);
    ValueNearBucket(q);
  }
}
