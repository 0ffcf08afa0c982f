/** Percentiles: from bucket counts back to percentile values, and how accurate the result is.

    Doubles are reals, with NaN as a value of its own because the code's 0/0 produces it.
 */
module Percentiles {
  import opened BucketTable
  import opened PercentileBuckets

  datatype Double = NaN | Num(x: real)

  ghost predicate IsCounts(counts: seq<int>) {
    |counts| == BUCKETS && forall i :: 0 <= i < BUCKETS ==> 0 <= counts[i]
  }

  /** The requested percentiles as the header documents them: sorted, between 0 and 100. */
  ghost predicate IsRequest(pcts: seq<real>) {
    && (forall j :: 0 <= j < |pcts| ==> 0.0 <= pcts[j] <= 100.0)
    && (forall i, j :: 0 <= i < j < |pcts| ==> pcts[i] <= pcts[j])
  }

  /** The sum of the first n counts. */
  function Sum(counts: seq<int>, n: nat): int
    requires n <= |counts|
  {
    if n == 0 then 0 else Sum(counts, n - 1) + counts[n - 1]
  }

  lemma {:induction false} SumMonotone(counts: seq<int>, m: nat, n: nat)
    requires IsCounts(counts) && m <= n <= BUCKETS
    ensures 0 <= Sum(counts, m) <= Sum(counts, n)
  {
    if m < n {
      SumMonotone(counts, m, n - 1);
    } else if 0 < n {
      SumMonotone(counts, n - 1, n - 1);
    }
  }

  // ---------- double arithmetic ----------

  /** `100.0 * next / total`; the counts are non-negative, so next is 0 when total is. */
  function Percent(next: int, total: int): Double
    requires total == 0 ==> next == 0
  {
    if total == 0 then NaN else Num(100.0 * next as real / total as real)
  }

  /** `(p - prevP) / (nextP - prevP)`; the requires excludes a non-zero number over zero. */
  function Fraction(p: real, prevP: Double, nextP: Double): Double
    requires prevP.Num? && nextP.Num? && prevP.x == nextP.x ==> p == prevP.x
  {
    if prevP.NaN? || nextP.NaN? || prevP.x == nextP.x then NaN
    else Num((p - prevP.x) / (nextP.x - prevP.x))
  }

  /** `f * (nextB - prevB) + prevB` */
  function Scale(f: Double, prevB: int, nextB: int): Double {
    if f.NaN? then NaN else Num(f.x * (nextB - prevB) as real + prevB as real)
  }

  predicate AtLeast(a: Double, b: real) {
    a.Num? && a.x >= b
  }

  // ---------- what a percentile is ----------

  /** The percentage of the samples that the first n buckets hold. */
  function Share(counts: seq<int>, n: nat): real
    requires |counts| == BUCKETS && n <= BUCKETS && Sum(counts, BUCKETS) != 0
  {
    100.0 * Sum(counts, n) as real / Sum(counts, BUCKETS) as real
  }

  /** The first bucket, from `from` on, at which the share of the samples reaches p; the last one if none does. */
  function Reaching(counts: seq<int>, p: real, from: nat): (i: nat)
    requires |counts| == BUCKETS && from < BUCKETS && Sum(counts, BUCKETS) != 0
    ensures from <= i < BUCKETS
    ensures i < BUCKETS - 1 ==> Share(counts, i + 1) >= p
    ensures forall j :: from < j <= i ==> Share(counts, j) < p
    decreases BUCKETS - from
  {
    if from == BUCKETS - 1 || Share(counts, from + 1) >= p then from else Reaching(counts, p, from + 1)
  }

  function Lower(i: nat): int
    requires i <= BUCKETS
  {
    if i == 0 then 0 else Bounds()[i - 1]
  }

  // ---------- facts about shares ----------

  lemma TimesPositive(x: real, y: real, t: real)
    requires x < y && 0.0 < t
    ensures x * t < y * t
  {
  }

  lemma WholeShare(t: real)
    requires t > 0.0
    ensures 100.0 * t / t == 100.0
  {
    var x := 100.0 * t / t;
    assert x * t == 100.0 * t;
    if x < 100.0 {
      TimesPositive(x, 100.0, t);
    } else if x > 100.0 {
      TimesPositive(100.0, x, t);
    }
  }

  lemma ShareEnds(counts: seq<int>)
    requires IsCounts(counts) && Sum(counts, BUCKETS) != 0
    ensures Share(counts, 0) == 0.0 && Share(counts, BUCKETS) == 100.0
  {
    SumMonotone(counts, 0, BUCKETS);
    WholeShare(Sum(counts, BUCKETS) as real);
  }

  lemma NoDivisionByZero(counts: seq<int>, p: real)
    requires IsCounts(counts) && Sum(counts, BUCKETS) != 0 && 0.0 <= p <= 100.0
    ensures var i := Reaching(counts, p, 0); Share(counts, i) == Share(counts, i + 1) ==> p == Share(counts, i)
  {
    ShareEnds(counts);
  }

  lemma ShareMonotone(counts: seq<int>, m: nat, n: nat)
    requires IsCounts(counts) && Sum(counts, BUCKETS) != 0 && m <= n <= BUCKETS
    ensures Share(counts, m) <= Share(counts, n)
  {
    SumMonotone(counts, m, n);
    SumMonotone(counts, 0, BUCKETS);
    DivideMonotone(100.0 * Sum(counts, m) as real, 100.0 * Sum(counts, n) as real, Sum(counts, BUCKETS) as real);
  }

  lemma DivideMonotone(a: real, b: real, t: real)
    requires t > 0.0 && a <= b
    ensures a / t <= b / t
  {
  }

  /** For p above 0 the share jumps over p in the bucket found, so the interpolation divides by a positive number. */
  lemma ReachingBrackets(counts: seq<int>, p: real)
    requires IsCounts(counts) && Sum(counts, BUCKETS) != 0 && 0.0 < p <= 100.0
    ensures var i := Reaching(counts, p, 0); Share(counts, i) < p <= Share(counts, i + 1)
  {
    ShareEnds(counts);
  }

  lemma ReachingFrom(counts: seq<int>, p: real, i: nat, from: nat)
    requires IsCounts(counts) && Sum(counts, BUCKETS) != 0 && from <= i < BUCKETS
    requires forall j :: from < j <= i ==> Share(counts, j) < p
    requires Share(counts, i + 1) >= p
    ensures Reaching(counts, p, from) == i
    decreases i - from
  {
    if from < i {
      ReachingFrom(counts, p, i, from + 1);
    }
  }

  /** Interpolation inside the bucket where the share reaches p; NaN when there are no samples at all, or
      nothing to interpolate. */
  function PercentileOf(counts: seq<int>, p: real): Double
    requires IsCounts(counts) && 0.0 <= p <= 100.0
  {
    if Sum(counts, BUCKETS) == 0 then NaN
    else
      var i := Reaching(counts, p, 0);
      NoDivisionByZero(counts, p);
      Scale(Fraction(p, Num(Share(counts, i)), Num(Share(counts, i + 1))), Lower(i), Bounds()[i])
  }

  // ---------- the law of the interpolation ----------

  /** The samples up to bucket i are enough for p percent of all, those before it are not. */
  ghost predicate InBucket(counts: seq<int>, p: real, i: nat)
    requires |counts| == BUCKETS && i < BUCKETS
  {
    100.0 * Sum(counts, i) as real < p * Sum(counts, BUCKETS) as real <= 100.0 * Sum(counts, i + 1) as real
  }

  /** r divides the bucket as p divides its samples: inside it values and samples are proportional. */
  ghost predicate Divides(counts: seq<int>, p: real, i: nat, r: real)
    requires |counts| == BUCKETS && i < BUCKETS
  {
    var lo := if i == 0 then 0 else Bounds()[i - 1];
    Proportional(r, lo, Bounds()[i], counts[i], Sum(counts, i), p, Sum(counts, BUCKETS))
  }

  /** Between lo and hi lie the count samples after the first before of all: r is as far from lo as p percent of all are
      from those before. */
  ghost predicate Proportional(r: real, lo: int, hi: int, count: int, before: int, p: real, all: int) {
    (r - lo as real) * (100.0 * count as real) == (p * all as real - 100.0 * before as real) * (hi - lo) as real
  }

  /** A result for p: a number that divides the bucket of p. */
  ghost predicate Interpolated(counts: seq<int>, p: real, result: Double)
    requires |counts| == BUCKETS
  {
    result.Num? && forall i :: 0 <= i < BUCKETS && InBucket(counts, p, i) ==> Divides(counts, p, i, result.x)
  }

  /** a is the percentage that a part has of all. */
  ghost predicate IsShare(a: real, part: int, all: int) {
    a * all as real == 100.0 * part as real
  }

  lemma ShareIs(counts: seq<int>, n: nat)
    requires |counts| == BUCKETS && n <= BUCKETS && Sum(counts, BUCKETS) > 0
    ensures IsShare(Share(counts, n), Sum(counts, n), Sum(counts, BUCKETS))
  {
  }

  lemma ProductOrder(x: real, y: real, t: real)
    requires t > 0.0
    ensures x * t < y * t <==> x < y
    ensures x * t <= y * t <==> x <= y
  {
  }

  /** In terms of shares. */
  lemma InBucketByShare(counts: seq<int>, p: real, i: nat)
    requires |counts| == BUCKETS && Sum(counts, BUCKETS) > 0 && i < BUCKETS
    ensures InBucket(counts, p, i) <==> Share(counts, i) < p <= Share(counts, i + 1)
  {
    var n := Sum(counts, BUCKETS) as real;
    ShareIs(counts, i);
    ShareIs(counts, i + 1);
    ProductOrder(Share(counts, i), p, n);
    ProductOrder(p, Share(counts, i + 1), n);
  }

  /** There is such a bucket, it is the only one, and it is the one found. */
  lemma BucketOfPercent(counts: seq<int>, p: real, i: nat)
    requires IsCounts(counts) && Sum(counts, BUCKETS) > 0 && 0.0 < p <= 100.0 && i < BUCKETS
    ensures InBucket(counts, p, i) <==> Reaching(counts, p, 0) == i
  {
    var found := Reaching(counts, p, 0);
    ReachingBrackets(counts, p);
    InBucketByShare(counts, p, i);
    if i < found {
      ShareMonotone(counts, i + 1, found);
    } else if found < i {
      ShareMonotone(counts, found + 1, i);
    }
  }

  lemma Quotients(x: real, y: real)
    requires y != 0.0
    ensures x / y * y == x
  {
  }

  /** The fraction of the bucket is the fraction of its samples. */
  lemma FractionOfSamples(p: real, a: real, b: real, s: real, c: real, n: real)
    requires n > 0.0 && a < b && a * n == 100.0 * s && b * n == 100.0 * (s + c)
    ensures (p - a) / (b - a) * (100.0 * c) == p * n - 100.0 * s
  {
    var f := (p - a) / (b - a);
    Quotients(p - a, b - a);
    assert (b - a) * n == 100.0 * c;
    assert f * ((b - a) * n) == (f * (b - a)) * n;
    assert (p - a) * n == p * n - a * n;
  }

  lemma Scaled(f: real, w: real, c: real, d: real)
    requires f * c == d
    ensures f * w * c == d * w
  {
    assert f * w * c == (f * c) * w;
  }

  lemma ScaledFraction(p: real, a: real, b: real, before: int, count: int, all: int, lo: int, hi: int)
    requires all > 0 && a < b
    requires IsShare(a, before, all) && IsShare(b, before + count, all)
    ensures var r := Scale(Fraction(p, Num(a), Num(b)), lo, hi);
      r.Num? && Proportional(r.x, lo, hi, count, before, p, all)
  {
    FractionOfSamples(p, a, b, before as real, count as real, all as real);
    Scaled((p - a) / (b - a), (hi - lo) as real, 100.0 * count as real, p * all as real - 100.0 * before as real);
  }

  lemma FoundDivides(counts: seq<int>, p: real, i: nat)
    requires IsCounts(counts) && Sum(counts, BUCKETS) > 0 && 0.0 < p <= 100.0 && i == Reaching(counts, p, 0)
    ensures PercentileOf(counts, p).Num? && Divides(counts, p, i, PercentileOf(counts, p).x)
  {
    ReachingBrackets(counts, p);
    ShareIs(counts, i);
    ShareIs(counts, i + 1);
    assert Sum(counts, i + 1) == Sum(counts, i) + counts[i];
    ScaledFraction(p, Share(counts, i), Share(counts, i + 1), Sum(counts, i), counts[i], Sum(counts, BUCKETS),
                   Lower(i), Bounds()[i]);
  }

  lemma PercentileDivides(counts: seq<int>, p: real)
    requires IsCounts(counts) && Sum(counts, BUCKETS) > 0 && 0.0 < p <= 100.0
    ensures Interpolated(counts, p, PercentileOf(counts, p))
  {
    var found := Reaching(counts, p, 0);
    FoundDivides(counts, p, found);
    forall i | 0 <= i < BUCKETS && InBucket(counts, p, i) ensures Divides(counts, p, i, PercentileOf(counts, p).x) {
      BucketOfPercent(counts, p, i);
    }
  }

  // ---------- the loops ----------

  /** Fills every slot; the slots come from the first loop, unless there are no samples and every slot is NaN. */
  method Percentiles(counts: seq<int>, pcts: seq<real>) returns (results: seq<Double>)
    requires IsCounts(counts) && IsRequest(pcts)
    ensures |results| == |pcts|
    ensures forall j :: 0 <= j < |pcts| ==> results[j] == PercentileOf(counts, pcts[j])
    ensures forall j :: 0 <= j < |pcts| && pcts[j] > 0.0 && Sum(counts, BUCKETS) > 0 ==>
      Interpolated(counts, pcts[j], results[j])
  {
    results := FillSlots(counts, pcts);
    forall j | 0 <= j < |pcts| && pcts[j] > 0.0 && Sum(counts, BUCKETS) > 0
      ensures Interpolated(counts, pcts[j], results[j])
    {
      PercentileDivides(counts, pcts[j]);
    }
  }

  method FillSlots(counts: seq<int>, pcts: seq<real>) returns (results: seq<Double>)
    requires IsCounts(counts) && IsRequest(pcts)
    ensures |results| == |pcts|
    ensures forall j :: 0 <= j < |pcts| ==> results[j] == PercentileOf(counts, pcts[j])
  {
    var total := Total(counts);
    var pctIdx := 0;
    var prev := 0;
    var prevP := Num(0.0);
    var prevB := 0;
    results := seq(|pcts|, _ => Num(0.0));

    for i := 0 to BUCKETS
      invariant pctIdx <= |pcts| == |results|
      invariant Filled(counts, pcts, results, pctIdx)
      invariant prev == Sum(counts, i) && prevP == Reached(counts, i) && prevB == Lower(i)
      invariant pctIdx < |pcts| ==> Unreached(counts, pcts[pctIdx], i)
    {
      PercentIsReached(counts, i + 1);
      var next := prev + counts[i];
      var nextP := Percent(next, total);
      var nextB := Bounds()[i];
      results, pctIdx := FillFrom(counts, pcts, results, pctIdx, i, prevP, nextP, prevB, nextB);
      if pctIdx >= |pcts| {
        break;
      }
      UnreachedNext(counts, pcts[pctIdx], i);
      prev := next;
      prevP := nextP;
      prevB := nextB;
    }

    // in exact arithmetic the tail loop only runs without samples
    assert pctIdx < |pcts| ==> total == 0 by {
      if pctIdx < |pcts| && total != 0 {
        ShareEnds(counts);
        assert false;
      }
    }
    var nextP := Num(100.0);
    var nextB := INT64_MAX;
    while pctIdx < |pcts|
      invariant pctIdx <= |pcts| == |results|
      invariant Filled(counts, pcts, results, pctIdx)
    {
      var f := Fraction(pcts[pctIdx], prevP, nextP);
      FilledNext(counts, pcts, results, pctIdx, Scale(f, prevB, nextB));
      results := results[pctIdx := Scale(f, prevB, nextB)];
      pctIdx := pctIdx + 1;
    }
  }

  method Total(counts: seq<int>) returns (total: int)
    requires |counts| == BUCKETS
    ensures total == Sum(counts, BUCKETS)
  {
    total := 0;
    for i := 0 to BUCKETS
      invariant total == Sum(counts, i)
    {
      total := total + counts[i];
    }
  }

  /** The inner loop: fills the slots of the percentiles that bucket i reaches. */
  method FillFrom(counts: seq<int>, pcts: seq<real>, results0: seq<Double>, pctIdx0: nat, i: nat,
                  prevP: Double, nextP: Double, prevB: int, nextB: int)
    returns (results: seq<Double>, pctIdx: nat)
    requires IsCounts(counts) && IsRequest(pcts) && pctIdx0 <= |pcts| == |results0| && i < BUCKETS
    requires prevP == Reached(counts, i) && nextP == Reached(counts, i + 1)
    requires prevB == Lower(i) && nextB == Bounds()[i]
    requires Filled(counts, pcts, results0, pctIdx0)
    requires pctIdx0 < |pcts| ==> Unreached(counts, pcts[pctIdx0], i)
    ensures pctIdx0 <= pctIdx <= |pcts| == |results|
    ensures Filled(counts, pcts, results, pctIdx)
    ensures pctIdx < |pcts| ==> !AtLeast(nextP, pcts[pctIdx]) && Unreached(counts, pcts[pctIdx], i)
  {
    results, pctIdx := results0, pctIdx0;
    while pctIdx < |pcts| && AtLeast(nextP, pcts[pctIdx])
      invariant pctIdx0 <= pctIdx <= |pcts| == |results|
      invariant Filled(counts, pcts, results, pctIdx)
      invariant pctIdx < |pcts| ==> Unreached(counts, pcts[pctIdx], i)
    {
      WrittenSlot(counts, pcts[pctIdx], i, prevP, nextP);
      var f := Fraction(pcts[pctIdx], prevP, nextP);
      FilledNext(counts, pcts, results, pctIdx, Scale(f, prevB, nextB));
      results := results[pctIdx := Scale(f, prevB, nextB)];
      if pctIdx + 1 < |pcts| {
        UnreachedLater(counts, pcts[pctIdx], pcts[pctIdx + 1], i);
      }
      pctIdx := pctIdx + 1;
    }
  }

  /** Percentile: the single-value form. */
  method Percentile(counts: seq<int>, p: real) returns (result: Double)
    requires IsCounts(counts) && 0.0 <= p <= 100.0
    ensures result == PercentileOf(counts, p)
    ensures p > 0.0 && Sum(counts, BUCKETS) > 0 ==> Interpolated(counts, p, result)
  {
    var results := Percentiles(counts, [p]);
    assert [p][0] == p;
    result := results[0];
  }

  /** The first n result slots hold the percentiles asked for. */
  ghost predicate Filled(counts: seq<int>, pcts: seq<real>, results: seq<Double>, n: nat)
    requires IsCounts(counts) && IsRequest(pcts) && n <= |pcts| == |results|
  {
    forall j :: 0 <= j < n ==> results[j] == PercentileOf(counts, pcts[j])
  }

  lemma FilledNext(counts: seq<int>, pcts: seq<real>, results: seq<Double>, n: nat, r: Double)
    requires IsCounts(counts) && IsRequest(pcts) && n < |pcts| == |results| && Filled(counts, pcts, results, n)
    requires r == PercentileOf(counts, pcts[n])
    ensures Filled(counts, pcts, results[n := r], n + 1)
  {
  }

  /** The loop's running percentage after n buckets. */
  ghost function Reached(counts: seq<int>, n: nat): Double
    requires |counts| == BUCKETS && n <= BUCKETS
  {
    if n == 0 then Num(0.0)
    else if Sum(counts, BUCKETS) == 0 then NaN
    else Num(Share(counts, n))
  }

  /** No bucket before i reaches p. */
  ghost predicate Unreached(counts: seq<int>, p: real, i: nat)
    requires |counts| == BUCKETS && i <= BUCKETS
  {
    Sum(counts, BUCKETS) != 0 ==> forall j :: 0 < j <= i ==> Share(counts, j) < p
  }

  lemma UnreachedLater(counts: seq<int>, p: real, q: real, i: nat)
    requires |counts| == BUCKETS && i <= BUCKETS && Unreached(counts, p, i) && p <= q
    ensures Unreached(counts, q, i)
  {
  }

  lemma UnreachedNext(counts: seq<int>, p: real, i: nat)
    requires |counts| == BUCKETS && i < BUCKETS && Unreached(counts, p, i)
    requires !AtLeast(Reached(counts, i + 1), p)
    ensures Unreached(counts, p, i + 1)
  {
  }

  /** What one turn of the inner loop writes is the percentile, and it never divides a non-zero number by zero. */
  lemma WrittenSlot(counts: seq<int>, p: real, i: nat, prevP: Double, nextP: Double)
    requires IsCounts(counts) && i < BUCKETS && 0.0 <= p <= 100.0 && Unreached(counts, p, i)
    requires prevP == Reached(counts, i) && nextP == Reached(counts, i + 1) && AtLeast(nextP, p)
    ensures prevP.Num? && nextP.Num? && prevP.x == nextP.x ==> p == prevP.x
    ensures PercentileOf(counts, p) == Scale(Fraction(p, prevP, nextP), Lower(i), Bounds()[i])
  {
    ShareEnds(counts);
    ReachingFrom(counts, p, i, 0);
    NoDivisionByZero(counts, p);
  }

  lemma PercentIsReached(counts: seq<int>, n: nat)
    requires IsCounts(counts) && 0 < n <= BUCKETS
    ensures Sum(counts, BUCKETS) == 0 ==> Sum(counts, n) == 0
    ensures Percent(Sum(counts, n), Sum(counts, BUCKETS)) == Reached(counts, n)
  {
    SumMonotone(counts, n, BUCKETS);
  }
}
