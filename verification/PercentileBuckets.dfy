/** PercentileBucketIndexOf: the branch-and-shift index into the bucket table, against a linear search. */
module PercentileBuckets {
  import opened BucketTable

  /** The builtin that counts the leading zeros of a non-zero 64-bit word. */
  function Clz64(v: nat): (n: nat)
    requires 0 < v < 0x1_0000_0000_0000_0000
    ensures n < 64 && Pow2(63 - n) <= v < Pow2(64 - n)
    decreases 0x1_0000_0000_0000_0000 - v
  {
    if v >= 0x8000_0000_0000_0000 then
      Pow2Values();
      0
    else
      var m := Clz64(2 * v);
      assert m < 63 && Pow2(63 - m) == 2 * Pow2(62 - m) && Pow2(64 - m) == 2 * Pow2(63 - m);
      1 + m
  }

  /** The int64 `v >> n`. */
  function Shr(v: int, n: nat): int {
    if n == 0 then v else Shr(v, n - 1) / 2
  }

  lemma {:induction false} ShrTop(v: nat, n: nat, m: nat)
    requires m <= n && Pow2(n) <= v < 2 * Pow2(n)
    ensures Pow2(n - m) <= Shr(v, m) < 2 * Pow2(n - m)
  {
    if m != 0 {
      ShrTop(v, n, m - 1);
    }
  }

  /** The even shift and the largest power of four that is at most v. */
  function PowerOf4Below(v: nat): (int, int)
    requires 4 < v <= INT64_MAX
  {
    var shift := 64 - Clz64(v) - 1;
    var prevPowerOf2 := Shl(Shr(v, shift), shift);
    if shift % 2 != 0 then (shift - 1, Shr(prevPowerOf2, 1)) else (shift, prevPowerOf2)
  }

  lemma PowerOf4BelowIs(v: nat)
    requires 4 < v <= INT64_MAX
    ensures var (shift, base) := PowerOf4Below(v);
            0 < shift && var k := shift / 2;
            1 <= k <= 31 && base == Pow4(k) <= v < Pow4(k + 1)
  {
    var shift := 64 - Clz64(v) - 1;
    ShiftRange(v, shift);
    ShrTop(v, shift, shift);
    ShlOne(shift);
    var k := shift / 2;
    Pow2IsPow4(k);
    assert Shr(v, shift) == 1;
    assert Shl(Shr(v, shift), shift) == Pow2(shift);
    if shift % 2 != 0 {
      assert shift == 2 * k + 1 && Pow2(shift) == 2 * Pow2(2 * k);
      assert Shr(Pow2(shift), 1) == Pow2(shift) / 2;
    } else {
      assert shift == 2 * k;
    }
  }

  lemma ShiftRange(v: nat, shift: nat)
    requires 4 < v <= INT64_MAX && shift < 64 && Pow2(shift) <= v < Pow2(shift + 1)
    ensures 2 <= shift <= 62
    ensures Pow2(shift + 1) == 2 * Pow2(shift)
  {
    Pow2Values();
    assert Pow2(1) == 2 && Pow2(2) == 4;
  }

  /** PercentileBucketIndexOf.  The table accesses are in range for every int64. */
  function IndexOf(v: int): (i: nat)
    requires INT64_MIN <= v <= INT64_MAX
    ensures i < BUCKETS
  {
    if v <= 0 then 0
    else if v <= 4 then v
    else
      var (shift, base) := PowerOf4Below(v);
      PowerOf4BelowIs(v);
      DeltaPositive(shift / 2);
      var delta := base / 3;
      Quotient(v - base, delta);
      var offset := (v - base) / delta;
      var pos := offset + Starts()[shift / 2];
      if pos >= BUCKETS - 1 then BUCKETS - 1 else pos + 1
  }

  /** PercentileBucket: the bound of the bucket a value falls into. */
  function BucketOf(v: int): int
    requires INT64_MIN <= v <= INT64_MAX
  {
    Bounds()[IndexOf(v)]
  }

  lemma DeltaPositive(k: nat)
    requires 1 <= k
    ensures 1 <= Delta(k) && (2 <= k ==> 5 <= Delta(k))
  {
    Pow4Values();
    Pow4Monotone(1, k);
    if 2 <= k {
      Pow4Monotone(2, k);
    }
  }

  // ---------- the reference: a linear search ----------

  ghost predicate Increasing(table: seq<int>) {
    forall i, j :: 0 <= i < j < |table| ==> table[i] < table[j]
  }

  /** The first i (from `from` on) with table[i] > v, and the last index when there is none. */
  function Search(table: seq<int>, v: int, from: nat): (i: nat)
    requires from < |table|
    ensures from <= i < |table|
    ensures i == |table| - 1 || table[i] > v
    ensures forall j :: from <= j < i ==> table[j] <= v
    decreases |table| - from
  {
    if from == |table| - 1 || table[from] > v then from else Search(table, v, from + 1)
  }

  lemma SearchIs(table: seq<int>, v: int, i: nat)
    requires Increasing(table) && i < |table|
    requires i > 0 ==> table[i - 1] <= v
    requires i < |table| - 1 ==> v < table[i]
    ensures Search(table, v, 0) == i
  {
    var f := Search(table, v, 0);
    if f < i - 1 {
      assert false;
    }
  }

  function FirstAbove(v: int): nat {
    Search(Bounds(), v, 0)
  }

  /** v lies between the bounds on either side of bucket i. */
  ghost predicate Brackets(v: int, i: int) {
    && 0 <= i < BUCKETS
    && (0 < i ==> Bound(i - 1) <= v)
    && (i < BUCKETS - 1 ==> v < Bound(i))
  }

  lemma FirstAboveIs(v: int, i: nat)
    requires Brackets(v, i)
    ensures FirstAbove(v) == i
  {
    BoundsAreIncreasing();
    SearchIs(Bounds(), v, i);
  }

  lemma BoundsAreIncreasing()
    ensures Increasing(Bounds())
  {
    forall i, j | 0 <= i < j < |Bounds()| ensures Bounds()[i] < Bounds()[j] {
      BoundsIncrease(i, j);
    }
  }

  /** The values whose fast index is one bucket late. */
  ghost predicate Late(v: int) {
    v == 15 || exists k :: 3 <= k <= 30 && Pow4(k) - 3 <= v < Pow4(k)
  }

  // ---------- where a value lies ----------

  /** The fast index in terms of group and offset. */
  function IndexIn(k: nat, offset: nat): nat {
    var pos := offset + Start(k);
    if pos >= BUCKETS - 1 then BUCKETS - 1 else pos + 1
  }

  /** Group k and offset of v, the fast index in those terms, and the interval of the table that v lies in. */
  lemma Locate(v: int) returns (k: nat, offset: nat)
    requires 4 < v <= INT64_MAX
    ensures 1 <= k <= 31 && Pow4(k) <= v < Pow4(k + 1)
    ensures offset <= (if k == 1 then 11 else 9)
    ensures GroupBound(k, offset) <= v < GroupBound(k, offset + 1)
    ensures IndexOf(v) == IndexIn(k, offset)
  {
    PowerOf4BelowIs(v);
    k := PowerOf4Below(v).0 / 2;
    DeltaPositive(k);
    var d := Delta(k);
    Quotient(v - Pow4(k), d);
    offset := (v - Pow4(k)) / d;
    GroupBoundClosed(k, offset);
    OffsetRange(v, k, offset);
  }

  lemma OffsetRange(v: int, k: nat, offset: nat)
    requires 1 <= k <= 31 && Pow4(k) + offset * Delta(k) <= v < Pow4(k + 1)
    ensures offset <= (if k == 1 then 11 else 9)
  {
    Pow4Values();
    Pow4Remainder(k);
    DeltaPositive(k);
    QuotientBound(offset, Delta(k), if k == 1 then 12 else 10);
  }

  lemma Quotient(a: nat, d: nat)
    requires 0 < d
    ensures 0 <= a / d && a / d * d <= a < a / d * d + d
  {
  }

  lemma Product(m: nat, n: nat, d: nat)
    requires m <= n
    ensures m * d <= n * d
  {
  }

  lemma QuotientBound(q: nat, d: nat, limit: nat)
    requires 0 < d && q * d < limit * d
    ensures q < limit
  {
    if limit <= q {
      Product(limit, q, d);
    }
  }

  lemma LateOnlyAtGroupEnd(v: int, k: nat)
    requires 1 <= k <= 31 && Pow4(k) <= v < Pow4(k + 1)
    ensures Late(v) <==> k <= 29 && v >= Pow4(k + 1) - (if k == 1 then 1 else 3)
  {
    Pow4Values();
    if Late(v) && v != 15 {
      var m :| 3 <= m <= 30 && Pow4(m) - 3 <= v < Pow4(m);
      if m <= k {
        Pow4Monotone(m, k);
      } else if k + 1 < m {
        Pow4Monotone(k + 2, m);
      }
      assert m == k + 1;
    }
    if 2 <= k {
      Pow4Monotone(2, k);
    }
  }

  /** The fast index is the linear search's, except that it is exactly one greater at 15 and at the three
      integers below each power of four from 4^3 to 4^30. */
  lemma FastIndexExact(v: int)
    requires INT64_MIN <= v <= INT64_MAX
    ensures IndexOf(v) == FirstAbove(v) + (if Late(v) then 1 else 0)
  {
    if v <= 4 {
      SmallValues(v);
      FirstAboveIs(v, if v <= 0 then 0 else v);
    } else {
      var k, offset := Locate(v);
      LateOnlyAtGroupEnd(v, k);
      var late := k <= 29 && v >= Pow4(k + 1) - (if k == 1 then 1 else 3);
      FastIndexBrackets(v, k, offset, late);
      FirstAboveIs(v, if late then IndexIn(k, offset) - 1 else IndexIn(k, offset));
    }
  }

  lemma SmallValues(v: int)
    requires v <= 4
    ensures Brackets(v, if v <= 0 then 0 else v) && !Late(v)
  {
    Pow4Values();
    forall m | 3 <= m <= 30 ensures Pow4(m) - 3 > v {
      Pow4Monotone(2, m);
    }
  }

  lemma FastIndexBrackets(v: int, k: nat, offset: nat, late: bool)
    requires 4 < v && 1 <= k <= 31 && Pow4(k) <= v < Pow4(k + 1) && offset <= (if k == 1 then 11 else 9)
    requires GroupBound(k, offset) <= v < GroupBound(k, offset + 1)
    requires late <==> k <= 29 && v >= Pow4(k + 1) - (if k == 1 then 1 else 3)
    ensures Brackets(v, IndexIn(k, offset) - (if late then 1 else 0))
  {
    if k == 1 {
      Pow4Values();
      FastIndexInFirstGroup(v, offset);
    } else if k == 31 {
      FastIndexInTopGroup(v);
    } else {
      FastIndexInGroup(v, k, offset);
    }
  }

  lemma FastIndexInFirstGroup(v: int, offset: nat)
    requires 4 < v < 16 && GroupBound(1, offset) <= v < GroupBound(1, offset + 1)
    ensures v == Start(1) + offset + 1 && Brackets(v, if v == 15 then 14 else v)
  {
    Pow4Values();
    GroupBoundClosed(1, offset);
    StartsPointAtPowers(2);
  }

  /** The bound after the j-th of a group, and the tenth multiple of delta, three below the next power. */
  lemma NextBound(k: nat, j: nat)
    requires 2 <= k <= 30 && j < 9
    ensures Start(k) + j + 1 < BUCKETS
    ensures j < 8 ==> Bound(Start(k) + j + 1) == GroupBound(k, j + 1)
    ensures j == 8 && k < 30 ==> Bound(Start(k) + j + 1) == Pow4(k + 1)
    ensures j == 8 && k == 30 ==> Start(k) + j + 1 == BUCKETS - 1
    ensures GroupBound(k, 9) == Pow4(k + 1) - 3
  {
    Pow4Remainder(k);
    GroupBoundClosed(k, 9);
    if j < 8 {
      BoundInGroup(k, j + 1);
    } else if k < 30 {
      BoundInGroup(k + 1, 0);
    }
  }

  lemma FastIndexInGroup(v: int, k: nat, offset: nat)
    requires 2 <= k <= 30 && Pow4(k) <= v < Pow4(k + 1) && offset <= 9
    requires GroupBound(k, offset) <= v < GroupBound(k, offset + 1)
    ensures offset == 9 <==> v >= Pow4(k + 1) - 3
    ensures Brackets(v, Start(k) + (if offset == 9 then 9 else offset + 1))
  {
    var j := if offset == 9 then 8 else offset;
    GroupBoundIncreases(k, j, offset);
    if offset < 9 {
      GroupBoundIncreases(k, offset + 1, 9);
    }
    BoundInGroup(k, j);
    NextBound(k, j);
  }

  lemma FastIndexInTopGroup(v: int)
    requires Pow4(31) <= v
    ensures Brackets(v, BUCKETS - 1)
  {
    NextBound(30, 8);
    BoundInGroup(30, 8);
    GroupBoundIncreases(30, 8, 9);
  }

  /** The index never decreases. */
  lemma IndexMonotone(u: int, v: int)
    requires INT64_MIN <= u <= v <= INT64_MAX
    ensures IndexOf(u) <= IndexOf(v)
  {
    if v > 4 {
      var k, offset := Locate(v);
      if u > 4 {
        var m, offset' := Locate(u);
        PositionMonotone(u, m, offset', v, k, offset);
      }
    }
  }

  lemma PositionMonotone(u: int, m: nat, offset': nat, v: int, k: nat, offset: nat)
    requires 1 <= m <= 31 && Pow4(m) <= u && GroupBound(m, offset') <= u && offset' <= (if m == 1 then 11 else 9)
    requires 1 <= k <= 31 && v < Pow4(k + 1) && v < GroupBound(k, offset + 1)
    requires u <= v
    ensures IndexIn(m, offset') <= IndexIn(k, offset)
  {
    if k < m {
      Pow4Monotone(k + 1, m);
    } else if m == k && offset < offset' {
      GroupBoundIncreases(k, offset + 1, offset');
    }
  }

  lemma {:induction false} GroupBoundIncreases(k: nat, i: nat, j: nat)
    requires i <= j
    ensures GroupBound(k, i) <= GroupBound(k, j)
  {
    if i < j {
      GroupBoundIncreases(k, i, j - 1);
    }
  }

  // ---------- how far a bucket's bound is from the value ----------

  /** A value is below its bucket's bound, by at most a third of the value (plus 11/3); the second clause is tight. */
  lemma BucketError(v: int)
    requires 0 <= v < INT64_MAX
    ensures v < BucketOf(v)
    ensures IndexOf(v) < BUCKETS - 1 ==> 3 * (BucketOf(v) - v) <= v + 11
  {
    if v > 4 {
      var k, offset := Locate(v);
      if k == 1 {
        BucketErrorInFirstGroup(v, offset);
      } else if k <= 30 && Start(k) + offset < BUCKETS - 2 {
        BucketErrorInGroup(v, k, offset);
      }
    }
  }

  lemma BucketErrorInFirstGroup(v: int, offset: nat)
    requires 4 < v < 16 && GroupBound(1, offset) <= v < GroupBound(1, offset + 1)
    ensures Start(1) + offset + 1 == v
    ensures v < Bound(v) && 3 * (Bound(v) - v) <= v + 11
  {
    Pow4Values();
    GroupBoundClosed(1, offset);
    BoundInGroup(2, 0);
    BoundInGroup(2, 1);
  }

  lemma BucketErrorInGroup(v: int, k: nat, offset: nat)
    requires 2 <= k <= 30 && Pow4(k) <= v < Pow4(k + 1) && offset <= 9 && Start(k) + offset + 1 < BUCKETS - 1
    requires GroupBound(k, offset) <= v < GroupBound(k, offset + 1)
    ensures v < Bound(Start(k) + offset + 1) && 3 * (Bound(Start(k) + offset + 1) - v) <= v + 11
  {
    Pow4Remainder(k);
    if offset < 8 {
      BoundInGroup(k, offset + 1);
      assert GroupBound(k, offset + 1) == GroupBound(k, offset) + Delta(k);
    } else if offset == 8 {
      NextBound(k, 8);
      assert GroupBound(k, 9) == GroupBound(k, 8) + Delta(k);
    } else {
      NextBound(k, 8);
      NextBound(k + 1, 0);
      assert GroupBound(k + 1, 1) == Pow4(k + 1) + Delta(k + 1);
    }
  }

  /** The error bound is reached just below every power of four from 4^3 to 4^30. */
  lemma BucketErrorTight(k: nat, v: int)
    requires 3 <= k <= 30 && v == Pow4(k) - 3
    ensures 4 < v < INT64_MAX && IndexOf(v) < BUCKETS - 1 && 3 * (BucketOf(v) - v) == v + 11
  {
    Pow4Values();
    Pow4Monotone(3, k);
    Pow4Monotone(k, 31);
    Pow4Remainder(k);
    JustBelowPower(k);
    assert Late(v);
    FastIndexExact(v);
    FirstAboveIs(v, Start(k));
    BoundInGroup(k, 1);
  }

  lemma JustBelowPower(k: nat)
    requires 3 <= k <= 30
    ensures Brackets(Pow4(k) - 3, Start(k))
  {
    NextBound(k - 1, 8);
    BoundInGroup(k - 1, 8);
    GroupBoundIncreases(k - 1, 8, 9);
    BoundInGroup(k, 0);
  }
}
