/** The percentile bucket table as tools/gen_perc_bucket_values.cc generates it.

    The generator walks the powers of four that fit an int64.  `Bound` and `Start` give the two tables in
    closed form, the method `Generator.Init` is the generator's nested loop, and the lemmas say what the
    tables look like.
 */
module BucketTable {

  const INT64_MAX: int := 0x7FFF_FFFF_FFFF_FFFF
  const INT64_MIN: int := -0x8000_0000_0000_0000

  const BUCKETS: nat := 276
  const POWERS: nat := 32
  const DIGITS: nat := 2  // base-2 digits between two groups

  /** Two's-complement truncation to 64 bits. */
  function Wrap64(x: int): (r: int)
    ensures INT64_MIN <= r <= INT64_MAX
  {
    if INT64_MIN <= x <= INT64_MAX then x
    else (x - INT64_MIN) % 0x1_0000_0000_0000_0000 + INT64_MIN
  }

  /** The int64 `x << n`: n doublings, each truncated to 64 bits. */
  function Shl(x: int, n: nat): int {
    if n == 0 then x else Wrap64(2 * Shl(x, n - 1))
  }

  function Pow2(n: nat): (p: nat)
    ensures p > 0
  {
    if n == 0 then 1 else 2 * Pow2(n - 1)
  }

  function Pow4(k: nat): (p: nat)
    ensures p > 0
  {
    if k == 0 then 1 else 4 * Pow4(k - 1)
  }

  /** The spacing of the bounds in the group that starts at 4^k. */
  function Delta(k: nat): nat {
    Pow4(k) / 3
  }

  /** The j-th bound of the group of 4^k. */
  function GroupBound(k: nat, j: nat): nat {
    if j == 0 then Pow4(k) else GroupBound(k, j - 1) + Delta(k)
  }

  /** Where the group of 4^k starts in the table; the group of 4^31 is empty, so 31 and 32 both give its end. */
  function Start(k: nat): nat {
    if k == 0 then 0 else if k == 1 then 3 else if k < 31 then 9 * k - 4 else BUCKETS - 1
  }

  /** The i-th bound in closed form: 1, 2, ..., 14, then nine bounds for every power of four, then INT64_MAX. */
  function Bound(i: nat): int
    requires i < BUCKETS
  {
    if i < 14 then i + 1
    else if i == BUCKETS - 1 then INT64_MAX
    else GroupBound((i + 4) / 9, (i + 4) % 9)
  }

  function Bounds(): seq<int> {
    seq(BUCKETS, i requires 0 <= i < BUCKETS => Bound(i))
  }

  function Starts(): seq<nat> {
    seq(POWERS, k requires 0 <= k < POWERS => Start(k))
  }

  // ---------- powers ----------

  lemma Pow2Eight(n: nat)
    ensures Pow2(n + 4) == 16 * Pow2(n)
    ensures Pow2(n + 8) == 256 * Pow2(n)
  {
    assert Pow2(n + 2) == 2 * Pow2(n + 1) == 4 * Pow2(n);
    assert Pow2(n + 4) == 2 * Pow2(n + 3) == 4 * Pow2(n + 2);
    assert Pow2(n + 6) == 2 * Pow2(n + 5) == 4 * Pow2(n + 4);
    assert Pow2(n + 8) == 2 * Pow2(n + 7) == 4 * Pow2(n + 6);
  }

  lemma Pow2Values()
    ensures Pow2(62) == 0x4000_0000_0000_0000
    ensures Pow2(63) == 0x8000_0000_0000_0000 && Pow2(64) == 0x1_0000_0000_0000_0000
  {
    assert Pow2(16) == 0x1_0000 by {
      Pow2Eight(0);
      Pow2Eight(8);
    }
    assert Pow2(32) == 0x1_0000_0000 by {
      Pow2Eight(16);
      Pow2Eight(24);
    }
    assert Pow2(48) == 0x1_0000_0000_0000 by {
      Pow2Eight(32);
      Pow2Eight(40);
    }
    Pow2Eight(48);
    Pow2Eight(56);
    Pow2Eight(60);
    assert Pow2(62) == 2 * Pow2(61) == 4 * Pow2(60);
    assert Pow2(63) == 2 * Pow2(62);
  }

  lemma {:induction false} ShlOne(n: nat)
    requires n <= 62
    ensures Shl(1, n) == Pow2(n) <= 0x4000_0000_0000_0000
  {
    if n != 0 {
      ShlOne(n - 1);
      Pow2Monotone(n, 62);
      Pow2Values();
    }
  }

  lemma {:induction false} Pow2Monotone(m: nat, n: nat)
    requires m <= n
    ensures Pow2(m) <= Pow2(n)
  {
    if m < n {
      Pow2Monotone(m, n - 1);
    }
  }

  lemma {:induction false} Pow2IsPow4(k: nat)
    ensures Pow2(2 * k) == Pow4(k)
  {
    if k != 0 {
      Pow2IsPow4(k - 1);
      assert Pow2(2 * k) == 2 * Pow2(2 * k - 1) == 4 * Pow2(2 * (k - 1));
    }
  }

  lemma {:induction false} Pow4Remainder(k: nat)
    ensures Pow4(k) == 3 * Delta(k) + 1
    ensures Delta(k + 1) == 4 * Delta(k) + 1
  {
    if k != 0 {
      Pow4Remainder(k - 1);
    }
  }

  lemma {:induction false} Pow4Monotone(j: nat, k: nat)
    requires j <= k
    ensures Pow4(j) <= Pow4(k)
    ensures j < k ==> Pow4(j + 1) <= Pow4(k)
    ensures Delta(j) <= Delta(k)
  {
    if j < k {
      Pow4Monotone(j, k - 1);
    }
  }

  lemma Pow4Values()
    ensures Pow4(1) == 4 && Pow4(2) == 16 && Delta(2) == 5
    ensures Pow4(31) == 0x4000_0000_0000_0000
  {
    Pow2Values();
    Pow2IsPow4(31);
  }

  // ---------- the shape of the table ----------

  lemma {:induction false} GroupBoundClosed(k: nat, j: nat)
    ensures GroupBound(k, j) == Pow4(k) + j * Delta(k)
  {
    if j != 0 {
      GroupBoundClosed(k, j - 1);
    }
  }

  lemma BoundInGroup(k: nat, j: nat)
    requires 2 <= k <= 30 && j < 9
    ensures Start(k) + j < BUCKETS - 1
    ensures Bound(Start(k) + j) == GroupBound(k, j)
  {
    assert (Start(k) + j + 4) / 9 == k && (Start(k) + j + 4) % 9 == j;
  }

  /** Every index from 14 to 274 is the j-th bound of exactly one group. */
  lemma GroupOf(i: nat) returns (k: nat, j: nat)
    requires 14 <= i < BUCKETS - 1
    ensures 2 <= k <= 30 && j < 9 && i == Start(k) + j
    ensures Bound(i) == GroupBound(k, j)
  {
    k, j := (i + 4) / 9, (i + 4) % 9;
  }

  /** Power-of-four starts: the index table points at 4^k for every k up to 30. */
  lemma StartsPointAtPowers(k: nat)
    requires k <= 30
    ensures Start(k) < BUCKETS && Bounds()[Starts()[k]] == Pow4(k)
  {
    Pow4Values();
    if k >= 2 {
      BoundInGroup(k, 0);
    }
  }

  /** Neighbouring bounds: delta apart inside a group; delta + 3 at its end (delta + 1 for the group of 4). */
  lemma Gaps(k: nat, j: nat)
    requires 1 <= k <= 30
    requires j < if k == 1 then 11 else 9
    ensures Start(k) + j + 1 < BUCKETS
    ensures var gap := Bound(Start(k) + j + 1) - Bound(Start(k) + j);
            if Start(k) + j + 1 == BUCKETS - 1 then gap > Delta(k)
            else if k == 1 then gap == Delta(k) + (if j == 10 then 1 else 0)
            else gap == Delta(k) + (if j == 8 then 3 else 0)
  {
    Pow4Values();
    if k == 1 {
      assert Start(1) + 11 == Start(2);
      BoundInGroup(2, 0);
    } else {
      BoundInGroup(k, j);
      Pow4Remainder(k);
      GroupBoundClosed(k, 8);
      if j < 8 {
        BoundInGroup(k, j + 1);
      } else if k < 30 {
        assert Start(k) + 9 == Start(k + 1);
        BoundInGroup(k + 1, 0);
      } else {
        Pow4Monotone(30, 31);
      }
    }
  }

  lemma AdjacentIncrease(i: nat)
    requires i + 1 < BUCKETS
    ensures Bound(i) < Bound(i + 1)
  {
    if i >= 14 {
      var k, j := GroupOf(i);
      Pow4Values();
      Pow4Monotone(2, k);
      Gaps(k, j);
    } else if i == 13 {
      assert Start(1) + 10 == 13;
      Gaps(1, 10);
    }
  }

  /** The table is strictly increasing. */
  lemma {:induction false} BoundsIncrease(i: nat, j: nat)
    requires i < j < BUCKETS
    ensures Bound(i) < Bound(j)
    decreases j - i
  {
    AdjacentIncrease(i);
    if i + 1 < j {
      BoundsIncrease(i + 1, j);
    }
  }

  // ---------- the generator ----------

  /** The generator's two file-level vectors and its `init` function. */
  class Generator {
    var bucketValues: seq<int>
    var powerOf4Index: seq<nat>

    constructor ()
      ensures bucketValues == [] && powerOf4Index == []
    {
      bucketValues, powerOf4Index := [], [];
    }

    /** Terminates with exactly the closed-form tables, although `current << 2` wraps to 0 at exp = 62. */
    method Init()
      requires bucketValues == [] && powerOf4Index == []
      modifies this
      ensures bucketValues == Bounds() && |bucketValues| == 276
      ensures powerOf4Index == Starts() && |powerOf4Index| == 32
    {
      powerOf4Index := powerOf4Index + [0];
      bucketValues := bucketValues + [1];
      bucketValues := bucketValues + [2];
      bucketValues := bucketValues + [3];

      var exp := DIGITS;
      ghost var k := 1;
      while exp < 64
        invariant exp == 2 * k && 1 <= k <= 32
        invariant powerOf4Index == Starts()[..k]
        invariant bucketValues == Bounds()[..Start(k)]
      {
        var current := Shl(1, exp);
        var delta := current / 3;
        var next := Wrap64(Shl(current, DIGITS) - delta);
        GroupRange(k, current, delta, next);

        TakeNext(Starts(), k);
        powerOf4Index := powerOf4Index + [|bucketValues|];
        ghost var j := 0;
        while current < next
          invariant j <= Width(k) && (current < next <==> j < Width(k))
          invariant current == GroupBound(k, j) && (j < Width(k) ==> next == Pow4(k + 1) - delta)
          invariant powerOf4Index == Starts()[..k + 1]
          invariant bucketValues == Bounds()[..Start(k) + j]
          decreases Width(k) - j
        {
          StepInGroup(k, j, current, delta, next);
          TakeNext(Bounds(), Start(k) + j);
          bucketValues := bucketValues + [current];
          current := Wrap64(current + delta);
          j := j + 1;
        }
        exp := exp + DIGITS;
        k := k + 1;
      }
      assert k == 32;
      TakeNext(Bounds(), Start(k));
      bucketValues := bucketValues + [INT64_MAX];
    }
  }

  lemma TakeNext<T>(table: seq<T>, n: nat)
    requires n < |table|
    ensures table[..n] + [table[n]] == table[..n + 1]
    ensures n + 1 == |table| ==> table[..n + 1] == table
  {
  }

  /** How many bounds the inner loop pushes for 4^k. */
  ghost function Width(k: nat): nat {
    if k == 1 then 11 else if k <= 30 then 9 else 0
  }

  /** What the outer loop computes before it enters the inner one; at 4^31 the shift leaves int64 and gives 0. */
  lemma GroupRange(k: nat, current: int, delta: int, next: int)
    requires 1 <= k <= 31
    requires current == Shl(1, 2 * k) && delta == current / 3 && next == Wrap64(Shl(current, DIGITS) - delta)
    ensures current == GroupBound(k, 0) && delta == Delta(k)
    ensures next == if k == 31 then 0 - delta else Pow4(k + 1) - delta
    ensures current < next <==> 0 < Width(k)
  {
    ShlOne(2 * k);
    Pow2IsPow4(k);
    Pow4Values();
    Pow4Monotone(k, 31);
    Pow4Remainder(k);
    ShiftByTwo(Pow4(k));
    if k < 31 {
      Pow4Monotone(k + 1, 31);
    }
  }

  lemma ShiftByTwo(x: int)
    requires 0 <= x < 0x2000_0000_0000_0000 || x == 0x4000_0000_0000_0000
    ensures Shl(x, DIGITS) == if x == 0x4000_0000_0000_0000 then 0 else 4 * x
  {
    assert Shl(x, DIGITS) == Wrap64(2 * Shl(x, 1)) == Wrap64(2 * Wrap64(2 * x));
  }

  /** One turn of the inner loop pushes the next bound and stays inside int64. */
  lemma StepInGroup(k: nat, j: nat, current: int, delta: int, next: int)
    requires 1 <= k <= 30 && j < Width(k)
    requires current == GroupBound(k, j) && delta == Delta(k) && next == Pow4(k + 1) - delta
    ensures Bounds()[Start(k) + j] == current
    ensures Wrap64(current + delta) == GroupBound(k, j + 1)
    ensures Wrap64(current + delta) < next <==> j + 1 < Width(k)
  {
    GroupEnd(k, j + 1);
    if k == 1 {
      GroupBoundClosed(k, j);
    } else {
      BoundInGroup(k, j);
    }
  }

  /** The inner loop's guard, in terms of how many bounds it has pushed. */
  lemma GroupEnd(k: nat, j: nat)
    requires 1 <= k <= 30 && 0 < j <= Width(k)
    ensures GroupBound(k, j) < Pow4(k + 1) - Delta(k) <==> j < Width(k)
    ensures GroupBound(k, j) <= INT64_MAX
  {
    Pow4Values();
    Pow4Monotone(k + 1, 31);
    Pow4Remainder(k);
    GroupBoundClosed(k, j);
    if k >= 2 {
      Pow4Monotone(2, k);
      NinthStepLeaves(Pow4(k), Delta(k), j);
    }
  }

  /** Nine steps of delta reach 4^(k+1) - delta, eight do not. */
  lemma NinthStepLeaves(p: int, d: int, j: int)
    requires d >= 5 && p == 3 * d + 1 && 0 < j <= 9
    ensures 0 <= j * d <= 9 * d
    ensures p + j * d < 4 * p - d <==> j < 9
  {
    if j < 9 {
      assert j * d <= 8 * d;
    }
  }
}
