/**
 The log2 latency histogram: what a reported percentile says about the sample of that rank.
 The quantile is a real number, its product with the total is rounded to a double, and latencies
 are 32-bit microseconds.
 */
module Histogram {
  import opened PowersOfTwo

  const BUCKETS: nat := 32
  const LIMIT: nat := 0x8000_0000

  // ---- one sample -------------------------------------------------------------------------------------

  /** Binary digits of us. */
  function Bits(us: nat): nat { if us == 0 then 0 else 1 + Bits(us / 2) }

  function Bucket(us: nat): (k: nat)
    ensures k < BUCKETS
  {
    if Bits(us) < BUCKETS then Bits(us) else BUCKETS - 1
  }

  method BucketIndex(us: nat) returns (idx: nat)
    ensures idx == Bucket(us)
  {
    idx := 0;
    var rest := us;
    while rest > 0 && idx < BUCKETS - 1
      invariant idx <= BUCKETS - 1 && idx + Bits(rest) == Bits(us)
      decreases rest
    {
      rest := rest / 2;
      idx := idx + 1;
    }
  }

  lemma {:induction false} BitsBound(us: nat)
    requires us > 0
    ensures Bits(us) > 0 && Pow2(Bits(us) - 1) <= us < Pow2(Bits(us))
  {
    if us > 1 {
      BitsBound(us / 2);
    }
  }

  lemma {:induction false} BitsMonotone(a: nat, b: nat)
    requires a <= b
    ensures Bits(a) <= Bits(b)
  {
    if a > 0 {
      BitsMonotone(a / 2, b / 2);
    }
  }

  /** The latency a bucket stands for. */
  function UpperEdge(idx: int): nat {
    if idx <= 0 then 0 else if idx >= 31 then LIMIT else Pow2(idx)
  }

  lemma Pow2At31()
    ensures Pow2(31) == LIMIT
  {
    SmallPowers();
    Pow2Add(24, 7);
  }

  /** The edge of a sample's own bucket: 0 for 0, else above the sample by at most a factor of two, up to the limit. */
  lemma EdgeBounds(us: nat)
    ensures us == 0 ==> UpperEdge(Bucket(us)) == 0
    ensures 0 < us < 0x8000_0000 ==> us < UpperEdge(Bucket(us)) <= 2 * us
    ensures us >= 0x8000_0000 ==> UpperEdge(Bucket(us)) == 0x8000_0000
  {
    if us > 0 {
      Pow2At31();
      BitsBound(us);
      if us >= LIMIT {
        BitsMonotone(LIMIT, us);
        BitsBound(LIMIT);
        if Bits(LIMIT) < 32 {
          if Bits(LIMIT) < 31 {
            Pow2Monotone(Bits(LIMIT), 31);
          }
        }
      } else if Bits(us) > 31 {
        if Bits(us) - 1 > 31 {
          Pow2Monotone(31, Bits(us) - 1);
        }
      }
    }
  }

  // ---- the percentile -----------------------------------------------------------------------------------

  function Sum(b: seq<nat>, i: nat): nat
    requires i <= |b|
  {
    if i == 0 then 0 else Sum(b, i - 1) + b[i - 1]
  }

  function Clamp(q: real): (r: real)
    ensures 0.0 <= r <= 1.0
  {
    if q < 0.0 then 0.0 else if q > 1.0 then 1.0 else q
  }

  const EXACT: nat := 0x20_0000_0000_0000

  /** Rounding to a double: monotone, and exact on the integers up to 2^53. */
  ghost predicate IsRounding(round: real -> real) {
    && (forall x, y | x <= y :: round(x) <= round(y))
    && forall n: nat | n <= EXACT :: Fixes(round, n)
  }

  predicate Fixes(round: real -> real, n: nat) { round(n as real) == n as real }

  /** The rank, from 1, of the sample asked for: the rounded product of quantile and total, cut to an integer. */
  function Rank(q: real, total: nat, round: real -> real): (r: nat)
    requires 0 < total < EXACT && IsRounding(round)
    ensures 1 <= r <= total
  {
    RankFits(Clamp(q), total, round);
    var target := round(Product(Clamp(q), total)).Floor;
    if target == 0 then 1 else target
  }

  /** The exact product of quantile and total. */
  function Product(q: real, total: nat): (x: real)
    requires 0.0 <= q <= 1.0
    ensures 0.0 <= x <= total as real
  {
    q * total as real
  }

  /** A number between two integers is rounded to between them. */
  lemma RoundedBetween(x: real, low: nat, high: nat, round: real -> real)
    requires low as real <= x <= high as real && high <= EXACT && IsRounding(round)
    ensures low <= round(x).Floor <= high
  {
    assert Fixes(round, low);
    assert Fixes(round, high);
    assert round(low as real) <= round(x) <= round(high as real);
  }

  lemma RankFits(q: real, total: nat, round: real -> real)
    requires 0.0 <= q <= 1.0 && total < EXACT && IsRounding(round)
    ensures 0 <= round(Product(q, total)).Floor <= total
  {
    hide Product;
    RoundedBetween(Product(q, total), 0, total, round);
  }

  lemma FloorBetween(x: real, n: nat)
    requires 0.0 <= x <= n as real
    ensures 0 <= x.Floor <= n && x.Floor as real <= x <= (x.Floor + 1) as real
  {}

  /** Rounding moves the cut product at most up to the next integer. */
  lemma RoundedRank(q: real, total: nat, round: real -> real)
    requires 0.0 <= q <= 1.0 && total < EXACT && IsRounding(round)
    ensures var exact := Product(q, total).Floor;
            exact <= round(Product(q, total)).Floor <= exact + 1
  {
    hide Product;
    FloorBetween(Product(q, total), total);
    var f: nat := Product(q, total).Floor;
    RoundedBetween(Product(q, total), f, f + 1, round);
  }

  predicate IsWhole(x: real) { x == x.Floor as real }

  /**
   What the rank of a quantile is, whatever the rounding: 1 from below 0, the total from above 1,
   and between them q * total when that is a positive integer, else less than one below it and at
   most one above it, or 1.
   */
  ghost predicate IsRankOf(q: real, total: nat, rank: nat) {
    && 1 <= rank <= total
    && (q <= 0.0 ==> rank == 1)
    && (q >= 1.0 ==> rank == total)
    && (0.0 <= q <= 1.0 ==>
          && (rank == 1 || rank as real <= q * total as real + 1.0)
          && q * total as real - 1.0 < rank as real
          && (IsWhole(q * total as real) && q > 0.0 ==> rank as real == q * total as real))
  }

  lemma RankMeans(q: real, total: nat, round: real -> real)
    requires 0 < total < EXACT && IsRounding(round)
    ensures IsRankOf(q, total, Rank(q, total, round))
  {
    var c := Clamp(q);
    var x := Product(c, total);
    assert q <= 0.0 ==> x == 0.0;
    assert q >= 1.0 ==> x == total as real;
    assert 0.0 <= q <= 1.0 ==> x == q * total as real;
    hide Product, Clamp;
    FloorBetween(x, total);
    RoundedRank(c, total, round);
    if IsWhole(x) { assert Fixes(round, x.Floor); }
  }

  /** The loop always stops inside the array, at the bucket the rank falls in. */
  method Percentile(buckets: array<nat>, q: real, round: real -> real) returns (us: nat, ghost rank: nat)
    requires IsRounding(round) && Sum(buckets[..], buckets.Length) < EXACT
    ensures Sum(buckets[..], buckets.Length) == 0 ==> us == 0
    ensures Sum(buckets[..], buckets.Length) > 0 ==>
              && IsRankOf(q, Sum(buckets[..], buckets.Length), rank)
              && exists k :: 0 <= k < buckets.Length && us == UpperEdge(k) && InBucket(buckets[..], k, rank)
  {
    hide Rank, IsRankOf;
    var b := buckets[..];
    var total := 0;
    for i := 0 to buckets.Length
      invariant total == Sum(b, i)
    {
      total := total + buckets[i];
    }
    if total == 0 { return 0, 0; }
    var target := Rank(q, total, round);
    RankMeans(q, total, round);
    var cum := 0;
    for i := 0 to buckets.Length
      invariant cum == Sum(b, i) < target
    {
      cum := cum + buckets[i];
      if cum >= target {
        assert InBucket(b, i, target);
        return UpperEdge(i), target;
      }
    }
    assert false;
  }

  predicate InBucket(b: seq<nat>, k: nat, rank: nat)
    requires k < |b|
  {
    Sum(b, k) < rank <= Sum(b, k + 1)
  }

  // ---- against the samples themselves ----------------------------------------------------------------------

  /** How many samples fall in bucket k, and below it. */
  function CountIn(samples: seq<nat>, k: nat): nat {
    if samples == [] then 0
    else CountIn(samples[..|samples| - 1], k) + if Bucket(samples[|samples| - 1]) == k then 1 else 0
  }

  function CountBelow(samples: seq<nat>, k: nat): nat {
    if samples == [] then 0
    else CountBelow(samples[..|samples| - 1], k) + if Bucket(samples[|samples| - 1]) < k then 1 else 0
  }

  predicate IsHistogram(b: seq<nat>, samples: seq<nat>) {
    |b| == BUCKETS && forall k | 0 <= k < BUCKETS :: b[k] == CountIn(samples, k)
  }

  /** Counting one more sample in its bucket keeps the histogram. */
  lemma RecordKeeps(b: seq<nat>, samples: seq<nat>, us: nat)
    requires IsHistogram(b, samples)
    ensures IsHistogram(b[Bucket(us) := b[Bucket(us)] + 1], samples + [us])
  {
    hide Bucket;
    assert (samples + [us])[..|samples|] == samples;
  }

  lemma {:induction false} BelowNext(samples: seq<nat>, k: nat)
    ensures CountBelow(samples, k + 1) == CountBelow(samples, k) + CountIn(samples, k)
  {
    hide Bucket;
    if samples != [] {
      BelowNext(samples[..|samples| - 1], k);
    }
  }

  lemma {:induction false} NoneBelow(samples: seq<nat>)
    ensures CountBelow(samples, 0) == 0
  {
    if samples != [] {
      NoneBelow(samples[..|samples| - 1]);
    }
  }

  lemma {:induction false} AllBelow(samples: seq<nat>)
    ensures CountBelow(samples, BUCKETS) == |samples|
  {
    if samples != [] {
      AllBelow(samples[..|samples| - 1]);
    }
  }

  lemma {:induction false} SumIsBelow(b: seq<nat>, samples: seq<nat>, k: nat)
    requires IsHistogram(b, samples) && k <= BUCKETS
    ensures Sum(b, k) == CountBelow(samples, k)
    decreases k
  {
    if k == 0 {
      NoneBelow(samples);
    } else {
      SumIsBelow(b, samples, k - 1);
      BelowNext(samples, k - 1);
    }
  }

  predicate Sorted(s: seq<nat>) { forall i, j | 0 <= i <= j < |s| :: s[i] <= s[j] }

  lemma {:induction false} BelowAtMost(samples: seq<nat>, k: nat)
    ensures CountBelow(samples, k) <= |samples|
  {
    if samples != [] {
      BelowAtMost(samples[..|samples| - 1], k);
    }
  }

  /** In sorted order the samples below a bucket come first. */
  lemma {:induction false} BelowIsPrefix(samples: seq<nat>, k: nat, i: nat)
    requires Sorted(samples) && i < |samples|
    ensures Bucket(samples[i]) < k <==> i < CountBelow(samples, k)
    decreases |samples|
  {
    var front, last := samples[..|samples| - 1], samples[|samples| - 1];
    BelowAtMost(front, k);
    BitsMonotone(samples[i], last);
    hide Bits;
    if Bucket(last) < k {
      AllBelowUpTo(samples, k);
    } else if i < |front| {
      BelowIsPrefix(front, k, i);
    }
  }

  /** If the largest is below, all are. */
  lemma {:induction false} AllBelowUpTo(samples: seq<nat>, k: nat)
    requires Sorted(samples) && samples != [] && Bucket(samples[|samples| - 1]) < k
    ensures CountBelow(samples, k) == |samples|
  {
    var n := |samples|;
    if n > 1 {
      BitsMonotone(samples[n - 2], samples[n - 1]);
      AllBelowUpTo(samples[..n - 1], k);
    }
  }

  /** The bucket a rank falls in is the bucket of the sample of that rank. */
  lemma RankedBucket(b: seq<nat>, samples: seq<nat>, k: nat, rank: nat)
    requires IsHistogram(b, samples) && Sorted(samples) && k < BUCKETS && 1 <= rank <= |samples|
    ensures InBucket(b, k, rank) <==> Bucket(samples[rank - 1]) == k
  {
    hide Bucket;
    SumIsBelow(b, samples, k);
    SumIsBelow(b, samples, k + 1);
    BelowIsPrefix(samples, k, rank - 1);
    BelowIsPrefix(samples, k + 1, rank - 1);
  }

  predicate Bounds(r: nat, s: nat) { if s == 0 then r == 0 else s < r <= 2 * s }

  /**
   The report for any samples, counted in any order, and any quantile: it bounds the sample of
   that rank within a factor of two, exactly when that sample is under 2^31 us, and is 2^31 us
   otherwise.
   */
  method ReportBounds(buckets: array<nat>, samples: seq<nat>, sorted: seq<nat>, q: real, round: real -> real)
    returns (us: nat, ghost rank: nat)
    requires IsRounding(round) && |samples| < EXACT
    requires samples != [] && IsHistogram(buckets[..], samples)
    requires Sorted(sorted) && multiset(sorted) == multiset(samples)
    ensures |sorted| == |samples| && IsRankOf(q, |samples|, rank)
    ensures Bounds(us, sorted[rank - 1]) <==> sorted[rank - 1] < 0x8000_0000
    ensures sorted[rank - 1] >= 0x8000_0000 ==> us == 0x8000_0000
  {
    hide Bucket, InBucket, UpperEdge;
    SameSize(samples, sorted);
    SameHistogram(buckets[..], samples, sorted);
    SumIsBelow(buckets[..], sorted, BUCKETS);
    AllBelow(sorted);
    us, rank := Percentile(buckets, q, round);
    forall k: nat | k < BUCKETS && InBucket(buckets[..], k, rank) ensures Bucket(sorted[rank - 1]) == k {
      RankedBucket(buckets[..], sorted, k, rank);
    }
    EdgeBounds(sorted[rank - 1]);
  }

  lemma SameSize(s: seq<nat>, t: seq<nat>)
    requires multiset(s) == multiset(t)
    ensures |s| == |t|
  {
    assert |multiset(s)| == |s| && |multiset(t)| == |t|;
  }

  lemma WithoutLast(s: seq<nat>, j: nat)
    requires j < |s| - 1
    ensures var n, w := |s| - 1, s[..j] + s[j + 1..];
            w[..|w| - 1] == s[..n][..j] + s[..n][j + 1..] && w[|w| - 1] == s[n]
  {
    var n, w := |s| - 1, s[..j] + s[j + 1..];
    assert s[..n][..j] == s[..j] && s[..n][j + 1..] == s[j + 1..n];
    forall i | 0 <= i < n - 1 ensures w[i] == (s[..j] + s[j + 1..n])[i] {}
  }

  lemma {:induction false} CountWithout(s: seq<nat>, j: nat, k: nat)
    requires j < |s|
    ensures CountIn(s, k) == CountIn(s[..j] + s[j + 1..], k) + if Bucket(s[j]) == k then 1 else 0
    decreases |s|
  {
    hide Bucket;
    var n := |s| - 1;
    if j == n {
      assert s[..j] + s[j + 1..] == s[..n];
    } else {
      CountWithout(s[..n], j, k);
      WithoutLast(s, j);
    }
  }

  lemma Removed(s: seq<nat>, j: nat)
    requires j < |s|
    ensures multiset(s[..j] + s[j + 1..]) == multiset(s) - multiset{s[j]}
  {
    assert s == s[..j] + [s[j]] + s[j + 1..];
  }

  /** Counts depend only on the multiset of the samples. */
  lemma {:induction false} CountOfPermutation(s: seq<nat>, t: seq<nat>, k: nat)
    requires multiset(s) == multiset(t)
    ensures CountIn(s, k) == CountIn(t, k)
    decreases |s|
  {
    SameSize(s, t);
    if s != [] {
      var j := Partner(s, t);
      hide Bucket;
      CountWithout(t, j, k);
      CountOfPermutation(s[..|s| - 1], t[..j] + t[j + 1..], k);
    }
  }

  /** A place in t for the last of s. */
  lemma Partner(s: seq<nat>, t: seq<nat>) returns (j: nat)
    requires s != [] && multiset(s) == multiset(t)
    ensures j < |t| && t[j] == s[|s| - 1]
    ensures multiset(s[..|s| - 1]) == multiset(t[..j] + t[j + 1..])
  {
    assert s[|s| - 1] in multiset(t);
    j :| j < |t| && t[j] == s[|s| - 1];
    Removed(s, |s| - 1);
    Removed(t, j);
    assert s[..|s| - 1] + s[|s|..] == s[..|s| - 1];
  }

  lemma SameHistogram(b: seq<nat>, samples: seq<nat>, sorted: seq<nat>)
    requires IsHistogram(b, samples) && multiset(sorted) == multiset(samples)
    ensures IsHistogram(b, sorted)
  {
    forall k | 0 <= k < BUCKETS ensures b[k] == CountIn(sorted, k) {
      CountOfPermutation(samples, sorted, k);
    }
  }
}
