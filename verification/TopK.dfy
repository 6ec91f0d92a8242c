/**
 Nearest-k selection over candidates, the notion the scan-time merge, the reference
 index and the benchmark ground truth are all measured against.  Distances are real
 numbers; only their order matters here.
 */
module TopK {

  datatype Metric = L2 | Cosine | InnerProduct

  datatype Candidate = Candidate(id: int, dist: real)

  /** a is at least as near as b: inner products order descending, the others ascending. */
  predicate Near(m: Metric, a: real, b: real) {
    if m == InnerProduct then a >= b else a <= b
  }

  predicate Ordered(m: Metric, s: seq<Candidate>) {
    forall i, j | 0 <= i < j < |s| :: Near(m, s[i].dist, s[j].dist)
  }

  function Min(a: nat, b: nat): nat { if a < b then a else b }

  /** r holds min(k, |pool|) candidates of pool, and everything left out is no nearer. */
  ghost predicate IsNearest(m: Metric, r: seq<Candidate>, pool: seq<Candidate>, k: nat) {
    && |r| == Min(k, |pool|)
    && multiset(r) <= multiset(pool)
    && LeftOutNoNearer(m, r, multiset(pool) - multiset(r))
  }

  /** The nearest k, nearest first. */
  ghost predicate IsTopK(m: Metric, r: seq<Candidate>, pool: seq<Candidate>, k: nat) {
    IsNearest(m, r, pool, k) && Ordered(m, r)
  }

  ghost predicate LeftOutNoNearer(m: Metric, r: seq<Candidate>, rest: multiset<Candidate>) {
    forall i, y | 0 <= i < |r| && y in rest :: Near(m, r[i].dist, y.dist)
  }

  /**
   In plain comparisons: min(k, |pool|) candidates of the pool, ascending and none left out
   strictly nearer under L2 and cosine, the same with the order turned round for inner products.
   */
  lemma TopKMeans(m: Metric, r: seq<Candidate>, pool: seq<Candidate>, k: nat)
    ensures IsTopK(m, r, pool, k) <==>
              && |r| == (if k < |pool| then k else |pool|) && multiset(r) <= multiset(pool)
              && (m != InnerProduct ==>
                    && (forall i, j | 0 <= i < j < |r| :: r[i].dist <= r[j].dist)
                    && forall i, y | 0 <= i < |r| && y in multiset(pool) - multiset(r) :: r[i].dist <= y.dist)
              && (m == InnerProduct ==>
                    && (forall i, j | 0 <= i < j < |r| :: r[i].dist >= r[j].dist)
                    && forall i, y | 0 <= i < |r| && y in multiset(pool) - multiset(r) :: r[i].dist >= y.dist)
  {
    if m == InnerProduct {
      assert Ordered(m, r) <==> forall i, j | 0 <= i < j < |r| :: r[i].dist >= r[j].dist;
    }
  }

  // ---- sorted sequences -------------------------------------------------------------

  lemma SplitMultiset<T>(s: seq<T>, i: nat)
    requires i <= |s|
    ensures multiset(s) == multiset(s[..i]) + multiset(s[i..])
  {
    assert s == s[..i] + s[i..];
  }

  /** Cutting any sorted permutation of the pool, stable or not, gives the nearest k. */
  lemma SortedPrefixIsTopK(m: Metric, s: seq<Candidate>, pool: seq<Candidate>, k: nat)
    requires multiset(s) == multiset(pool) && Ordered(m, s)
    ensures |s| == |pool|
    ensures IsTopK(m, s[..Min(k, |s|)], pool, k)
  {
    assert |multiset(s)| == |s| && |multiset(pool)| == |pool|;
    var n := Min(k, |s|);
    SplitMultiset(s, n);
    assert multiset(pool) - multiset(s[..n]) == multiset(s[n..]);
    SuffixNoNearer(m, s, n);
  }

  lemma SuffixNoNearer(m: Metric, s: seq<Candidate>, n: nat)
    requires n <= |s| && Ordered(m, s)
    ensures LeftOutNoNearer(m, s[..n], multiset(s[n..]))
  {
    forall i, y | 0 <= i < n && y in multiset(s[n..])
      ensures Near(m, s[..n][i].dist, y.dist)
    {
      IndexBeyond(s, n, y);
    }
  }

  lemma SubmultisetSize<T>(a: multiset<T>, b: multiset<T>)
    requires a <= b
    ensures |a| <= |b| && (|a| == |b| ==> a == b)
  {
    assert b == a + (b - a);
  }

  /** A multiset that is not within another has an element in excess. */
  lemma Excess<T>(a: multiset<T>, b: multiset<T>) returns (c: T)
    requires |a| > |b| || (|a| == |b| && a != b)
    ensures a[c] > b[c]
  {
    if a <= b {
      SubmultisetSize(a, b);
    }
    c :| c in a && a[c] > b[c];
  }

  // ---- merging more candidates into a truncated result ------------------------------

  /** Merging a pool into the nearest k of another and truncating loses nothing. */
  lemma MergeNearest(m: Metric, base: seq<Candidate>, pool: seq<Candidate>, more: seq<Candidate>,
                     r: seq<Candidate>, k: nat)
    requires IsNearest(m, base, pool, k)
    requires IsNearest(m, r, base + more, k)
    ensures IsNearest(m, r, pool + more, k)
  {
    assert multiset(base + more) == multiset(base) + multiset(more);
    assert multiset(pool + more) == multiset(pool) + multiset(more);
    var rest := multiset(pool + more) - multiset(r);
    forall i, y | 0 <= i < |r| && y in rest
      ensures Near(m, r[i].dist, y.dist)
    {
      if y !in multiset(base + more) - multiset(r) {
        assert y in multiset(pool) - multiset(base);
        LeftOutMeansFull(m, base, pool, k, y);
        MergedNoFarther(m, base, pool, more, r, k, i, y);
      }
    }
  }

  lemma MergeTopK(m: Metric, base: seq<Candidate>, pool: seq<Candidate>, more: seq<Candidate>,
                  r: seq<Candidate>, k: nat)
    requires IsTopK(m, base, pool, k)
    requires IsTopK(m, r, base + more, k)
    ensures IsTopK(m, r, pool + more, k)
  {
    MergeNearest(m, base, pool, more, r, k);
  }

  lemma LeftOutMeansFull(m: Metric, r: seq<Candidate>, pool: seq<Candidate>, k: nat, y: Candidate)
    requires IsNearest(m, r, pool, k) && y in multiset(pool) - multiset(r)
    ensures |r| == k
  {
    assert multiset(pool) == multiset(r) + (multiset(pool) - multiset(r));
    assert |multiset(pool)| == |pool| && |multiset(r)| == |r|;
  }

  lemma MergedNoFarther(m: Metric, base: seq<Candidate>, pool: seq<Candidate>, more: seq<Candidate>,
                        r: seq<Candidate>, k: nat, i: nat, y: Candidate)
    requires IsNearest(m, base, pool, k) && |base| == k
    requires IsNearest(m, r, base + more, k) && i < |r|
    requires y in multiset(pool) - multiset(base)
    ensures Near(m, r[i].dist, y.dist)
  {
    assert r[i] in multiset(r);
    if r[i] in multiset(base) {
      var j :| 0 <= j < |base| && base[j] == r[i];
    } else {
      assert |multiset(base)| == |base| && |multiset(r)| == |r|;
      var z := Excess(multiset(base), multiset(r));
      assert multiset(base + more) == multiset(base) + multiset(more);
      assert z in multiset(base + more) - multiset(r);
      var j :| 0 <= j < |base| && base[j] == z;
      assert Near(m, r[i].dist, z.dist) && Near(m, base[j].dist, y.dist);
    }
  }

  // ---- filtering an over-fetched result ----------------------------------------------

  function Filter(keep: int -> bool, s: seq<Candidate>): (f: seq<Candidate>)
    ensures |f| <= |s|
  {
    if s == [] then []
    else Filter(keep, s[..|s| - 1]) + if keep(s[|s| - 1].id) then [s[|s| - 1]] else []
  }

  lemma {:induction false} FilterCounts(keep: int -> bool, s: seq<Candidate>, c: Candidate)
    ensures multiset(Filter(keep, s))[c] == if keep(c.id) then multiset(s)[c] else 0
  {
    if s != [] {
      FilterCounts(keep, s[..|s| - 1], c);
      assert s == s[..|s| - 1] + [s[|s| - 1]];
    }
  }

  lemma {:induction false} FilterOrdered(m: Metric, keep: int -> bool, s: seq<Candidate>)
    requires Ordered(m, s)
    ensures Ordered(m, Filter(keep, s))
  {
    if s != [] {
      var front, last := s[..|s| - 1], s[|s| - 1];
      FilterOrdered(m, keep, front);
      var f := Filter(keep, front);
      forall i | 0 <= i < |f| ensures Near(m, f[i].dist, last.dist) {
        FilterCounts(keep, front, f[i]);
        assert f[i] in multiset(f);
        assert f[i] in multiset(front);
        var j :| 0 <= j < |front| && front[j] == f[i];
      }
    }
  }

  lemma {:induction false} FilterConcat(keep: int -> bool, a: seq<Candidate>, b: seq<Candidate>)
    ensures Filter(keep, a + b) == Filter(keep, a) + Filter(keep, b)
  {
    if b == [] {
      assert a + b == a;
    } else {
      FilterConcat(keep, a, b[..|b| - 1]);
      assert (a + b)[..|a + b| - 1] == a + b[..|b| - 1];
    }
  }

  lemma FilterSubmultiset(keep: int -> bool, a: seq<Candidate>, b: seq<Candidate>)
    requires multiset(a) <= multiset(b)
    ensures multiset(Filter(keep, a)) <= multiset(Filter(keep, b))
    ensures multiset(a) == multiset(b) ==> multiset(Filter(keep, a)) == multiset(Filter(keep, b))
  {
    forall c ensures multiset(Filter(keep, a))[c] <= multiset(Filter(keep, b))[c] {
      FilterCounts(keep, a, c);
      FilterCounts(keep, b, c);
    }
    if multiset(a) == multiset(b) {
      forall c ensures multiset(Filter(keep, a))[c] == multiset(Filter(keep, b))[c] {
        FilterCounts(keep, a, c);
        FilterCounts(keep, b, c);
      }
    }
  }

  /**
   Over-fetching by at least the number of rows that filtering removes makes the filter
   exact: what survives of the nearest k+t, cut to k, is the nearest k of the survivors.
   */
  lemma FilterTopK(m: Metric, keep: int -> bool, r: seq<Candidate>, pool: seq<Candidate>, k: nat, t: nat)
    requires IsTopK(m, r, pool, k + t)
    requires |r| <= |Filter(keep, r)| + t
    ensures IsTopK(m, Filter(keep, r)[..Min(k, |Filter(keep, r)|)], Filter(keep, pool), k)
  {
    if |r| == |pool| {
      WholePoolFilters(m, keep, r, pool, k);
    } else {
      CutSurvivors(m, keep, r, pool, k, t);
    }
  }

  function Cut(s: seq<Candidate>, k: nat): (r: seq<Candidate>)
    ensures |r| == Min(k, |s|)
  {
    s[..Min(k, |s|)]
  }

  /** How many of s a filter takes away, the length before less the length after. */
  function Dropped(keep: int -> bool, s: seq<Candidate>): nat { |s| - |Filter(keep, s)| }

  /**
   Filtering the nearest n and cutting to k is exact precisely when the filter takes away no
   more than the n-k rows of slack, or none of the rows it keeps was left out.
   */
  lemma FilterExactly(m: Metric, keep: int -> bool, r: seq<Candidate>, pool: seq<Candidate>, k: nat, n: nat)
    requires IsTopK(m, r, pool, n) && k <= n
    ensures IsTopK(m, Cut(Filter(keep, r), k), Filter(keep, pool), k) <==>
              Dropped(keep, r) <= n - k || |Filter(keep, r)| == |Filter(keep, pool)|
  {
    var f, live := Filter(keep, r), Filter(keep, pool);
    FilterSubmultiset(keep, r, pool);
    assert |multiset(f)| == |f| && |multiset(live)| == |live|;
    SubmultisetSize(multiset(f), multiset(live));
    if Dropped(keep, r) <= n - k {
      FilterTopK(m, keep, r, pool, k, n - k);
    } else if |f| == |live| {
      FilterOrdered(m, keep, r);
      SortedPrefixIsTopK(m, f, live, k);
    }
  }

  lemma WholePoolFilters(m: Metric, keep: int -> bool, r: seq<Candidate>, pool: seq<Candidate>, k: nat)
    requires multiset(r) <= multiset(pool) && |r| == |pool| && Ordered(m, r)
    ensures IsTopK(m, Filter(keep, r)[..Min(k, |Filter(keep, r)|)], Filter(keep, pool), k)
  {
    assert |multiset(pool)| == |pool| && |multiset(r)| == |r|;
    SubmultisetSize(multiset(r), multiset(pool));
    FilterOrdered(m, keep, r);
    FilterSubmultiset(keep, r, pool);
    SortedPrefixIsTopK(m, Filter(keep, r), Filter(keep, pool), k);
  }

  lemma CutSurvivors(m: Metric, keep: int -> bool, r: seq<Candidate>, pool: seq<Candidate>, k: nat, t: nat)
    requires IsTopK(m, r, pool, k + t)
    requires k <= |Filter(keep, r)|
    ensures IsTopK(m, Filter(keep, r)[..k], Filter(keep, pool), k)
  {
    var f, live := Filter(keep, r), Filter(keep, pool);
    FilterOrdered(m, keep, r);
    FilterSubmultiset(keep, r, pool);
    assert |multiset(f)| == |f| && |multiset(live)| == |live|;
    SubmultisetSize(multiset(f), multiset(live));
    var cut := f[..k];
    SplitMultiset(f, k);
    assert LeftOutNoNearer(m, cut, multiset(live) - multiset(cut)) by {
      forall i, y | 0 <= i < k && y in multiset(live) - multiset(cut)
        ensures Near(m, cut[i].dist, y.dist)
      {
        SurvivorNoFarther(m, keep, r, pool, k, t, i, y);
      }
    }
  }

  lemma SurvivorNoFarther(m: Metric, keep: int -> bool, r: seq<Candidate>, pool: seq<Candidate>,
                          k: nat, t: nat, i: nat, y: Candidate)
    requires IsTopK(m, r, pool, k + t)
    requires Ordered(m, Filter(keep, r)) && i < k <= |Filter(keep, r)|
    requires y in multiset(Filter(keep, pool)) - multiset(Filter(keep, r)[..k])
    ensures Near(m, Filter(keep, r)[i].dist, y.dist)
  {
    hide Filter;
    var f := Filter(keep, r);
    SplitMultiset(f, k);
    if y in f[k..] {
      IndexBeyond(f, k, y);
    } else {
      FilterCounts(keep, pool, y);
      FilterCounts(keep, r, y);
      assert y in multiset(pool) - multiset(r);
      FilterMember(keep, r, i);
    }
  }

  lemma FilterMember(keep: int -> bool, r: seq<Candidate>, i: nat)
    requires i < |Filter(keep, r)|
    ensures exists j :: 0 <= j < |r| && r[j] == Filter(keep, r)[i]
  {
    var f := Filter(keep, r);
    FilterCounts(keep, r, f[i]);
    assert f[i] in multiset(f);
    assert f[i] in multiset(r);
  }

  // ---- the distances are determined ---------------------------------------------------

  /** Ties may be broken either way, but every answer has the same distances in the same order. */
  lemma DistancesDetermined(m: Metric, r: seq<Candidate>, s: seq<Candidate>, pool: seq<Candidate>, k: nat, i: nat)
    requires IsTopK(m, r, pool, k) && IsTopK(m, s, pool, k) && i < |r|
    ensures |r| == |s| && r[i].dist == s[i].dist
  {
    NoFartherAt(m, r, s, pool, k, i);
    NoFartherAt(m, s, r, pool, k, i);
  }

  lemma NoFartherAt(m: Metric, r: seq<Candidate>, s: seq<Candidate>, pool: seq<Candidate>, k: nat, i: nat)
    requires IsTopK(m, r, pool, k) && IsTopK(m, s, pool, k) && i < |r|
    ensures Near(m, s[i].dist, r[i].dist)
  {
    var c := Overlooked(r, s, i);
    SplitMultiset(r, i + 1);
    BeyondNoNearer(m, s, pool, k, i, c);
  }

  /** A pool element not used up by the first i results is no nearer than result i. */
  lemma BeyondNoNearer(m: Metric, s: seq<Candidate>, pool: seq<Candidate>, k: nat, i: nat, c: Candidate)
    requires IsTopK(m, s, pool, k) && i < |s|
    requires multiset(pool)[c] > multiset(s[..i])[c]
    ensures Near(m, s[i].dist, c.dist)
  {
    SplitMultiset(s, i);
    if c in s[i..] {
      IndexBeyond(s, i, c);
    } else {
      assert c in multiset(pool) - multiset(s);
    }
  }

  lemma IndexBeyond(s: seq<Candidate>, i: nat, c: Candidate)
    requires i <= |s| && c in s[i..]
    ensures exists j :: i <= j < |s| && s[j] == c
  {
    var l :| 0 <= l < |s[i..]| && s[i..][l] == c;
    assert s[i + l] == c;
  }

  /** One of the first i+1 elements of r is missing among the first i of s. */
  lemma Overlooked(r: seq<Candidate>, s: seq<Candidate>, i: nat) returns (c: Candidate)
    requires i < |r| && i <= |s|
    ensures multiset(r[..i + 1])[c] > multiset(s[..i])[c]
    ensures exists j :: 0 <= j <= i && r[j] == c
  {
    assert |multiset(r[..i + 1])| == i + 1 && |multiset(s[..i])| == i;
    c := Excess(multiset(r[..i + 1]), multiset(s[..i]));
    var j :| 0 <= j < i + 1 && r[..i + 1][j] == c;
    assert r[j] == c;
  }

  // ---- distinct candidates --------------------------------------------------------------

  predicate DistinctIds(s: seq<Candidate>) {
    forall i, j | 0 <= i < j < |s| :: s[i].id != s[j].id
  }

  lemma DistinctWithin(r: seq<Candidate>, pool: seq<Candidate>)
    requires DistinctIds(pool) && multiset(r) <= multiset(pool)
    ensures DistinctIds(r)
  {
    forall i, j | 0 <= i < j < |r| ensures r[i].id != r[j].id {
      assert r[i] in multiset(pool) && r[j] in multiset(pool);
      if r[i] == r[j] {
        SplitMultiset(r, j);
        assert r[i] in multiset(r[..j]) by { assert r[..j][i] == r[i]; }
        assert r[j] in multiset(r[j..]) by { assert r[j..][0] == r[j]; }
        CountedOnce(pool, r[i]);
      }
    }
  }

  lemma {:induction false} CountedOnce(s: seq<Candidate>, c: Candidate)
    requires DistinctIds(s)
    ensures multiset(s)[c] <= 1
  {
    if s != [] {
      CountedOnce(s[..|s| - 1], c);
      assert s == s[..|s| - 1] + [s[|s| - 1]];
      if s[|s| - 1] == c {
        assert c !in s[..|s| - 1];
      }
    }
  }

  lemma SubmultisetMembers(r: seq<Candidate>, s: seq<Candidate>)
    requires multiset(r) <= multiset(s)
    ensures forall c | c in r :: c in s
  {
    forall c | c in r ensures c in s { assert c in multiset(r) && c in multiset(s); }
  }

  // ---- sorting --------------------------------------------------------------------------

  method InsertOrdered(m: Metric, s: seq<Candidate>, c: Candidate) returns (r: seq<Candidate>)
    requires Ordered(m, s)
    ensures Ordered(m, r) && multiset(r) == multiset(s) + multiset{c}
  {
    var p: nat := |s|;
    while p > 0 && !Near(m, s[p - 1].dist, c.dist)
      invariant p <= |s|
      invariant forall j | p <= j < |s| :: Near(m, c.dist, s[j].dist)
    {
      p := p - 1;
    }
    SplitMultiset(s, p);
    r := s[..p] + [c] + s[p..];
  }

  /** The C library's sort: some sorted permutation, with no promise about ties. */
  method SortCandidates(m: Metric, s: seq<Candidate>) returns (r: seq<Candidate>)
    ensures Ordered(m, r) && multiset(r) == multiset(s)
  {
    r := [];
    for i := 0 to |s|
      invariant Ordered(m, r) && multiset(r) == multiset(s[..i])
    {
      r := InsertOrdered(m, r, s[i]);
      assert s[..i + 1] == s[..i] + [s[i]];
    }
    assert s[..|s|] == s;
  }
}
