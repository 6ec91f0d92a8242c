/**
 Merging pending rows into an answer that already has them: when that is exact whatever the
 sort does with ties, and when some outcome repeats a row.
 */
module Remerge {
  import opened TopK

  /** The pending rows can be merged into an answer that already has them without repeating one. */
  predicate RemergeSafe(m: Metric, r: seq<Candidate>, more: seq<Candidate>, n: nat) {
    more == []
    || (|r| == n && (n < 2 || forall i | 0 <= i < n && r[i] in more :: !Near(m, r[i].dist, r[n - 2].dist)))
  }

  /** A place for c in an ordered sequence. */
  lemma {:induction false} PlaceFor(m: Metric, s: seq<Candidate>, c: Candidate) returns (p: nat)
    requires Ordered(m, s)
    ensures p <= |s| && (forall j | 0 <= j < p :: Near(m, s[j].dist, c.dist))
    ensures forall j | p <= j < |s| :: Near(m, c.dist, s[j].dist)
  {
    if s == [] || Near(m, s[|s| - 1].dist, c.dist) {
      p := |s|;
    } else {
      p := PlaceFor(m, s[..|s| - 1], c);
    }
  }

  /** Sorting has a result. */
  lemma {:induction false} SortedForm(m: Metric, s: seq<Candidate>) returns (r: seq<Candidate>)
    ensures Ordered(m, r) && multiset(r) == multiset(s)
  {
    if s == [] {
      r := [];
    } else {
      var front := SortedForm(m, s[..|s| - 1]);
      var c := s[|s| - 1];
      var p := PlaceFor(m, front, c);
      r := front[..p] + [c] + front[p..];
      SplitMultiset(front, p);
      assert s == s[..|s| - 1] + [c];
    }
  }

  lemma TopKExists(m: Metric, pool: seq<Candidate>, n: nat) returns (r: seq<Candidate>)
    ensures IsTopK(m, r, pool, n)
  {
    var s := SortedForm(m, pool);
    SortedPrefixIsTopK(m, s, pool, n);
    r := s[..Min(n, |s|)];
  }

  /** Merging into a safe answer keeps it exact, however the sort breaks ties. */
  lemma SafeRemerge(m: Metric, r: seq<Candidate>, base: seq<Candidate>, more: seq<Candidate>, n: nat, s: seq<Candidate>)
    requires DistinctIds(base + more) && IsTopK(m, r, base + more, n) && RemergeSafe(m, r, more, n)
    requires IsTopK(m, s, r + more, n)
    ensures IsTopK(m, s, base + more, n)
  {
    var pool := base + more;
    MergeTopK(m, r, pool, more, s, n);
    if more == [] {
      assert pool + more == pool;
    } else {
      assert multiset(pool + more) == multiset(pool) + multiset(more);
      assert |multiset(pool)| == |pool| && |multiset(r)| == |r|;
      SubmultisetSize(multiset(r), multiset(pool));
      forall c ensures multiset(s)[c] <= multiset(pool)[c] {
        RemergedOnce(m, r, base, more, n, s, c);
      }
    }
  }

  lemma RemergedOnce(m: Metric, r: seq<Candidate>, base: seq<Candidate>, more: seq<Candidate>, n: nat,
                     s: seq<Candidate>, c: Candidate)
    requires DistinctIds(base + more) && IsTopK(m, r, base + more, n) && RemergeSafe(m, r, more, n) && more != []
    requires IsTopK(m, s, r + more, n)
    ensures multiset(s)[c] <= multiset(base + more)[c]
  {
    assert multiset(base + more) == multiset(base) + multiset(more);
    assert multiset(r + more) == multiset(r) + multiset(more);
    CountedOnce(base + more, c);
    CountAtMost(s, c);
    if multiset(s)[c] >= 2 && n >= 2 {
      DistinctWithin(r, base + more);
      CountedOnce(r, c);
      assert c in multiset(r) && c in multiset(more);
      var i :| 0 <= i < |r| && r[i] == c;
      NearerAllPresent(m, r, more, n, s, c);
      Crowded(r[..n - 1], s, c);
    }
  }

  lemma CountAtMost(s: seq<Candidate>, c: Candidate)
    ensures multiset(s)[c] <= |s|
  {
    assert |multiset(s)| == |s|;
    assert multiset(s) == multiset(s)[c := 0] + multiset{}[c := multiset(s)[c]];
  }

  /** A row strictly nearer than a chosen one is chosen as often as it is there. */
  lemma NearerPresent(m: Metric, s: seq<Candidate>, pool: seq<Candidate>, n: nat, c: Candidate, x: Candidate)
    requires IsTopK(m, s, pool, n) && c in s && !Near(m, c.dist, x.dist)
    ensures multiset(s)[x] >= multiset(pool)[x]
  {
    var l :| 0 <= l < |s| && s[l] == c;
    assert multiset(pool)[x] > multiset(s)[x] ==> x in multiset(pool) - multiset(s);
  }

  /** The rows of an ordered answer before its last are strictly nearer than c if the last but one is. */
  lemma HeadNearer(m: Metric, r: seq<Candidate>, n: nat, c: Candidate)
    requires 2 <= n <= |r| && Ordered(m, r) && !Near(m, c.dist, r[n - 2].dist)
    ensures forall x | x in r[..n - 1] :: !Near(m, c.dist, x.dist)
    ensures c !in r[..n - 1]
  {
    forall x | x in r[..n - 1] ensures !Near(m, c.dist, x.dist) {
      var j :| 0 <= j < n - 1 && r[j] == x;
      assert Near(m, r[j].dist, r[n - 2].dist);
    }
  }

  /** Rows strictly nearer than a chosen one are all chosen. */
  lemma NearerAllPresent(m: Metric, r: seq<Candidate>, more: seq<Candidate>, n: nat, s: seq<Candidate>, c: Candidate)
    requires IsTopK(m, s, r + more, n) && c in s && 2 <= n <= |r| && Ordered(m, r)
    requires !Near(m, c.dist, r[n - 2].dist)
    ensures multiset(r[..n - 1]) <= multiset(s) && c !in r[..n - 1]
  {
    hide IsTopK, Ordered, Near;
    var head := r[..n - 1];
    HeadNearer(m, r, n, c);
    assert r + more == head + (r[n - 1..] + more);
    forall x ensures multiset(head)[x] <= multiset(s)[x] {
      if x in head {
        NearerPresent(m, s, r + more, n, c, x);
      }
    }
  }

  /** n-1 rows and another one twice do not fit into n. */
  lemma Crowded(head: seq<Candidate>, s: seq<Candidate>, c: Candidate)
    requires multiset(head) <= multiset(s) && c !in head && multiset(s)[c] >= 2
    ensures |s| >= |head| + 2
  {
    var all := multiset(head) + multiset{c, c};
    assert c !in multiset(head);
    assert all <= multiset(s);
    SubmultisetSize(all, multiset(s));
    assert |multiset(s)| == |s| && |multiset(head)| == |head|;
  }

  // ---- and where it is not safe -------------------------------------------------------------

  /** The first pending row of an unsafe answer has room to appear twice. */
  lemma FirstPending(m: Metric, r: seq<Candidate>, more: seq<Candidate>, n: nat) returns (i: nat)
    requires |r| == n >= 2 && !RemergeSafe(m, r, more, n) && Ordered(m, r)
    ensures i < n && r[i] in more && Near(m, r[i].dist, r[n - 2].dist)
    ensures forall j | 0 <= j < i :: r[j] !in more
  {
    i :| 0 <= i < n && r[i] in more && Near(m, r[i].dist, r[n - 2].dist);
    while exists j: nat :: j < i && r[j] in more
      invariant i < n && r[i] in more && Near(m, r[i].dist, r[n - 2].dist)
      decreases i
    {
      var j: nat :| j < i && r[j] in more;
      assert Near(m, r[j].dist, r[i].dist);
      i := j;
    }
  }

  /** Merging into an unsafe answer can go wrong: some tie-breaking of the sort gives a wrong result. */
  lemma UnsafeRemerge(m: Metric, r: seq<Candidate>, base: seq<Candidate>, more: seq<Candidate>, n: nat)
    returns (s: seq<Candidate>)
    requires DistinctIds(base + more) && IsTopK(m, r, base + more, n) && !RemergeSafe(m, r, more, n)
    ensures IsTopK(m, s, r + more, n) && !IsTopK(m, s, base + more, n)
  {
    if |r| < n {
      s := TopKExists(m, r + more, n);
    } else {
      var i := FirstPending(m, r, more, n);
      s := RepeatRow(m, r, base, more, n, i);
    }
  }

  function Without(s: seq<Candidate>, i: nat): (r: seq<Candidate>)
    requires i < |s|
    ensures |r| == |s| - 1
  {
    s[..i] + s[i + 1..]
  }

  lemma WithoutCounts(s: seq<Candidate>, i: nat)
    requires i < |s|
    ensures multiset(s) == multiset(Without(s, i)) + multiset{s[i]}
  {
    assert s == s[..i] + [s[i]] + s[i + 1..];
  }

  /** What is left of the answer and the pending rows after r[..p], r[i] and more[q]. */
  function Rest(r: seq<Candidate>, more: seq<Candidate>, p: nat, i: nat, q: nat): seq<Candidate>
    requires p <= i < |r| && q < |more|
  {
    Without(r, i)[p..] + Without(more, q)
  }

  lemma RestCounts(r: seq<Candidate>, more: seq<Candidate>, p: nat, i: nat, q: nat)
    requires p <= i < |r| && q < |more|
    ensures multiset(r[..p] + [r[i], more[q]]) + multiset(Rest(r, more, p, i, q)) == multiset(r + more)
  {
    WithoutCounts(r, i);
    WithoutCounts(more, q);
    SplitMultiset(Without(r, i), p);
    assert Without(r, i)[..p] == r[..p];
    assert multiset(r + more) == multiset(r) + multiset(more);
  }

  /** None of those is nearer than the first pending row. */
  lemma AnswerRestNoNearer(m: Metric, r: seq<Candidate>, n: nat, i: nat, l: nat)
    requires Ordered(m, r) && |r| == n >= 2 && i < n && Near(m, r[i].dist, r[n - 2].dist)
    requires Min(i, n - 2) <= l < n - 1
    ensures Near(m, r[i].dist, Without(r, i)[l].dist)
  {
    assert Without(r, i)[l] == r[if l < i then l else l + 1];
  }

  lemma PendingNoNearer(m: Metric, r: seq<Candidate>, base: seq<Candidate>, more: seq<Candidate>, n: nat, i: nat, x: Candidate)
    requires IsTopK(m, r, base + more, n) && i < |r| && x in more && forall j | 0 <= j < i :: r[j] !in more
    ensures Near(m, r[i].dist, x.dist)
  {
    if x in r {
      var j :| 0 <= j < |r| && r[j] == x;
    } else {
      assert multiset(base + more) == multiset(base) + multiset(more);
      assert x in multiset(more) && x !in multiset(r);
      assert x in multiset(base + more) - multiset(r);
    }
  }

  lemma RestNoNearer(m: Metric, r: seq<Candidate>, base: seq<Candidate>, more: seq<Candidate>, n: nat, i: nat, q: nat, x: Candidate)
    requires IsTopK(m, r, base + more, n) && |r| == n >= 2 && i < n && q < |more|
    requires Near(m, r[i].dist, r[n - 2].dist) && forall j | 0 <= j < i :: r[j] !in more
    requires x in Rest(r, more, Min(i, n - 2), i, q)
    ensures Near(m, r[i].dist, x.dist)
  {
    var p := Min(i, n - 2);
    var mine := Without(r, i)[p..];
    if x in mine {
      var l :| 0 <= l < |mine| && mine[l] == x;
      AnswerRestNoNearer(m, r, n, i, p + l);
    } else {
      assert x in Without(more, q) && x in more;
      hide IsTopK;
      PendingNoNearer(m, r, base, more, n, i, x);
    }
  }

  /** A head in order, a row twice, and a tail in order no nearer than it. */
  lemma OrderedAround(m: Metric, r: seq<Candidate>, p: nat, i: nat, tail: seq<Candidate>)
    requires Ordered(m, r) && Ordered(m, tail) && p <= i < |r|
    requires forall l | 0 <= l < |tail| :: Near(m, r[i].dist, tail[l].dist)
    ensures Ordered(m, r[..p] + [r[i], r[i]] + tail)
  {}

  /** The rows before p, the pending row twice, and then the others in order. */
  lemma RepeatRow(m: Metric, r: seq<Candidate>, base: seq<Candidate>, more: seq<Candidate>, n: nat, i: nat)
    returns (s: seq<Candidate>)
    requires DistinctIds(base + more) && IsTopK(m, r, base + more, n) && |r| == n >= 2
    requires i < n && r[i] in more && Near(m, r[i].dist, r[n - 2].dist) && forall j | 0 <= j < i :: r[j] !in more
    ensures IsTopK(m, s, r + more, n) && !IsTopK(m, s, base + more, n)
  {
    hide IsNearest, Rest, Near;
    var p := Min(i, n - 2);
    var q: nat :| q < |more| && more[q] == r[i];
    var rest := Rest(r, more, p, i, q);
    var tail := SortedForm(m, rest);
    SubmultisetMembers(tail, rest);
    forall l | 0 <= l < |tail| ensures Near(m, r[i].dist, tail[l].dist) {
      RestNoNearer(m, r, base, more, n, i, q, tail[l]);
    }
    OrderedAround(m, r, p, i, tail);
    RestCounts(r, more, p, i, q);
    var u := r[..p] + [r[i], r[i]] + tail;
    assert multiset(u) == multiset(r[..p] + [r[i], r[i]]) + multiset(tail);
    hide IsTopK, Ordered, DistinctIds;
    assert |multiset(u)| == |u| && |multiset(r + more)| == |r + more|;
    SortedPrefixIsTopK(m, u, r + more, n);
    s := u[..Min(n, |u|)];
    TwiceIsWrong(m, s, base + more, n, p);
  }

  lemma TwiceIsWrong(m: Metric, s: seq<Candidate>, pool: seq<Candidate>, n: nat, p: nat)
    requires DistinctIds(pool) && p + 2 <= |s| && s[p] == s[p + 1]
    ensures !IsTopK(m, s, pool, n)
  {
    CountedOnce(pool, s[p]);
    SplitMultiset(s, p + 1);
    assert s[p] in multiset(s[..p + 1]) by { assert s[..p + 1][p] == s[p]; }
    assert s[p] in multiset(s[p + 1..]) by { assert s[p + 1..][0] == s[p]; }
  }

  // ---- the conditions ---------------------------------------------------------------------------

  /** Merging again is exact under every tie-breaking precisely when the answer is safe. */
  lemma RemergeExactly(m: Metric, r: seq<Candidate>, base: seq<Candidate>, more: seq<Candidate>, n: nat)
    requires DistinctIds(base + more) && IsTopK(m, r, base + more, n)
    ensures (forall s | IsTopK(m, s, r + more, n) :: IsTopK(m, s, base + more, n)) <==> RemergeSafe(m, r, more, n)
  {
    hide IsTopK, RemergeSafe;
    if RemergeSafe(m, r, more, n) {
      forall s | IsTopK(m, s, r + more, n) ensures IsTopK(m, s, base + more, n) {
        SafeRemerge(m, r, base, more, n, s);
      }
    } else {
      var s := UnsafeRemerge(m, r, base, more, n);
    }
  }

  /** An answer without the pending rows is exact precisely when it is full and none of them is nearer. */
  lemma UnmergedExactly(m: Metric, r: seq<Candidate>, base: seq<Candidate>, more: seq<Candidate>, n: nat)
    requires IsTopK(m, r, base, n)
    ensures IsTopK(m, r, base + more, n) <==>
              more == [] || (|r| == n && forall i, j | 0 <= i < |r| && 0 <= j < |more| :: Near(m, r[i].dist, more[j].dist))
  {
    assert multiset(base + more) == multiset(base) + multiset(more);
    assert |multiset(base)| == |base| && |multiset(r)| == |r|;
    var rest := multiset(base + more) - multiset(r);
    assert rest == (multiset(base) - multiset(r)) + multiset(more);
    if more == [] {
      assert base + more == base;
    }
    forall j | 0 <= j < |more| ensures more[j] in rest {
      assert more[j] in multiset(more);
    }
  }
}
