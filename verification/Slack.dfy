/**
 How much over-fetching is enough on every pool: pools in which the rows a filter takes away
 crowd out one that it keeps.
 */
module Slack {
  import opened TopK

  function NearSide(m: Metric): real { if m.InnerProduct? then 1.0 else 0.0 }
  function FarSide(m: Metric): real { if m.InnerProduct? then 0.0 else 1.0 }

  /** n candidates with consecutive ids, all at one distance. */
  function Row(first: nat, n: nat, dist: real): (s: seq<Candidate>)
    ensures |s| == n
  {
    seq(n, i requires 0 <= i < n => Candidate(first + i, dist))
  }

  lemma SomeMember<T>(ids: set<T>) returns (id: T)
    requires ids != {}
    ensures id in ids
  {
    id :| id in ids;
  }

  /** n candidates with ids from a set, all at one distance. */
  lemma {:induction false} PickIds(ids: set<int>, n: nat, dist: real) returns (s: seq<Candidate>)
    requires n <= |ids|
    ensures |s| == n && DistinctIds(s) && forall i | 0 <= i < n :: s[i].id in ids && s[i].dist == dist
    decreases n
  {
    if n == 0 {
      s := [];
    } else {
      var id := SomeMember(ids);
      s := PickIds(ids - {id}, n - 1, dist);
      s := s + [Candidate(id, dist)];
    }
  }

  lemma {:induction false} FilterNone(keep: int -> bool, s: seq<Candidate>)
    requires forall i | 0 <= i < |s| :: !keep(s[i].id)
    ensures Filter(keep, s) == []
  {
    if s != [] {
      FilterNone(keep, s[..|s| - 1]);
    }
  }

  lemma {:induction false} FilterAll(keep: int -> bool, s: seq<Candidate>)
    requires forall i | 0 <= i < |s| :: keep(s[i].id)
    ensures Filter(keep, s) == s
  {
    if s != [] {
      FilterAll(keep, s[..|s| - 1]);
      assert s == s[..|s| - 1] + [s[|s| - 1]];
    }
  }

  /**
   With more ids to drop than slack, some pool of distinct rows loses a kept one: the dropped
   rows crowd it out.
   */
  lemma SlackIsTight(m: Metric, keep: int -> bool, gone: set<int>, top: nat, k: nat, t: nat)
    returns (pool: seq<Candidate>, r: seq<Candidate>)
    requires k >= 1 && |gone| > t
    requires forall id | id in gone :: 0 <= id <= top && !keep(id)
    requires forall id | id > top :: keep(id)
    ensures DistinctIds(pool) && (forall i | 0 <= i < |pool| :: pool[i].id >= 0) && IsTopK(m, r, pool, k + t)
    ensures !IsTopK(m, Cut(Filter(keep, r), k), Filter(keep, pool), k)
  {
    hide IsTopK, Filter;
    var dead := PickIds(gone, t + 1, NearSide(m));
    var live := Row(top + 1, k, FarSide(m));
    pool := dead + live;
    r := pool[..k + t];
    CrowdedPool(m, dead, live, top);
    FilterNone(keep, dead);
    hide DistinctIds, Row;
    CrowdedOut(m, keep, dead, live);
  }

  /** The nearest rows are all the dropped ones and all but one of the kept ones. */
  lemma CrowdedOut(m: Metric, keep: int -> bool, dead: seq<Candidate>, live: seq<Candidate>)
    requires dead != [] && live != [] && Ordered(m, dead + live)
    requires Filter(keep, dead) == [] && forall i | 0 <= i < |live| :: keep(live[i].id)
    ensures var pool, k, n := dead + live, |live|, |live| + |dead| - 1;
            IsTopK(m, pool[..n], pool, n) && !IsTopK(m, Cut(Filter(keep, pool[..n]), k), Filter(keep, pool), k)
  {
    hide IsTopK, Filter, Ordered;
    var pool, k, n := dead + live, |live|, |live| + |dead| - 1;
    SortedPrefixIsTopK(m, pool, pool, n);
    assert pool[..n] == dead + live[..k - 1];
    FilterLive(keep, dead, live);
    FilterExactly(m, keep, pool[..n], pool, k, n);
  }

  lemma CrowdedPool(m: Metric, dead: seq<Candidate>, live: seq<Candidate>, top: nat)
    requires DistinctIds(dead) && forall i | 0 <= i < |dead| :: 0 <= dead[i].id <= top && dead[i].dist == NearSide(m)
    requires live == Row(top + 1, |live|, FarSide(m))
    ensures DistinctIds(dead + live) && Ordered(m, dead + live)
    ensures forall i | 0 <= i < |dead + live| :: (dead + live)[i].id >= 0
  {}

  lemma FilterLive(keep: int -> bool, dead: seq<Candidate>, live: seq<Candidate>)
    requires live != [] && Filter(keep, dead) == [] && forall i | 0 <= i < |live| :: keep(live[i].id)
    ensures |Filter(keep, dead + live)| == |live|
    ensures |Filter(keep, dead + live[..|live| - 1])| == |live| - 1
  {
    FilterAll(keep, live);
    FilterAll(keep, live[..|live| - 1]);
    FilterConcat(keep, dead, live);
    FilterConcat(keep, dead, live[..|live| - 1]);
  }
}
