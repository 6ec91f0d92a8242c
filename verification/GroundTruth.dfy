/**
 Chunked exact ground truth: the running partition of the recall benchmark, for one query.
 The distance of a corpus row to the query is a value of its own, `d[i]`; the benchmark
 treats every query row of its matrices alike.
 */
module GroundTruth {
  import opened TopK

  /** Corpus rows start, start+1, ... at their distances. */
  function Indexed(d: seq<real>, start: nat): (s: seq<Candidate>)
    ensures |s| == |d|
  {
    seq(|d|, i requires 0 <= i < |d| => Candidate(start + i, d[i]))
  }

  predicate Distinct(idx: seq<nat>) { forall i, j | 0 <= i < j < |idx| :: idx[i] != idx[j] }
  predicate InRange(idx: seq<nat>, n: nat) { forall i | 0 <= i < |idx| :: idx[i] < n }

  /** np.take_along_axis on one row. */
  function Take(s: seq<Candidate>, idx: seq<nat>): (r: seq<Candidate>)
    requires InRange(idx, |s|)
    ensures |r| == |idx|
  {
    seq(|idx|, i requires 0 <= i < |idx| => s[idx[i]])
  }

  method PositionOfMin(s: seq<Candidate>, perm: seq<nat>, from: nat) returns (p: nat)
    requires from < |perm| && InRange(perm, |s|)
    ensures from <= p < |perm|
    ensures forall j | from <= j < |perm| :: s[perm[p]].dist <= s[perm[j]].dist
  {
    p := from;
    for j := from + 1 to |perm|
      invariant from <= p < |perm|
      invariant forall l | from <= l < j :: s[perm[p]].dist <= s[perm[l]].dist
    {
      if s[perm[j]].dist < s[perm[p]].dist { p := j; }
    }
  }

  /**
   np.argpartition(..., kk - 1)[:kk]: distinct positions of the kk smallest distances, in
   any order.  Callers use nothing but that.
   */
  method Smallest(s: seq<Candidate>, kk: nat) returns (idx: seq<nat>)
    requires kk <= |s|
    ensures |idx| == kk && Distinct(idx) && InRange(idx, |s|)
    ensures forall i, j | 0 <= i < kk && 0 <= j < |s| && j !in idx :: s[idx[i]].dist <= s[j].dist
  {
    var perm: seq<nat> := seq(|s|, i => i);
    ghost var pos: seq<nat> := perm;
    for i := 0 to kk
      invariant |perm| == |pos| == |s| && Distinct(perm) && InRange(perm, |s|)
      invariant forall j | 0 <= j < |s| :: pos[j] < |s| && perm[pos[j]] == j
      invariant forall l, j | 0 <= l < i <= j < |s| :: s[perm[l]].dist <= s[perm[j]].dist
    {
      var p := PositionOfMin(s, perm, i);
      pos := pos[perm[i] := p][perm[p] := i];
      perm := perm[i := perm[p]][p := perm[i]];
    }
    idx := perm[..kk];
    assert forall l | 0 <= l < kk :: perm[l] in idx by {
      forall l | 0 <= l < kk ensures perm[l] in idx { assert idx[l] == perm[l]; }
    }
    assert forall j | 0 <= j < |s| && j !in idx :: perm[pos[j]] == j && pos[j] >= kk;
  }

  /** A pivot of -1 is the last position; on an empty axis there is none and the call raises. */
  method ArgPartition(s: seq<Candidate>, kk: nat) returns (ok: bool, idx: seq<nat>)
    requires kk <= |s|
    ensures ok <==> |s| > 0
    ensures |idx| == kk && Distinct(idx) && InRange(idx, |s|)
    ensures forall i, j | 0 <= i < kk && 0 <= j < |s| && j !in idx :: s[idx[i]].dist <= s[j].dist
  {
    ok := -|s| <= kk - 1 < |s|;
    idx := Smallest(s, kk);
  }

  /** Any such selection is a nearest-kk set. */
  lemma SelectionIsNearest(s: seq<Candidate>, idx: seq<nat>, k: nat)
    requires |idx| == Min(k, |s|) && Distinct(idx) && InRange(idx, |s|)
    requires forall i, j | 0 <= i < |idx| && 0 <= j < |s| && j !in idx :: s[idx[i]].dist <= s[j].dist
    ensures IsNearest(L2, Take(s, idx), s, k)
  {
    var chosen := Positions(idx);
    forall c ensures multiset(s)[c] == multiset(Take(s, idx))[c] + Unchosen(s, chosen, c, |s|) {
      TakenAndUnchosen(s, idx, c);
    }
    forall i, y: Candidate | 0 <= i < |idx| && y in multiset(s) - multiset(Take(s, idx))
      ensures Near(L2, Take(s, idx)[i].dist, y.dist)
    {
      UnchosenAt(s, chosen, y, |s|);
    }
  }

  /** How often c occurs in s[..n] at a position that is not chosen. */
  ghost function Unchosen(s: seq<Candidate>, chosen: set<nat>, c: Candidate, n: nat): nat
    requires n <= |s|
  {
    if n == 0 then 0
    else Unchosen(s, chosen, c, n - 1) + if n - 1 !in chosen && s[n - 1] == c then 1 else 0
  }

  lemma {:induction false} UnchosenAt(s: seq<Candidate>, chosen: set<nat>, c: Candidate, n: nat)
    requires n <= |s| && Unchosen(s, chosen, c, n) > 0
    ensures exists j :: 0 <= j < n && j !in chosen && s[j] == c
  {
    if n - 1 in chosen || s[n - 1] != c {
      UnchosenAt(s, chosen, c, n - 1);
    }
  }

  lemma {:induction false} NothingChosen(s: seq<Candidate>, c: Candidate, n: nat)
    requires n <= |s|
    ensures Unchosen(s, {}, c, n) == multiset(s[..n])[c]
  {
    if n > 0 {
      NothingChosen(s, c, n - 1);
      assert s[..n] == s[..n - 1] + [s[n - 1]];
    }
  }

  lemma {:induction false} OneMoreChosen(s: seq<Candidate>, chosen: set<nat>, j: nat, c: Candidate, n: nat)
    requires n <= |s| && j !in chosen
    ensures Unchosen(s, chosen, c, n)
         == Unchosen(s, chosen + {j}, c, n) + if j < n && s[j] == c then 1 else 0
  {
    if n > 0 {
      OneMoreChosen(s, chosen, j, c, n - 1);
    }
  }

  ghost function Positions(idx: seq<nat>): set<nat> { set i | i in idx }

  lemma SelectOneMore(s: seq<Candidate>, front: seq<nat>, last: nat)
    requires InRange(front, |s|) && last < |s|
    ensures Positions(front + [last]) == Positions(front) + {last}
    ensures InRange(front + [last], |s|)
    ensures multiset(Take(s, front + [last])) == multiset(Take(s, front)) + multiset{s[last]}
  {
    assert Take(s, front + [last]) == Take(s, front) + [s[last]];
  }

  lemma {:induction false} TakenAndUnchosen(s: seq<Candidate>, idx: seq<nat>, c: Candidate)
    requires Distinct(idx) && InRange(idx, |s|)
    ensures multiset(s)[c] == multiset(Take(s, idx))[c] + Unchosen(s, Positions(idx), c, |s|)
  {
    if idx == [] {
      NothingChosen(s, c, |s|);
      assert s[..|s|] == s && Positions(idx) == {};
    } else {
      var front, last := idx[..|idx| - 1], idx[|idx| - 1];
      TakenAndUnchosen(s, front, c);
      OneMoreChosen(s, Positions(front), last, c, |s|);
      SelectOneMore(s, front, last);
      assert idx == front + [last];
    }
  }

  /** What brute_force_gt promises: min(k, n) distinct rows of the corpus, nearest first, and none nearer left out. */
  ghost predicate ExactGroundTruth(d: seq<real>, k: nat, ids: seq<nat>) {
    && InRange(ids, |d|) && Distinct(ids)
    && IsTopK(L2, Take(Indexed(d, 0), ids), Indexed(d, 0), k)
  }

  /** In terms of the distances alone: distinct rows in ascending distance, and no other row strictly nearer than any of them. */
  predicate NearestRows(d: seq<real>, k: nat, ids: seq<nat>) {
    && |ids| == (if k < |d| then k else |d|)
    && (forall i | 0 <= i < |ids| :: ids[i] < |d|)
    && (forall i, j | 0 <= i < j < |ids| :: ids[i] != ids[j] && d[ids[i]] <= d[ids[j]])
    && (forall i, j | 0 <= i < |ids| && 0 <= j < |d| && j !in ids :: d[ids[i]] <= d[j])
  }

  lemma GroundTruthMeans(d: seq<real>, k: nat, ids: seq<nat>)
    ensures ExactGroundTruth(d, k, ids) <==> NearestRows(d, k, ids)
  {
    hide ExactGroundTruth, NearestRows;
    if ExactGroundTruth(d, k, ids) { ExactIsNearest(d, k, ids); }
    if NearestRows(d, k, ids) { NearestIsExact(d, k, ids); }
  }

  lemma ExactIsNearest(d: seq<real>, k: nat, ids: seq<nat>)
    requires ExactGroundTruth(d, k, ids)
    ensures NearestRows(d, k, ids)
  {
    var s := Indexed(d, 0);
    var r := Take(s, ids);
    forall i, j | 0 <= i < j < |ids| ensures ids[i] != ids[j] && d[ids[i]] <= d[ids[j]] {
      assert Near(L2, r[i].dist, r[j].dist);
    }
    forall i, j | 0 <= i < |ids| && 0 <= j < |d| && j !in ids ensures d[ids[i]] <= d[j] {
      LeftOut(d, ids, j);
      assert Near(L2, r[i].dist, s[j].dist);
    }
  }

  lemma NearestIsExact(d: seq<real>, k: nat, ids: seq<nat>)
    requires NearestRows(d, k, ids)
    ensures ExactGroundTruth(d, k, ids)
  {
    var s := Indexed(d, 0);
    assert Distinct(ids) && InRange(ids, |s|);
    assert Ordered(L2, Take(s, ids));
    hide Take, IsNearest;
    forall i, j | 0 <= i < |ids| && 0 <= j < |s| && j !in ids ensures s[ids[i]].dist <= s[j].dist {}
    SelectionIsNearest(s, ids, k);
  }

  /** A row that was not selected is left out: no other candidate has its id. */
  lemma LeftOut(d: seq<real>, ids: seq<nat>, j: nat)
    requires InRange(ids, |d|) && j < |d| && j !in ids
    ensures Indexed(d, 0)[j] in multiset(Indexed(d, 0)) - multiset(Take(Indexed(d, 0), ids))
  {
    var s := Indexed(d, 0);
    assert s[j] in multiset(s);
    if s[j] in multiset(Take(s, ids)) {
      var i :| 0 <= i < |ids| && Take(s, ids)[i] == s[j];
      assert ids[i] == j;
    }
  }

  /** One pass of the chunk loop: partition the chunk, append, partition again; raises when nothing is to be kept. */
  method AbsorbChunk(best: seq<Candidate>, c: seq<Candidate>, k: nat, ghost seen: seq<Candidate>)
    returns (ok: bool, next: seq<Candidate>)
    requires IsNearest(L2, best, seen, k) && c != []
    ensures ok <==> k >= 1
    ensures ok ==> IsNearest(L2, next, seen + c, k)
  {
    next := [];
    var part, sel: seq<nat>;
    ok, part := ArgPartition(c, Min(k, |c|));
    SelectionIsNearest(c, part, k);
    var joined := best + Take(c, part);
    ok, sel := ArgPartition(joined, Min(k, |joined|));
    if !ok { return; }
    SelectionIsNearest(joined, sel, k);
    next := Take(joined, sel);
    ChunkStep(best, seen, Take(c, part), c, joined, next, k);
  }

  lemma IndexedSplit(d: seq<real>, s: nat, e: nat)
    requires s <= e <= |d|
    ensures Indexed(d[..e], 0) == Indexed(d[..s], 0) + Indexed(d[s..e], s)
  {}

  lemma NothingSeen(d: seq<real>, k: nat)
    ensures IsNearest(L2, [], Indexed(d[..0], 0), k)
  {}

  /** Raises for a chunk of no rows, and for k = 0 unless the corpus is empty; else the ground truth. */
  method BruteForceGt(d: seq<real>, k: nat, chunk: nat) returns (ok: bool, ids: seq<nat>)
    ensures ok <==> chunk >= 1 && (k >= 1 || d == [])
    ensures ok ==> ExactGroundTruth(d, k, ids)
  {
    hide IsNearest, ExactGroundTruth;
    ids := [];
    if chunk == 0 { return false, []; }
    var best: seq<Candidate> := [];
    NothingSeen(d, k);
    var s := 0;
    while s < |d|
      invariant 0 <= s && (s > 0 ==> k >= 1)
      invariant IsNearest(L2, best, Indexed(d[..Min(s, |d|)], 0), k)
    {
      var e := Min(s + chunk, |d|);
      ok, best := AbsorbChunk(best, Indexed(d[s..e], s), k, Indexed(d[..s], 0));
      if !ok { return false, []; }
      IndexedSplit(d, s, e);
      s := s + chunk;
    }
    assert d[..|d|] == d;
    ids := RowsInOrder(d, best, k);
    ok := true;
  }

  /** argsort of the surviving distances, and the row ids in that order. */
  method RowsInOrder(d: seq<real>, best: seq<Candidate>, k: nat) returns (ids: seq<nat>)
    requires IsNearest(L2, best, Indexed(d, 0), k)
    ensures ExactGroundTruth(d, k, ids)
  {
    var sorted := SortCandidates(L2, best);
    SamePoolResult(sorted, best, Indexed(d, 0), k);
    SelectsRows(d, sorted);
    ids := seq(|sorted|, i requires 0 <= i < |sorted| => sorted[i].id);
    assert Take(Indexed(d, 0), ids) == sorted;
  }

  /** One round: the partition of a chunk, appended to the running best and partitioned again. */
  lemma ChunkStep(best: seq<Candidate>, seen: seq<Candidate>, part: seq<Candidate>, chunk: seq<Candidate>,
                  joined: seq<Candidate>, next: seq<Candidate>, k: nat)
    requires IsNearest(L2, best, seen, k) && IsNearest(L2, part, chunk, k)
    requires joined == best + part && IsNearest(L2, next, joined, k)
    ensures IsNearest(L2, next, seen + chunk, k)
  {
    MergeNearest(L2, best, seen, part, next, k);
    assert multiset(seen + part) == multiset(part + seen);
    SamePool(next, seen + part, part + seen, k);
    MergeNearest(L2, part, chunk, seen, next, k);
    assert multiset(chunk + seen) == multiset(seen + chunk);
    SamePool(next, chunk + seen, seen + chunk, k);
  }

  lemma SamePool(r: seq<Candidate>, a: seq<Candidate>, b: seq<Candidate>, k: nat)
    requires IsNearest(L2, r, a, k) && multiset(a) == multiset(b)
    ensures IsNearest(L2, r, b, k)
  {
    assert |multiset(a)| == |a| && |multiset(b)| == |b|;
  }

  lemma SamePoolResult(r: seq<Candidate>, s: seq<Candidate>, pool: seq<Candidate>, k: nat)
    requires IsNearest(L2, s, pool, k) && multiset(r) == multiset(s) && Ordered(L2, r)
    ensures IsTopK(L2, r, pool, k)
  {
    assert |multiset(r)| == |r| && |multiset(s)| == |s|;
    forall i, y | 0 <= i < |r| && y in multiset(pool) - multiset(r)
      ensures Near(L2, r[i].dist, y.dist)
    {
      assert r[i] in multiset(s);
      var j :| 0 <= j < |s| && s[j] == r[i];
    }
  }

  /** Selected candidates name distinct corpus rows at their own distances. */
  lemma SelectsRows(d: seq<real>, r: seq<Candidate>)
    requires multiset(r) <= multiset(Indexed(d, 0))
    ensures forall i | 0 <= i < |r| :: 0 <= r[i].id < |d| && r[i] == Candidate(r[i].id, d[r[i].id])
    ensures DistinctIds(r)
  {
    DistinctWithin(r, Indexed(d, 0));
    forall i | 0 <= i < |r|
      ensures 0 <= r[i].id < |d| && r[i] == Candidate(r[i].id, d[r[i].id])
    {
      assert r[i] in multiset(r);
      assert r[i] in multiset(Indexed(d, 0));
      var j :| 0 <= j < |d| && Indexed(d, 0)[j] == r[i];
    }
  }

  /** The distances do not depend on how the corpus was cut into chunks, nor on how ties fell. */
  lemma ChunkSizeIrrelevant(d: seq<real>, k: nat, a: seq<nat>, b: seq<nat>, i: nat)
    requires ExactGroundTruth(d, k, a) && ExactGroundTruth(d, k, b) && i < |a|
    ensures |a| == |b| == Min(k, |d|) && d[a[i]] == d[b[i]]
  {
    DistancesDetermined(L2, Take(Indexed(d, 0), a), Take(Indexed(d, 0), b), Indexed(d, 0), k, i);
  }
}
