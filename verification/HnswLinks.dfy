/**
 Upper-level links of the hierarchical export: the in-place level filter over the
 candidate buffer and the greedy diversity heuristic.  Distances between two nodes are a
 parameter; only their order is used.
 */
module HnswLinks {

  type NodeDist = (int, int) -> real

  // ---- the heuristic -----------------------------------------------------------------

  /** Some pick is strictly closer to c than the query node is. */
  predicate Dominated(d: NodeDist, q: int, c: int, picks: seq<int>) {
    exists j | 0 <= j < |picks| :: d(c, picks[j]) < d(q, c)
  }

  /** Positions of the picks among the candidates, in order. */
  function Picked(d: NodeDist, q: int, cands: seq<int>, m: nat, n: nat): (p: seq<nat>)
    requires n <= |cands|
    ensures |p| <= m
    ensures forall i | 0 <= i < |p| :: p[i] < n
    ensures forall i, j | 0 <= i < j < |p| :: p[i] < p[j]
  {
    if n == 0 then []
    else
      var before := Picked(d, q, cands, m, n - 1);
      if |before| < m && !Dominated(d, q, cands[n - 1], At(cands, before)) then before + [n - 1] else before
  }

  function At(cands: seq<int>, p: seq<nat>): (s: seq<int>)
    requires forall i | 0 <= i < |p| :: p[i] < |cands|
    ensures |s| == |p|
  {
    seq(|p|, i requires 0 <= i < |p| => cands[p[i]])
  }

  function Selected(d: NodeDist, q: int, cands: seq<int>, m: nat): seq<int> {
    At(cands, Picked(d, q, cands, m, |cands|))
  }

  lemma {:induction false} PickedPrefix(d: NodeDist, q: int, cands: seq<int>, m: nat, a: nat, b: nat)
    requires a <= b <= |cands|
    ensures Picked(d, q, cands, m, a) <= Picked(d, q, cands, m, b)
    ensures forall i | |Picked(d, q, cands, m, a)| <= i < |Picked(d, q, cands, m, b)| ::
              Picked(d, q, cands, m, b)[i] >= a
    ensures |Picked(d, q, cands, m, a)| == m ==> Picked(d, q, cands, m, a) == Picked(d, q, cands, m, b)
  {
    if a < b {
      PickedPrefix(d, q, cands, m, a, b - 1);
    }
  }

  /** The picks made before position n. */
  function PicksBefore(p: seq<nat>, n: nat): seq<nat> {
    if p == [] then []
    else PicksBefore(p[..|p| - 1], n) + if p[|p| - 1] < n then [p[|p| - 1]] else []
  }

  /**
   What it means to be the greedy answer, without running the loop: an ascending choice of
   positions in which a position is chosen exactly when fewer than m are chosen before it
   and none of those dominates it.
   */
  ghost predicate IsGreedy(d: NodeDist, q: int, cands: seq<int>, m: nat, p: seq<nat>) {
    && (forall i | 0 <= i < |p| :: p[i] < |cands|)
    && (forall i, j | 0 <= i < j < |p| :: p[i] < p[j])
    && forall n | 0 <= n < |cands| :: ChosenRightly(d, q, cands, m, p, n)
  }

  ghost predicate ChosenRightly(d: NodeDist, q: int, cands: seq<int>, m: nat, p: seq<nat>, n: nat)
    requires n < |cands| && forall i | 0 <= i < |p| :: p[i] < |cands|
  {
    var before := PicksBefore(p, n);
    PicksBeforeBelow(p, n);
    n in p <==> |before| < m && !Dominated(d, q, cands[n], At(cands, before))
  }

  lemma {:induction false} PicksBeforeBelow(p: seq<nat>, n: nat)
    ensures forall i | 0 <= i < |PicksBefore(p, n)| :: PicksBefore(p, n)[i] < n && PicksBefore(p, n)[i] in p
  {
    if p != [] {
      PicksBeforeBelow(p[..|p| - 1], n);
    }
  }

  lemma {:induction false} PicksBeforeSplit(a: seq<nat>, b: seq<nat>, n: nat)
    requires forall i | 0 <= i < |a| :: a[i] < n
    requires forall i | 0 <= i < |b| :: b[i] >= n
    ensures PicksBefore(a + b, n) == a
  {
    if b != [] {
      assert (a + b)[..|a + b| - 1] == a + b[..|b| - 1];
      PicksBeforeSplit(a, b[..|b| - 1], n);
    } else {
      assert a + b == a;
      if a != [] {
        assert a[..|a| - 1] + [] == a[..|a| - 1];
        PicksBeforeSplit(a[..|a| - 1], [], n);
      }
    }
  }

  lemma PickedBefore(d: NodeDist, q: int, cands: seq<int>, m: nat, n: nat)
    requires n <= |cands|
    ensures PicksBefore(Picked(d, q, cands, m, |cands|), n) == Picked(d, q, cands, m, n)
  {
    var all, a := Picked(d, q, cands, m, |cands|), Picked(d, q, cands, m, n);
    PickedPrefix(d, q, cands, m, n, |cands|);
    assert all == a + all[|a|..];
    PicksBeforeSplit(a, all[|a|..], n);
  }

  lemma SelectionIsGreedy(d: NodeDist, q: int, cands: seq<int>, m: nat)
    ensures IsGreedy(d, q, cands, m, Picked(d, q, cands, m, |cands|))
  {
    var all := Picked(d, q, cands, m, |cands|);
    forall n | 0 <= n < |cands| ensures ChosenRightly(d, q, cands, m, all, n) {
      PickedBefore(d, q, cands, m, n);
      PickedPrefix(d, q, cands, m, n, |cands|);
      PickedPrefix(d, q, cands, m, n + 1, |cands|);
      var a, b := Picked(d, q, cands, m, n), Picked(d, q, cands, m, n + 1);
      if |b| > |a| {
        assert all[|a|] == n;
      } else {
        forall i | 0 <= i < |all| ensures all[i] != n {
          if i < |a| { assert all[i] == a[i]; }
        }
      }
    }
  }

  lemma {:induction false} NoPicksBeforeZero(p: seq<nat>)
    ensures PicksBefore(p, 0) == []
  {
    if p != [] {
      NoPicksBeforeZero(p[..|p| - 1]);
    }
  }

  /** There is only one greedy answer. */
  lemma {:induction false} GreedyUnique(d: NodeDist, q: int, cands: seq<int>, m: nat, p: seq<nat>, r: seq<nat>, n: nat)
    requires IsGreedy(d, q, cands, m, p) && IsGreedy(d, q, cands, m, r) && n <= |cands|
    ensures PicksBefore(p, n) == PicksBefore(r, n)
  {
    if n == 0 {
      NoPicksBeforeZero(p);
      NoPicksBeforeZero(r);
    } else {
      GreedyUnique(d, q, cands, m, p, r, n - 1);
      assert ChosenRightly(d, q, cands, m, p, n - 1) && ChosenRightly(d, q, cands, m, r, n - 1);
      PicksBeforeStep(p, n - 1);
      PicksBeforeStep(r, n - 1);
    }
  }

  lemma {:induction false} PicksBeforeStep(p: seq<nat>, n: nat)
    requires forall i, j | 0 <= i < j < |p| :: p[i] < p[j]
    ensures PicksBefore(p, n + 1) == PicksBefore(p, n) + if n in p then [n] else []
  {
    if p != [] {
      var front, last := p[..|p| - 1], p[|p| - 1];
      PicksBeforeStep(front, n);
      if last > n {
        assert n in p ==> n in front;
      } else if last == n {
        assert n !in front;
      } else {
        assert n !in p by { forall i | 0 <= i < |p| ensures p[i] != n { if i < |p| - 1 { assert p[i] < last; } } }
      }
    }
  }

  /** Picks are diverse, at most m, and every examined candidate that was skipped is dominated by an earlier pick. */
  lemma GreedyMeans(d: NodeDist, q: int, cands: seq<int>, m: nat, p: seq<nat>)
    requires p == Picked(d, q, cands, m, |cands|)
    ensures |p| <= m
    ensures forall a, b | 0 <= a < b < |p| :: !(d(cands[p[b]], cands[p[a]]) < d(q, cands[p[b]]))
    ensures forall n | 0 <= n < |cands| && n !in p && (|p| < m || (m > 0 && n < p[m - 1])) ::
              exists a :: 0 <= a < |p| && p[a] < n && d(cands[n], cands[p[a]]) < d(q, cands[n])
  {
    hide Picked, Dominated;
    SelectionIsGreedy(d, q, cands, m);
    forall a, b | 0 <= a < b < |p| ensures !(d(cands[p[b]], cands[p[a]]) < d(q, cands[p[b]])) {
      LaterPickIsDiverse(d, q, cands, m, p, a, b);
    }
    forall n | 0 <= n < |cands| && n !in p && (|p| < m || (m > 0 && n < p[m - 1]))
      ensures exists a :: 0 <= a < |p| && p[a] < n && d(cands[n], cands[p[a]]) < d(q, cands[n])
    {
      assert ChosenRightly(d, q, cands, m, p, n);
      SkippedIsDominated(d, q, cands, m, p, n);
    }
  }

  lemma LaterPickIsDiverse(d: NodeDist, q: int, cands: seq<int>, m: nat, p: seq<nat>, a: nat, b: nat)
    requires IsGreedy(d, q, cands, m, p) && a < b < |p|
    ensures !(d(cands[p[b]], cands[p[a]]) < d(q, cands[p[b]]))
  {
    hide PicksBefore;
    assert ChosenRightly(d, q, cands, m, p, p[b]);
    PicksUpTo(p, b);
    assert At(cands, p[..b])[a] == cands[p[a]];
  }

  lemma PicksUpTo(p: seq<nat>, b: nat)
    requires b < |p| && forall i, j | 0 <= i < j < |p| :: p[i] < p[j]
    ensures PicksBefore(p, p[b]) == p[..b]
  {
    assert p == p[..b] + p[b..];
    PicksBeforeSplit(p[..b], p[b..], p[b]);
  }

  lemma SkippedIsDominated(d: NodeDist, q: int, cands: seq<int>, m: nat, p: seq<nat>, n: nat)
    requires p == Picked(d, q, cands, m, |cands|)
    requires n < |cands| && n !in p && (|p| < m || (m > 0 && n < p[m - 1]))
    requires ChosenRightly(d, q, cands, m, p, n)
    ensures exists a :: 0 <= a < |p| && p[a] < n && d(cands[n], cands[p[a]]) < d(q, cands[n])
  {
    var before := Picked(d, q, cands, m, n);
    PickedBefore(d, q, cands, m, n);
    PickedPrefix(d, q, cands, m, n, |cands|);
    assert |before| <= |p|;
    assert |before| == m ==> p == before;
    var j :| 0 <= j < |before| && d(cands[n], At(cands, before)[j]) < d(q, cands[n]);
    assert p[j] == before[j];
  }

  /** The inner loop: stops at the first pick that dominates c. */
  method DominatedByPick(d: NodeDist, q: int, c: int, picks: array<int>, nSel: nat) returns (dominated: bool)
    requires nSel <= picks.Length
    ensures dominated <==> Dominated(d, q, c, picks[..nSel])
  {
    dominated := false;
    var j := 0;
    while j < nSel && !dominated
      invariant j <= nSel
      invariant dominated ==> Dominated(d, q, c, picks[..nSel])
      invariant !dominated ==> forall l | 0 <= l < j :: !(d(c, picks[l]) < d(q, c))
      decreases nSel - j, !dominated
    {
      if d(c, picks[j]) < d(q, c) {
        assert picks[..nSel][j] == picks[j];
        dominated := true;
      }
      j := j + 1;
    }
  }

  method HeuristicSelectNeighbors(d: NodeDist, q: int, candidates: array<int>, nCandidates: nat, m: nat,
                                  outSelected: array<int>)
    returns (nSel: nat)
    requires nCandidates <= candidates.Length && m <= outSelected.Length && candidates != outSelected
    modifies outSelected
    ensures nSel <= m
    ensures outSelected[..nSel] == Selected(d, q, candidates[..nCandidates], m)
  {
    nSel := 0;
    ghost var cands := candidates[..nCandidates];
    var i: nat := 0;
    while i < nCandidates && nSel < m
      invariant i <= nCandidates && nSel == |Picked(d, q, cands, m, i)|
      invariant outSelected[..nSel] == At(cands, Picked(d, q, cands, m, i))
      invariant candidates[..nCandidates] == cands
    {
      var c := candidates[i];
      var dominated := DominatedByPick(d, q, c, outSelected, nSel);
      assert c == cands[i];
      if !dominated {
        outSelected[nSel] := c;
        assert outSelected[..nSel + 1] == outSelected[..nSel] + [c];
        nSel := nSel + 1;
      }
      i := i + 1;
    }
    PickedPrefix(d, q, cands, m, i, |cands|);
  }

  // ---- the level filter ----------------------------------------------------------------

  predicate NodesBelow(cands: seq<int>, n: nat) { forall i | 0 <= i < |cands| :: 0 <= cands[i] < n }

  /** The candidates whose level is at least l, in order. */
  function AtLevel(levels: seq<nat>, cands: seq<int>, l: nat): (s: seq<int>)
    requires NodesBelow(cands, |levels|)
    ensures NodesBelow(s, |levels|)
    ensures |s| <= |cands|
  {
    if cands == [] then []
    else AtLevel(levels, cands[..|cands| - 1], l)
           + if levels[cands[|cands| - 1]] >= l then [cands[|cands| - 1]] else []
  }

  /** Filtering for a level is filtering the survivors of any lower level: the sets shrink upward. */
  lemma {:induction false} LevelsNest(levels: seq<nat>, cands: seq<int>, low: nat, high: nat)
    requires low <= high && NodesBelow(cands, |levels|)
    ensures AtLevel(levels, AtLevel(levels, cands, low), high) == AtLevel(levels, cands, high)
    ensures |AtLevel(levels, cands, high)| <= |AtLevel(levels, cands, low)|
  {
    if cands != [] {
      var front, last := cands[..|cands| - 1], cands[|cands| - 1];
      LevelsNest(levels, front, low, high);
      hide AtLevel;
      assert cands == front + [last];
      AtLevelNext(levels, front, last, low);
      AtLevelNext(levels, front, last, high);
      if levels[last] >= low {
        AtLevelNext(levels, AtLevel(levels, front, low), last, high);
      } else {
        assert AtLevel(levels, cands, low) == AtLevel(levels, front, low);
        assert AtLevel(levels, cands, high) == AtLevel(levels, front, high);
      }
    }
  }

  lemma {:induction false} FromCandidates(levels: seq<nat>, cands: seq<int>, l: nat, c: int)
    requires NodesBelow(cands, |levels|) && c in AtLevel(levels, cands, l)
    ensures c in cands && 0 <= c < |levels| && levels[c] >= l
  {
    var last := cands[|cands| - 1];
    if levels[last] < l || c != last {
      FromCandidates(levels, cands[..|cands| - 1], l, c);
    }
  }

  lemma AtLevelNext(levels: seq<nat>, front: seq<int>, c: int, l: nat)
    requires NodesBelow(front, |levels|) && 0 <= c < |levels|
    ensures NodesBelow(front + [c], |levels|)
    ensures AtLevel(levels, front + [c], l) == AtLevel(levels, front, l) + if levels[c] >= l then [c] else []
  {
    assert (front + [c])[..|front + [c]| - 1] == front;
  }

  method CompactToLevel(levels: seq<nat>, cand: array<int>, n: nat, l: nat) returns (keep: nat)
    requires n <= cand.Length && NodesBelow(cand[..n], |levels|)
    modifies cand
    ensures keep <= n && cand[..keep] == AtLevel(levels, old(cand[..n]), l)
  {
    ghost var before := cand[..n];
    keep := 0;
    for j := 0 to n
      invariant keep <= j
      invariant forall t | j <= t < n :: cand[t] == before[t]
      invariant cand[..keep] == AtLevel(levels, before[..j], l)
    {
      assert before[..j + 1][..j] == before[..j];
      assert cand[j] == before[j];
      if levels[cand[j]] >= l {
        cand[keep] := cand[j];
        assert cand[..keep + 1] == cand[..keep] + [before[j]];
        keep := keep + 1;
      }
    }
    assert before[..n] == before;
  }

  // ---- all upper levels of one element -----------------------------------------------------

  /** The adjacency entries that name an element, in order. */
  function InRange(row: seq<nat>, n: nat): (s: seq<int>)
    ensures NodesBelow(s, n)
    ensures |s| <= |row|
  {
    if row == [] then []
    else InRange(row[..|row| - 1], n) + if row[|row| - 1] < n then [row[|row| - 1]] else []
  }

  function LinksAt(d: NodeDist, levels: seq<nat>, row: seq<nat>, i: nat, m: nat, l: nat): seq<int> {
    Selected(d, i, AtLevel(levels, InRange(row, |levels|), l), m)
  }

  method GatherCandidates(row: seq<nat>, n: nat, cand: array<int>) returns (nCand: nat)
    requires |row| <= cand.Length
    modifies cand
    ensures nCand <= cand.Length && cand[..nCand] == InRange(row, n)
  {
    nCand := 0;
    for j := 0 to |row|
      invariant nCand <= j && cand[..nCand] == InRange(row[..j], n)
    {
      assert row[..j + 1][..j] == row[..j];
      if row[j] < n {
        cand[nCand] := row[j];
        assert cand[..nCand + 1] == cand[..nCand] + [row[j]];
        nCand := nCand + 1;
      }
    }
    assert row[..|row|] == row;
  }

  method UpperLinks(d: NodeDist, levels: seq<nat>, row: seq<nat>, i: nat, m: nat) returns (upper: seq<seq<int>>)
    requires i < |levels|
    ensures |upper| == levels[i]
    ensures forall l | 1 <= l <= levels[i] :: upper[l - 1] == LinksAt(d, levels, row, i, m, l)
  {
    hide Selected, AtLevel, InRange;
    upper := [];
    var cand := new int[|row|];
    var nCand: nat := GatherCandidates(row, |levels|, cand);
    ghost var all := InRange(row, |levels|);
    AllAtLevelZero(levels, all);
    for l := 1 to levels[i] + 1
      invariant |upper| == l - 1 && nCand <= cand.Length
      invariant cand[..nCand] == AtLevel(levels, all, l - 1)
      invariant forall k | 1 <= k < l :: upper[k - 1] == LinksAt(d, levels, row, i, m, k)
    {
      nCand := CompactToLevel(levels, cand, nCand, l);
      LevelsNest(levels, all, l - 1, l);
      var out := new int[m];
      var nSel := HeuristicSelectNeighbors(d, i, cand, nCand, m, out);
      upper := upper + [out[..nSel]];
    }
  }

  lemma {:induction false} AllAtLevelZero(levels: seq<nat>, cands: seq<int>)
    requires NodesBelow(cands, |levels|)
    ensures AtLevel(levels, cands, 0) == cands
  {
    if cands != [] {
      AllAtLevelZero(levels, cands[..|cands| - 1]);
    }
  }

  /** pgvector reads slot (level - l) * m of a neighbour at level l, so every such neighbour must reach level l. */
  lemma LinksReachLevel(d: NodeDist, levels: seq<nat>, row: seq<nat>, i: nat, m: nat, l: nat)
    ensures var links := LinksAt(d, levels, row, i, m, l);
            && |links| <= m
            && forall c | c in links :: 0 <= c < |levels| && levels[c] >= l && c as nat in row
  {
    var links := LinksAt(d, levels, row, i, m, l);
    var cands := AtLevel(levels, InRange(row, |levels|), l);
    forall c | c in links ensures 0 <= c < |levels| && levels[c] >= l && c as nat in row {
      assert c in cands;
      FromCandidates(levels, InRange(row, |levels|), l, c);
      InRangeFrom(row, |levels|, c);
    }
  }

  lemma {:induction false} InRangeFrom(row: seq<nat>, n: nat, c: int)
    requires c in InRange(row, n)
    ensures 0 <= c && c as nat in row
  {
    if c != row[|row| - 1] || row[|row| - 1] >= n {
      InRangeFrom(row[..|row| - 1], n, c);
    }
  }

  /** Entry j of the row, when it names an element, is a candidate, at the place of the entries before it. */
  lemma {:induction false} InRangeAt(row: seq<nat>, n: nat, j: nat)
    requires j < |row| && row[j] < n
    ensures var place := |InRange(row[..j], n)|;
            place < |InRange(row, n)| && InRange(row, n)[place] == row[j]
    decreases |row|
  {
    var front := row[..|row| - 1];
    if j < |front| {
      InRangeAt(front, n, j);
      assert front[..j] == row[..j];
    }
  }

  /** Candidate j, when its node reaches level l, survives, at the place of the survivors before it. */
  lemma {:induction false} AtLevelAt(levels: seq<nat>, cands: seq<int>, l: nat, j: nat)
    requires NodesBelow(cands, |levels|) && j < |cands| && levels[cands[j]] >= l
    ensures var s, place := AtLevel(levels, cands, l), |AtLevel(levels, cands[..j], l)|;
            place < |s| && s[place] == cands[j]
    decreases |cands|
  {
    var front := cands[..|cands| - 1];
    if j < |front| {
      AtLevelAt(levels, front, l, j);
      assert front[..j] == cands[..j];
    }
  }

  /**
   The links of element i at level l, in terms of its row alone: a neighbour that exists and
   reaches the level is linked, unless m others are or a link is strictly closer to it than
   element i is; and no link is closer to a later link than element i is.
   */
  lemma UnlinkedIsDominated(d: NodeDist, levels: seq<nat>, row: seq<nat>, i: nat, m: nat, l: nat)
    ensures var links := LinksAt(d, levels, row, i, m, l);
            && (forall a, b | 0 <= a < b < |links| :: !(d(links[b], links[a]) < d(i, links[b])))
            && forall j | 0 <= j < |row| && row[j] < |levels| && levels[row[j]] >= l && row[j] as int !in links && |links| < m ::
                 exists a :: 0 <= a < |links| && d(row[j], links[a]) < d(i, row[j])
  {
    hide InRange, AtLevel, Picked, Dominated;
    var links, cands := LinksAt(d, levels, row, i, m, l), AtLevel(levels, InRange(row, |levels|), l);
    var p := Picked(d, i, cands, m, |cands|);
    GreedyMeans(d, i, cands, m, p);
    forall j | 0 <= j < |row| && row[j] < |levels| && levels[row[j]] >= l && row[j] as int !in links && |links| < m
      ensures exists a :: 0 <= a < |links| && d(row[j], links[a]) < d(i, row[j])
    {
      var n := EntrySurvives(levels, row, l, j);
      forall w | 0 <= w < |p| ensures p[w] != n { assert links[w] == cands[p[w]]; }
      var a :| 0 <= a < |p| && p[a] < n && d(cands[n], cands[p[a]]) < d(i, cands[n]);
      assert links[a] == cands[p[a]];
    }
  }

  /** Where entry j of the row is among the candidates of a level it reaches. */
  lemma EntrySurvives(levels: seq<nat>, row: seq<nat>, l: nat, j: nat) returns (place: nat)
    requires j < |row| && row[j] < |levels| && levels[row[j]] >= l
    ensures var cands := AtLevel(levels, InRange(row, |levels|), l);
            place < |cands| && cands[place] == row[j]
  {
    hide InRange, AtLevel;
    InRangeAt(row, |levels|, j);
    var at := |InRange(row[..j], |levels|)|;
    AtLevelAt(levels, InRange(row, |levels|), l, at);
    place := |AtLevel(levels, InRange(row, |levels|)[..at], l)|;
  }
}
