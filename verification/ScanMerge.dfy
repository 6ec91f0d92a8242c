/**
 What happens to the daemon's answer inside a backend: pending-insert rows are merged,
 tombstoned rows are filtered, and the result is cut to k.  The result arrays are
 rewritten in place by the same loops as the C code.
 */
module ScanMerge {
  import opened TopK
  import Remerge
  import Slack

  const INT_MAX: int := 0x7FFF_FFFF

  type Vector = seq<real>

  datatype DeltaRow = DeltaRow(tid: nat, vec: Vector)
  datatype TombstoneRecord = TombstoneRecord(tid: nat, deleteXid: nat)

  predicate SortedTids(s: seq<nat>) { forall i, j | 0 <= i < j < |s| :: s[i] <= s[j] }

  // ---- the whitelist ----------------------------------------------------------------

  method TidInFilter(tid: nat, whitelist: seq<nat>) returns (found: bool)
    requires SortedTids(whitelist)
    ensures found <==> tid in whitelist
  {
    var lo, hi := 0, |whitelist|;
    while lo < hi
      invariant 0 <= lo <= hi <= |whitelist|
      invariant tid !in whitelist[..lo] && tid !in whitelist[hi..]
    {
      var mid := lo + (hi - lo) / 2;
      if whitelist[mid] == tid { return true; }
      if whitelist[mid] < tid { lo := mid + 1; } else { hi := mid; }
    }
    assert whitelist == whitelist[..lo] + whitelist[hi..];
    return false;
  }

  /** An empty whitelist admits every row, as in the unfiltered scan. */
  predicate Admitted(whitelist: seq<nat>, tid: nat) { whitelist == [] || tid in whitelist }

  /** The delta rows a scan must consider, at their distance to the query. */
  function DeltaCandidates(rows: seq<DeltaRow>, whitelist: seq<nat>, dist: Vector -> real): seq<Candidate> {
    if rows == [] then []
    else
      var last := rows[|rows| - 1];
      DeltaCandidates(rows[..|rows| - 1], whitelist, dist)
        + if Admitted(whitelist, last.tid) then [Candidate(last.tid, dist(last.vec))] else []
  }

  /** A pending row on the whitelist, or any when there is none, is a candidate once, in row order, at its own distance. */
  lemma {:induction false} RowIsCandidate(rows: seq<DeltaRow>, whitelist: seq<nat>, dist: Vector -> real, j: nat)
    requires j < |rows| && (whitelist == [] || rows[j].tid in whitelist)
    ensures var place := |DeltaCandidates(rows[..j], whitelist, dist)|;
            && place < |DeltaCandidates(rows, whitelist, dist)|
            && DeltaCandidates(rows, whitelist, dist)[place] == Candidate(rows[j].tid, dist(rows[j].vec))
    decreases |rows|
  {
    var front := rows[..|rows| - 1];
    if j < |front| {
      RowIsCandidate(front, whitelist, dist, j);
      assert front[..j] == rows[..j];
    }
  }

  /** Nothing else is a candidate. */
  lemma {:induction false} CandidateIsRow(rows: seq<DeltaRow>, whitelist: seq<nat>, dist: Vector -> real, c: nat) returns (j: nat)
    requires c < |DeltaCandidates(rows, whitelist, dist)|
    ensures j < |rows| && (whitelist == [] || rows[j].tid in whitelist)
    ensures c == |DeltaCandidates(rows[..j], whitelist, dist)|
    ensures DeltaCandidates(rows, whitelist, dist)[c] == Candidate(rows[j].tid, dist(rows[j].vec))
    decreases |rows|
  {
    var front := rows[..|rows| - 1];
    if c < |DeltaCandidates(front, whitelist, dist)| {
      j := CandidateIsRow(front, whitelist, dist, c);
      assert front[..j] == rows[..j];
    } else {
      j := |rows| - 1;
    }
  }

  // ---- tombstones -------------------------------------------------------------------

  /** Some record for tid carries a deletion that committed and is visible to the snapshot. */
  predicate Dead(records: seq<TombstoneRecord>, visible: nat -> bool, tid: int) {
    exists t | 0 <= t < |records| :: records[t].tid == tid && visible(records[t].deleteXid)
  }

  function Alive(records: seq<TombstoneRecord>, visible: nat -> bool): int -> bool {
    tid => !Dead(records, visible, tid)
  }

  // ---- the result arrays ------------------------------------------------------------

  class ResultArrays {
    const tids: array<nat>
    const dists: array<real>
    var n: nat

    ghost predicate Valid()
      reads this
    {
      tids.Length == dists.Length && n <= tids.Length
    }

    function Slice(len: nat): (s: seq<Candidate>)
      requires len <= tids.Length == dists.Length
      reads this, tids, dists
      ensures |s| == len
    {
      seq(len, i requires 0 <= i < len reads this, tids, dists => Candidate(tids[i], dists[i]))
    }

    function Contents(): seq<Candidate>
      requires Valid()
      reads this, tids, dists
    {
      Slice(n)
    }

    constructor (reply: seq<Candidate>, capacity: nat)
      requires |reply| <= capacity
      requires forall c | c in reply :: c.id >= 0
      ensures Valid() && Contents() == reply && tids.Length == capacity
      ensures fresh(tids) && fresh(dists)
    {
      tids := new nat[capacity](i => if 0 <= i < |reply| && reply[i].id >= 0 then reply[i].id else 0);
      dists := new real[capacity](i => if 0 <= i < |reply| then reply[i].dist else 0.0);
      n := |reply|;
    }

    method Store(cands: seq<Candidate>, out: nat)
      requires Valid() && out <= |cands| && out <= tids.Length
      requires forall c | c in cands :: c.id >= 0
      modifies this, tids, dists
      ensures Valid() && Contents() == cands[..out]
    {
      for i := 0 to out
        invariant Valid() && Slice(i) == cands[..i]
      {
        tids[i] := cands[i].id;
        dists[i] := cands[i].dist;
        assert Slice(i + 1) == Slice(i) + [cands[i]];
      }
      n := out;
    }
  }

  /** Append the admitted delta rows to the base hits, with their exact distances. */
  method GatherCandidates(base: seq<Candidate>, rows: seq<DeltaRow>, whitelist: seq<nat>, dist: Vector -> real)
    returns (cands: seq<Candidate>)
    requires SortedTids(whitelist)
    ensures cands == base + DeltaCandidates(rows, whitelist, dist)
  {
    cands := base;
    for i := 0 to |rows|
      invariant cands == base + DeltaCandidates(rows[..i], whitelist, dist)
    {
      assert rows[..i + 1][..i] == rows[..i];
      var inFilter := true;
      if |whitelist| > 0 { inFilter := TidInFilter(rows[i].tid, whitelist); }
      if inFilter {
        cands := cands + [Candidate(rows[i].tid, dist(rows[i].vec))];
      }
    }
    assert rows[..|rows|] == rows;
  }

  method MergeDelta(a: ResultArrays, rows: seq<DeltaRow>, whitelist: seq<nat>, dist: Vector -> real,
                    m: Metric, k: nat)
    requires a.Valid() && k <= a.tids.Length && SortedTids(whitelist)
    modifies a, a.tids, a.dists
    ensures a.Valid()
    ensures rows == [] ==> a.Contents() == old(a.Contents())
    ensures rows != [] ==> IsTopK(m, a.Contents(), old(a.Contents()) + DeltaCandidates(rows, whitelist, dist), k)
  {
    if rows == [] { return; }
    var pool := GatherCandidates(a.Contents(), rows, whitelist, dist);
    var cands := SortCandidates(m, pool);
    SortedPrefixIsTopK(m, cands, pool, k);
    DeltaIds(rows, whitelist, dist);
    SubmultisetMembers(cands, pool);
    a.Store(cands, if |cands| < k then |cands| else k);
  }

  lemma DeltaIds(rows: seq<DeltaRow>, whitelist: seq<nat>, dist: Vector -> real)
    ensures forall c | c in DeltaCandidates(rows, whitelist, dist) :: c.id >= 0
  {}

  method ApplyTombstones(a: ResultArrays, records: seq<TombstoneRecord>, visible: nat -> bool)
    requires a.Valid()
    modifies a, a.tids, a.dists
    ensures a.Valid()
    ensures a.Contents() == Filter(Alive(records, visible), old(a.Contents()))
  {
    ghost var before := a.Contents();
    ghost var keep := Alive(records, visible);
    if |records| == 0 {
      KeepAll(keep, before);
      return;
    }
    var out := 0;
    for i := 0 to a.n
      invariant a.Valid() && a.n == |before| && out <= i
      invariant a.Slice(out) == Filter(keep, before[..i])
      invariant forall j | i <= j < a.n :: Candidate(a.tids[j], a.dists[j]) == before[j]
    {
      var dead, t := false, 0;
      while t < |records| && !dead
        invariant t <= |records|
        invariant dead ==> Dead(records, visible, a.tids[i])
        invariant !dead ==> forall u | 0 <= u < t :: !(records[u].tid == a.tids[i] && visible(records[u].deleteXid))
        decreases |records| - t, !dead
      {
        if records[t].tid == a.tids[i] && visible(records[t].deleteXid) { dead := true; }
        t := t + 1;
      }
      assert before[..i + 1][..i] == before[..i];
      if !dead {
        a.tids[out] := a.tids[i];
        a.dists[out] := a.dists[i];
        assert a.Slice(out + 1) == a.Slice(out) + [before[i]];
        out := out + 1;
      }
    }
    assert before[..a.n] == before;
    a.n := out;
  }

  lemma {:induction false} KeepAll(keep: int -> bool, s: seq<Candidate>)
    requires forall c | c in s :: keep(c.id)
    ensures Filter(keep, s) == s
  {
    if s != [] {
      KeepAll(keep, s[..|s| - 1]);
    }
  }

  /** What is left are the hits with no tombstone whose deletion the snapshot sees. */
  lemma SurvivorsHaveNoTombstone(records: seq<TombstoneRecord>, visible: nat -> bool, s: seq<Candidate>, c: Candidate)
    ensures c in Filter(Alive(records, visible), s) <==>
              c in s && forall t | 0 <= t < |records| && records[t].tid == c.id :: !visible(records[t].deleteXid)
  {
    FilterMembers(Alive(records, visible), s);
  }

  // ---- the whole filtered scan ---------------------------------------------------------

  /** Filtering distinct ids removes at most as many rows as there are ids to remove. */
  lemma {:induction false} FilterLoss(keep: int -> bool, r: seq<Candidate>, gone: set<int>)
    requires DistinctIds(r)
    requires forall c | c in r && !keep(c.id) :: c.id in gone
    ensures |r| <= |Filter(keep, r)| + |gone|
  {
    if r != [] {
      var front, last := r[..|r| - 1], r[|r| - 1];
      if keep(last.id) {
        FilterLoss(keep, front, gone);
      } else {
        assert last in r;
        FilterLoss(keep, front, gone - {last.id});
      }
    }
  }

  /** The distinct rows that committed and visible tombstones name. */
  function DeadTids(records: seq<TombstoneRecord>, visible: nat -> bool): (s: set<int>)
    ensures |s| <= |records|
    ensures forall id :: id in s <==> Dead(records, visible, id)
  {
    if records == [] then {}
    else
      var front, last := records[..|records| - 1], records[|records| - 1];
      DeadOneMore(records, visible);
      DeadTids(front, visible) + if visible(last.deleteXid) then {last.tid as int} else {}
  }

  lemma DeadOneMore(records: seq<TombstoneRecord>, visible: nat -> bool)
    requires records != []
    ensures var front, last := records[..|records| - 1], records[|records| - 1];
            forall id :: Dead(records, visible, id) <==> Dead(front, visible, id) || (last.tid == id && visible(last.deleteXid))
  {
    var front, last := records[..|records| - 1], records[|records| - 1];
    assert forall t | 0 <= t < |front| :: front[t] == records[t];
    assert last == records[|records| - 1];
  }

  /** Slack of one row per tombstone record makes filtering after truncation exact. */
  lemma TombstonesWithinSlack(m: Metric, r: seq<Candidate>, pool: seq<Candidate>, k: nat, slack: nat,
                              records: seq<TombstoneRecord>, visible: nat -> bool)
    requires DistinctIds(pool) && |records| <= slack
    requires IsTopK(m, r, pool, k + slack)
    ensures var keep := Alive(records, visible);
            var f := Filter(keep, r);
            IsTopK(m, f[..Min(k, |f|)], Filter(keep, pool), k)
  {
    var keep := Alive(records, visible);
    DistinctWithin(r, pool);
    FilterLoss(keep, r, DeadTids(records, visible));
    FilterTopK(m, keep, r, pool, k, slack);
  }

  datatype ScanResult = SlackTooLarge | Rows(rows: seq<Candidate>)

  /** Who merges the pending rows: whoever can, always the backend, never the backend. */
  datatype DeltaMode = Auto | Cpu | Gpu

  predicate MergesHere(mode: DeltaMode, daemonMerged: bool) { mode.Cpu? || (mode.Auto? && !daemonMerged) }

  /** The pending rows reach the result, and reach it once: always in auto mode, otherwise when just one side is told to. */
  predicate MergedOnce(mode: DeltaMode, daemonMerged: bool) {
    match mode
    case Auto => true
    case Cpu => !daemonMerged
    case Gpu => daemonMerged
  }

  /** What may come out of the merge step, given the daemon's answer. */
  ghost predicate MergeOutcome(m: Metric, mode: DeltaMode, daemonMerged: bool, base: seq<Candidate>, delta: seq<Candidate>,
                               n: nat, reply: seq<Candidate>, s: seq<Candidate>) {
    && IsTopK(m, reply, if daemonMerged then base + delta else base, n)
    && (if MergesHere(mode, daemonMerged) then IsTopK(m, s, reply + delta, n) else s == reply)
  }

  /** Merged once, or with nothing to merge, the outcome is the nearest n of base and delta. */
  lemma MergedExactly(m: Metric, mode: DeltaMode, daemonMerged: bool, base: seq<Candidate>, delta: seq<Candidate>,
                      n: nat, reply: seq<Candidate>, s: seq<Candidate>)
    requires MergeOutcome(m, mode, daemonMerged, base, delta, n, reply, s)
    requires MergedOnce(mode, daemonMerged) || delta == []
    ensures IsTopK(m, s, base + delta, n)
  {
    hide IsTopK;
    if delta == [] { assert base + delta == base; }
    if MergesHere(mode, daemonMerged) {
      MergeTopK(m, reply, base, delta, s, n);
    }
  }

  /**
   A mode is exact on every base, answer and tie-breaking precisely when the pending rows are
   merged once or there are none.
   */
  lemma ModeExactly(m: Metric, mode: DeltaMode, daemonMerged: bool, delta: seq<Candidate>, n: nat)
    requires n >= 2 && DistinctIds(delta)
    ensures (forall base, reply, s | DistinctIds(base + delta) && MergeOutcome(m, mode, daemonMerged, base, delta, n, reply, s) ::
               IsTopK(m, s, base + delta, n))
            <==> MergedOnce(mode, daemonMerged) || delta == []
  {
    hide IsTopK, DistinctIds;
    if MergedOnce(mode, daemonMerged) || delta == [] {
      forall base, reply, s | MergeOutcome(m, mode, daemonMerged, base, delta, n, reply, s)
        ensures IsTopK(m, s, base + delta, n)
      {
        MergedExactly(m, mode, daemonMerged, base, delta, n, reply, s);
      }
    } else {
      assert [] + delta == delta;
      var reply, s := WrongOutcome(m, mode, daemonMerged, delta, n);
      var base: seq<Candidate> := [];
      assert MergeOutcome(m, mode, daemonMerged, base, delta, n, reply, s);
    }
  }

  /** With an empty base, merging twice repeats a row and merging never loses all. */
  lemma WrongOutcome(m: Metric, mode: DeltaMode, daemonMerged: bool, delta: seq<Candidate>, n: nat)
    returns (reply: seq<Candidate>, s: seq<Candidate>)
    requires n >= 2 && DistinctIds(delta) && !MergedOnce(mode, daemonMerged) && delta != []
    ensures MergeOutcome(m, mode, daemonMerged, [], delta, n, reply, s) && !IsTopK(m, s, [] + delta, n)
  {
    assert [] + delta == delta;
    if daemonMerged {
      reply := Remerge.TopKExists(m, delta, n);
      SubmultisetMembers(reply, delta);
      assert |reply| == n ==> reply[n - 2] in delta;
      s := Remerge.UnsafeRemerge(m, reply, [], delta, n);
    } else {
      reply, s := [], [];
    }
  }

  /** How many base hits a filtered query asks the daemon for: one more for each tombstone. */
  function FetchCount(k: nat, tombstones: nat, maxDeltaRows: int): (f: int)
    ensures var slack := if maxDeltaRows <= 0 then 0 else tombstones;
      && (f == -1 <==> slack > 0 && k + slack > 0x7FFF_FFFF)
      && (f != -1 ==> f == k + slack)
  {
    if maxDeltaRows <= 0 || tombstones == 0 then k
    else if tombstones > INT_MAX - k then -1
    else k + tombstones
  }

  predicate NoZero(s: seq<Candidate>) { forall i | 0 <= i < |s| :: s[i].id != 0 }

  /** The filter dropped no more than the slack, or no live row was left out of what was fetched. */
  ghost predicate EnoughFetched(keep: int -> bool, fetched: seq<Candidate>, pool: seq<Candidate>, slack: nat) {
    Dropped(keep, fetched) <= slack || |Filter(keep, fetched)| == |Filter(keep, pool)|
  }

  /**
   What the first k rows left after merging and filtering are worth.  If the pending rows were
   merged once, or there are none, `fetched` is the nearest rows of base and delta; whenever it
   is, the first k left are the nearest live rows precisely when enough were fetched; and enough
   were if no more distinct rows are dead than the slack has room for.
   */
  ghost predicate ScanOutcome(m: Metric, mode: DeltaMode, daemonMerged: bool, base: seq<Candidate>, delta: seq<Candidate>,
                              k: nat, fetch: nat, reply: seq<Candidate>, fetched: seq<Candidate>,
                              records: seq<TombstoneRecord>, visible: nat -> bool)
    requires k <= fetch
  {
    var pool, keep := base + delta, Alive(records, visible);
    && MergeOutcome(m, mode, daemonMerged, base, delta, fetch, reply, fetched)
    && (MergedOnce(mode, daemonMerged) || delta == [] ==> IsTopK(m, fetched, pool, fetch))
    && (IsTopK(m, fetched, pool, fetch) ==>
          (IsTopK(m, Cut(Filter(keep, fetched), k), Filter(keep, pool), k)
           <==> EnoughFetched(keep, fetched, pool, fetch - k)))
    && (IsTopK(m, fetched, pool, fetch) && DistinctIds(pool) && |DeadTids(records, visible)| <= fetch - k ==>
          EnoughFetched(keep, fetched, pool, fetch - k))
  }

  /**
   Merging where the mode says so, then filtering: the part both scans share.  `fetched` is
   what the arrays hold between the two.
   */
  method MergeAndFilter(a: ResultArrays, m: Metric, mode: DeltaMode, daemonMerged: bool, rows: seq<DeltaRow>,
                        whitelist: seq<nat>, dist: Vector -> real, records: seq<TombstoneRecord>,
                        visible: nat -> bool, k: nat, fetch: nat, ghost base: seq<Candidate>)
    returns (ghost fetched: seq<Candidate>)
    requires a.Valid() && k <= fetch <= a.tids.Length && SortedTids(whitelist)
    requires var delta := DeltaCandidates(rows, whitelist, dist);
             IsTopK(m, a.Contents(), if daemonMerged then base + delta else base, fetch)
    modifies a, a.tids, a.dists
    ensures a.Valid() && a.Contents() == Filter(Alive(records, visible), fetched)
    ensures ScanOutcome(m, mode, daemonMerged, base, DeltaCandidates(rows, whitelist, dist), k, fetch,
                        old(a.Contents()), fetched, records, visible)
    ensures mode.Auto? ==> IsTopK(m, fetched, base + DeltaCandidates(rows, whitelist, dist), fetch)
  {
    hide IsTopK, DeltaCandidates, Filter, Dropped;
    ghost var delta, reply := DeltaCandidates(rows, whitelist, dist), a.Contents();
    ghost var pool, keep := base + delta, Alive(records, visible);
    if MergesHere(mode, daemonMerged) {
      NoRowsNoDelta(rows, whitelist, dist);
      SelfTopK(m, reply, if daemonMerged then pool else base, fetch);
      MergeDelta(a, rows, whitelist, dist, m, fetch);
      assert rows == [] ==> reply + delta == reply;
    }
    fetched := a.Contents();
    if MergedOnce(mode, daemonMerged) || delta == [] {
      MergedExactly(m, mode, daemonMerged, base, delta, fetch, reply, fetched);
    }
    if IsTopK(m, fetched, pool, fetch) {
      FilterExactly(m, keep, fetched, pool, k, fetch);
      if DistinctIds(pool) { DroppedAtMostDead(m, fetched, pool, fetch, records, visible); }
    }
    ApplyTombstones(a, records, visible);
  }

  lemma NoRowsNoDelta(rows: seq<DeltaRow>, whitelist: seq<nat>, dist: Vector -> real)
    ensures rows == [] ==> DeltaCandidates(rows, whitelist, dist) == []
  {}

  lemma SelfTopK(m: Metric, r: seq<Candidate>, pool: seq<Candidate>, n: nat)
    requires IsTopK(m, r, pool, n)
    ensures IsTopK(m, r, r, n)
  {
    assert multiset(r) - multiset(r) == multiset{};
  }

  /** The filter drops at most as many distinct rows as are dead. */
  lemma DroppedAtMostDead(m: Metric, r: seq<Candidate>, pool: seq<Candidate>, n: nat,
                          records: seq<TombstoneRecord>, visible: nat -> bool)
    requires DistinctIds(pool) && IsTopK(m, r, pool, n)
    ensures Dropped(Alive(records, visible), r) <= |DeadTids(records, visible)|
  {
    DistinctWithin(r, pool);
    FilterLoss(Alive(records, visible), r, DeadTids(records, visible));
  }

  /**
   cuvs_filtered_knn from the slack computation on.  `reply` is the daemon's answer to a
   request for `fetch` rows of `base` (of `base` and the delta when the daemon merged it),
   `counted` the tombstone records seen when the slack was computed and `records` those read
   after the search.  Without a whitelist the daemon's answer is passed on.
   */
  method FilteredKnn(k: nat, m: Metric, maxDeltaRows: int, mode: DeltaMode, counted: nat, reply: seq<Candidate>,
                     daemonMerged: bool, rows: seq<DeltaRow>, whitelist: seq<nat>, dist: Vector -> real,
                     records: seq<TombstoneRecord>, visible: nat -> bool, ghost base: seq<Candidate>)
    returns (r: ScanResult, ghost fetched: seq<Candidate>)
    requires k <= INT_MAX && SortedTids(whitelist)
    requires var fetch := if whitelist == [] then k else FetchCount(k, counted, maxDeltaRows);
             fetch >= 0 ==>
               IsTopK(m, reply, if daemonMerged then base + DeltaCandidates(rows, whitelist, dist) else base, fetch)
    requires forall c | c in reply :: c.id >= 0
    ensures r.SlackTooLarge? <==> whitelist != [] && FetchCount(k, counted, maxDeltaRows) < 0
    ensures whitelist == [] || maxDeltaRows <= 0 ==> r == Rows(Filter(NonZero(), reply))
    ensures r.Rows? && whitelist != [] && maxDeltaRows > 0 ==>
              && ScanOutcome(m, mode, daemonMerged, base, DeltaCandidates(rows, whitelist, dist), k, k + counted,
                             reply, fetched, records, visible)
              && r.rows == Filter(NonZero(), Cut(Filter(Alive(records, visible), fetched), k))
              && (NoZero(reply + DeltaCandidates(rows, whitelist, dist)) ==>
                    r.rows == Cut(Filter(Alive(records, visible), fetched), k))
              && (mode.Auto? ==> IsTopK(m, fetched, base + DeltaCandidates(rows, whitelist, dist), k + counted))
  {
    hide IsTopK, DeltaCandidates, Filter;
    ghost var delta, keep := DeltaCandidates(rows, whitelist, dist), Alive(records, visible);
    fetched := reply;
    var fetch := if |whitelist| > 0 then FetchCount(k, counted, maxDeltaRows) else k;
    if fetch < 0 { return SlackTooLarge, reply; }
    FullReply(m, reply, if daemonMerged then base + delta else base, fetch);
    var a := new ResultArrays(reply, fetch);
    if |whitelist| > 0 && maxDeltaRows > 0 {
      fetched := MergeAndFilter(a, m, mode, daemonMerged, rows, whitelist, dist, records, visible, k, fetch, base);
      if NoZero(reply + delta) {
        NoZeroKept(m, mode, daemonMerged, base, delta, fetch, reply, fetched, keep, k);
      }
    }
    hide ScanOutcome, NoZero;
    var emitted := Emit(a, k);
    r := Rows(emitted);
    assert whitelist == [] || maxDeltaRows <= 0 ==> Cut(a.Contents(), k) == reply;
  }

  /** Where no row has the zero TID, none is skipped. */
  lemma NoZeroKept(m: Metric, mode: DeltaMode, daemonMerged: bool, base: seq<Candidate>, delta: seq<Candidate>, n: nat,
                   reply: seq<Candidate>, fetched: seq<Candidate>, keep: int -> bool, k: nat)
    requires MergeOutcome(m, mode, daemonMerged, base, delta, n, reply, fetched) && NoZero(reply + delta)
    ensures Filter(NonZero(), Cut(Filter(keep, fetched), k)) == Cut(Filter(keep, fetched), k)
  {
    if MergesHere(mode, daemonMerged) {
      SubmultisetMembers(fetched, reply + delta);
    } else {
      assert forall c | c in fetched :: c in reply + delta;
    }
    FilterMembers(keep, fetched);
    var s := Cut(Filter(keep, fetched), k);
    forall c | c in s ensures NonZero()(c.id) {
      assert c in Filter(keep, fetched) && c in fetched && c in reply + delta;
    }
    KeepAll(NonZero(), s);
  }

  /** How many base hits an index scan asks for: one more for each tombstone, but at most one extra k. */
  function ScanCount(k: nat, tombstones: nat, maxDeltaRows: int): (f: nat)
    ensures f == k + if maxDeltaRows <= 0 then 0 else if tombstones < k then tombstones else k
  {
    if maxDeltaRows > 0 then k + Min(tombstones, k) else k
  }

  /** The first call of an index scan: every row left in the arrays is emitted, nearest first. */
  method IndexScan(k: nat, m: Metric, maxDeltaRows: int, mode: DeltaMode, counted: nat, reply: seq<Candidate>,
                   daemonMerged: bool, rows: seq<DeltaRow>, dist: Vector -> real,
                   records: seq<TombstoneRecord>, visible: nat -> bool, ghost base: seq<Candidate>)
    returns (r: seq<Candidate>, ghost fetched: seq<Candidate>)
    requires IsTopK(m, reply, if daemonMerged then base + DeltaCandidates(rows, [], dist) else base,
                    ScanCount(k, counted, maxDeltaRows))
    requires forall c | c in reply :: c.id >= 0
    ensures maxDeltaRows <= 0 ==> r == reply
    ensures maxDeltaRows > 0 ==>
              && r == Filter(Alive(records, visible), fetched)
              && ScanOutcome(m, mode, daemonMerged, base, DeltaCandidates(rows, [], dist), k, k + Min(counted, k),
                             reply, fetched, records, visible)
              && (mode.Auto? ==> IsTopK(m, fetched, base + DeltaCandidates(rows, [], dist), k + Min(counted, k)))
  {
    hide IsTopK, DeltaCandidates, Filter;
    fetched := reply;
    var fetch := ScanCount(k, counted, maxDeltaRows);
    FullReply(m, reply, if daemonMerged then base + DeltaCandidates(rows, [], dist) else base, fetch);
    var a := new ResultArrays(reply, fetch);
    if maxDeltaRows > 0 {
      fetched := MergeAndFilter(a, m, mode, daemonMerged, rows, [], dist, records, visible, k, fetch, base);
    }
    r := a.Contents();
  }

  lemma FullReply(m: Metric, reply: seq<Candidate>, pool: seq<Candidate>, n: nat)
    requires IsTopK(m, reply, pool, n)
    ensures |reply| <= n
  {}

  // ---- how many tombstones a slack can take -----------------------------------------------

  /** An exact search over distinct rows. */
  ghost predicate SearchOf(m: Metric, r: seq<Candidate>, pool: seq<Candidate>, n: nat) {
    DistinctIds(pool) && (forall i | 0 <= i < |pool| :: pool[i].id >= 0) && IsTopK(m, r, pool, n)
  }

  function MaxTid(records: seq<TombstoneRecord>): (t: nat)
    ensures forall i | 0 <= i < |records| :: records[i].tid <= t
  {
    if records == [] then 0
    else
      var front, last := MaxTid(records[..|records| - 1]), records[|records| - 1].tid;
      if front < last then last else front
  }

  /** More dead rows than slack lose a live row of some corpus. */
  lemma DeadRowsStarve(m: Metric, records: seq<TombstoneRecord>, visible: nat -> bool, k: nat, slack: nat)
    returns (pool: seq<Candidate>, r: seq<Candidate>)
    requires k >= 1 && |DeadTids(records, visible)| > slack
    ensures SearchOf(m, r, pool, k + slack)
    ensures !IsTopK(m, Cut(Filter(Alive(records, visible), r), k), Filter(Alive(records, visible), pool), k)
  {
    hide IsTopK, Filter;
    pool, r := Slack.SlackIsTight(m, Alive(records, visible), DeadTids(records, visible), MaxTid(records), k, slack);
  }

  /**
   A slack makes merge, filter and cut exact on every corpus precisely when no more distinct
   rows are dead than it has room for.
   */
  lemma SlackExactly(m: Metric, records: seq<TombstoneRecord>, visible: nat -> bool, k: nat, slack: nat)
    requires k >= 1
    ensures (forall pool, r | SearchOf(m, r, pool, k + slack) ::
               IsTopK(m, Cut(Filter(Alive(records, visible), r), k), Filter(Alive(records, visible), pool), k))
            <==> |DeadTids(records, visible)| <= slack
  {
    hide IsTopK, Filter, DeadTids, Alive;
    if |DeadTids(records, visible)| <= slack {
      forall pool, r | SearchOf(m, r, pool, k + slack)
        ensures IsTopK(m, Cut(Filter(Alive(records, visible), r), k), Filter(Alive(records, visible), pool), k)
      {
        DroppedAtMostDead(m, r, pool, k + slack, records, visible);
        FilterExactly(m, Alive(records, visible), r, pool, k, k + slack);
      }
    } else {
      var pool, r := DeadRowsStarve(m, records, visible, k, slack);
    }
  }

  /** A filtered query is exact on every corpus precisely when at most as many rows are dead as tombstones were counted. */
  lemma RacingTombstoneStarves(m: Metric, records: seq<TombstoneRecord>, visible: nat -> bool, k: nat, counted: nat, maxDeltaRows: int)
    requires k >= 1 && maxDeltaRows > 0 && FetchCount(k, counted, maxDeltaRows) >= 0
    ensures (forall pool, r | SearchOf(m, r, pool, FetchCount(k, counted, maxDeltaRows)) ::
               IsTopK(m, Cut(Filter(Alive(records, visible), r), k), Filter(Alive(records, visible), pool), k))
            <==> |DeadTids(records, visible)| <= counted
  {
    hide SearchOf, IsTopK, Filter, Alive, DeadTids;
    SlackExactly(m, records, visible, k, counted);
  }

  /**
   An index scan is exact on every corpus precisely when the dead rows number at most k and at
   most the tombstones counted; the cap on its slack fails without any race.
   */
  lemma CappedSlackStarves(m: Metric, records: seq<TombstoneRecord>, visible: nat -> bool, k: nat, counted: nat, maxDeltaRows: int)
    requires k >= 1 && maxDeltaRows > 0
    ensures (forall pool, r | SearchOf(m, r, pool, ScanCount(k, counted, maxDeltaRows)) ::
               IsTopK(m, Cut(Filter(Alive(records, visible), r), k), Filter(Alive(records, visible), pool), k))
            <==> |DeadTids(records, visible)| <= Min(counted, k)
  {
    hide SearchOf, IsTopK, Filter, Alive, DeadTids;
    SlackExactly(m, records, visible, k, Min(counted, k));
  }

  // ---- a pending row twice -------------------------------------------------------------------

  /**
   Told to merge after a daemon that has merged, an index scan is exact under every tie-breaking
   precisely when the answer is safe to merge into: it is full, and no pending row in it is as
   near as its last row but one.
   */
  lemma SecondMergeRepeats(m: Metric, base: seq<Candidate>, delta: seq<Candidate>, n: nat, reply: seq<Candidate>)
    requires DistinctIds(base + delta) && IsTopK(m, reply, base + delta, n)
    ensures (forall s | MergeOutcome(m, Cpu, true, base, delta, n, reply, s) :: IsTopK(m, s, base + delta, n))
            <==> Remerge.RemergeSafe(m, reply, delta, n)
  {
    hide IsTopK, DistinctIds, Remerge.RemergeSafe;
    Remerge.RemergeExactly(m, reply, base, delta, n);
    if forall s | MergeOutcome(m, Cpu, true, base, delta, n, reply, s) :: IsTopK(m, s, base + delta, n) {
      forall s | IsTopK(m, s, reply + delta, n) ensures IsTopK(m, s, base + delta, n) {
        assert MergeOutcome(m, Cpu, true, base, delta, n, reply, s);
      }
    }
  }

  /** Told never to merge, the result is exact precisely when the answer is full and no pending row is nearer. */
  lemma GpuModeMisses(m: Metric, base: seq<Candidate>, delta: seq<Candidate>, n: nat, reply: seq<Candidate>, s: seq<Candidate>)
    requires MergeOutcome(m, Gpu, false, base, delta, n, reply, s)
    ensures IsTopK(m, s, base + delta, n) <==>
              delta == []
              || (|reply| == n && forall i, j | 0 <= i < |reply| && 0 <= j < |delta| :: Near(m, reply[i].dist, delta[j].dist))
  {
    Remerge.UnmergedExactly(m, reply, base, delta, n);
  }

  lemma FilterMembers(keep: int -> bool, s: seq<Candidate>)
    ensures forall c :: c in Filter(keep, s) <==> c in s && keep(c.id)
  {
    forall c ensures c in Filter(keep, s) <==> c in s && keep(c.id) {
      FilterCounts(keep, s, c);
      assert c in Filter(keep, s) <==> c in multiset(Filter(keep, s));
      assert c in s <==> c in multiset(s);
    }
  }

  function NonZero(): int -> bool { id => id != 0 }

  /** The first k rows go to the caller, but for any with the all-zero TID. */
  method Emit(a: ResultArrays, k: nat) returns (r: seq<Candidate>)
    requires a.Valid()
    ensures r == Filter(NonZero(), Cut(a.Contents(), k))
  {
    r := [];
    var limit := if a.n < k then a.n else k;
    ghost var cut := Cut(a.Contents(), k);
    for i := 0 to limit
      invariant r == Filter(NonZero(), cut[..i])
    {
      assert cut[..i + 1][..i] == cut[..i] && cut[i] == Candidate(a.tids[i], a.dists[i]);
      if a.tids[i] == 0 { continue; }
      r := r + [Candidate(a.tids[i], a.dists[i])];
    }
    assert cut[..limit] == cut;
  }
}
