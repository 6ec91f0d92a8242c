/**
 The CPU reference index: exact top-k with an exclude bitset, in-place extension,
 compaction by keep bits, and the nearest-neighbour adjacency handed to the exporter.
 A row of the corpus is one vector; the distance between two vectors is a parameter.
 */
module RefIndex {
  import opened TopK

  type Vector = seq<real>

  datatype Distance = Finite(value: real) | NegativeInfinity | PositiveInfinity
  datatype SearchResult = SearchResult(itemId: int, distance: Distance)

  const PAD_ITEM_ID: int := -1

  function PadDistance(m: Metric): Distance {
    if m == InnerProduct then NegativeInfinity else PositiveInfinity
  }

  // ---- the comparators: a strict total order, ties broken by id --------------------------

  predicate Before(m: Metric, a: Candidate, b: Candidate) {
    if a.dist != b.dist then Near(m, a.dist, b.dist) else a.id < b.id
  }

  predicate StrictlyOrdered(m: Metric, s: seq<Candidate>) {
    forall i, j | 0 <= i < j < |s| :: Before(m, s[i], s[j])
  }

  function Insert(m: Metric, s: seq<Candidate>, c: Candidate): seq<Candidate> {
    if s == [] || Before(m, c, s[0]) then [c] + s else [s[0]] + Insert(m, s[1..], c)
  }

  /** The one ordered arrangement of candidates with distinct ids. */
  function Sort(m: Metric, s: seq<Candidate>): seq<Candidate> {
    if s == [] then [] else Insert(m, Sort(m, s[..|s| - 1]), s[|s| - 1])
  }

  lemma {:induction false} InsertMembers(m: Metric, s: seq<Candidate>, c: Candidate)
    ensures multiset(Insert(m, s, c)) == multiset(s) + multiset{c}
  {
    if s != [] && !Before(m, c, s[0]) {
      InsertMembers(m, s[1..], c);
      assert s == [s[0]] + s[1..];
    }
  }

  lemma {:induction false} InsertOrdered(m: Metric, s: seq<Candidate>, c: Candidate)
    requires StrictlyOrdered(m, s) && forall i | 0 <= i < |s| :: s[i].id != c.id
    ensures StrictlyOrdered(m, Insert(m, s, c))
  {
    if s != [] && !Before(m, c, s[0]) {
      var tail := Insert(m, s[1..], c);
      InsertOrdered(m, s[1..], c);
      InsertMembers(m, s[1..], c);
      forall j | 0 <= j < |tail| ensures Before(m, s[0], tail[j]) {
        assert tail[j] in multiset(tail);
        if tail[j] != c {
          LaterElement(s, tail[j]);
        }
      }
    } else {
      forall j | 0 <= j < |s| ensures Before(m, c, s[j]) {
        if j > 0 { assert Before(m, s[0], s[j]); }
      }
    }
  }

  lemma LaterElement(s: seq<Candidate>, x: Candidate)
    requires s != [] && x in multiset(s[1..])
    ensures exists l :: 1 <= l < |s| && s[l] == x
  {
    var l :| 0 <= l < |s[1..]| && s[1..][l] == x;
    assert s[l + 1] == x;
  }

  lemma {:induction false} SortOrdered(m: Metric, s: seq<Candidate>)
    requires DistinctIds(s)
    ensures StrictlyOrdered(m, Sort(m, s)) && multiset(Sort(m, s)) == multiset(s)
    ensures |Sort(m, s)| == |s|
  {
    if s != [] {
      var front, last := s[..|s| - 1], s[|s| - 1];
      SortOrdered(m, front);
      var t := Sort(m, front);
      forall i | 0 <= i < |t| ensures t[i].id != last.id {
        assert t[i] in multiset(t) && t[i] in multiset(front);
        var j :| 0 <= j < |front| && front[j] == t[i];
      }
      InsertOrdered(m, t, last);
      InsertMembers(m, t, last);
      assert s == front + [last];
    }
    assert |multiset(Sort(m, s))| == |Sort(m, s)| && |multiset(s)| == |s|;
  }

  lemma HeadFirst(m: Metric, t: seq<Candidate>, x: Candidate)
    requires StrictlyOrdered(m, t) && x in multiset(t)
    ensures t != [] && (x == t[0] || Before(m, t[0], x))
  {
    var i :| 0 <= i < |t| && t[i] == x;
    assert i > 0 ==> Before(m, t[0], t[i]);
  }

  lemma DropHead(s: seq<Candidate>)
    requires s != []
    ensures multiset(s[1..]) == multiset(s) - multiset{s[0]}
  {
    assert s == [s[0]] + s[1..];
  }

  lemma SameHead(m: Metric, s: seq<Candidate>, t: seq<Candidate>)
    requires StrictlyOrdered(m, s) && StrictlyOrdered(m, t) && multiset(s) == multiset(t)
    requires s != [] && t != []
    ensures s[0] == t[0]
  {
    assert s[0] in multiset(s) && t[0] in multiset(t);
    HeadFirst(m, t, s[0]);
    HeadFirst(m, s, t[0]);
  }

  lemma {:induction false} OrderedUnique(m: Metric, s: seq<Candidate>, t: seq<Candidate>)
    requires StrictlyOrdered(m, s) && StrictlyOrdered(m, t) && multiset(s) == multiset(t)
    ensures s == t
  {
    assert |multiset(s)| == |s| && |multiset(t)| == |t|;
    hide Before;
    if s != [] {
      SameHead(m, s, t);
      DropHead(s);
      DropHead(t);
      OrderedUnique(m, s[1..], t[1..]);
      assert s == [s[0]] + s[1..] && t == [t[0]] + t[1..];
    }
  }

  // ---- what a search answers -----------------------------------------------------------

  type Dist = (Metric, Vector, Vector) -> real

  /** The admitted rows among the first n, in row order, at their distance to the query. */
  function Pairs(rows: seq<Vector>, m: Metric, dist: Dist, query: Vector, excluded: int -> bool, n: nat): (s: seq<Candidate>)
    requires n <= |rows|
    ensures |s| <= n
  {
    if n == 0 then []
    else Pairs(rows, m, dist, query, excluded, n - 1)
           + if excluded(n - 1) then [] else [Candidate(n - 1, dist(m, rows[n - 1], query))]
  }

  function Padded(m: Metric, s: seq<Candidate>, k: nat): (r: seq<SearchResult>)
    ensures |r| == k
  {
    seq(k, j requires 0 <= j < k =>
      if j < |s| then SearchResult(s[j].id, Finite(s[j].dist)) else SearchResult(PAD_ITEM_ID, PadDistance(m)))
  }

  /** Every slot of a top-k answer: the nearest admitted rows in comparator order, then padding. */
  function Answer(rows: seq<Vector>, m: Metric, dist: Dist, query: Vector, k: nat, excluded: int -> bool): seq<SearchResult> {
    Padded(m, Sort(m, Pairs(rows, m, dist, query, excluded, |rows|)), k)
  }

  lemma {:induction false} PairsDistinct(rows: seq<Vector>, m: Metric, dist: Dist, query: Vector, excluded: int -> bool, n: nat)
    requires n <= |rows|
    ensures var s := Pairs(rows, m, dist, query, excluded, n);
            DistinctIds(s) && forall i | 0 <= i < |s| :: 0 <= s[i].id < n && !excluded(s[i].id)
  {
    if n > 0 {
      PairsDistinct(rows, m, dist, query, excluded, n - 1);
    }
  }

  /** The hits of an answer are a nearest-k selection of the admitted rows. */
  lemma AnswerIsTopK(rows: seq<Vector>, m: Metric, dist: Dist, query: Vector, k: nat, excluded: int -> bool)
    ensures var pool := Pairs(rows, m, dist, query, excluded, |rows|);
            var s := Sort(m, pool);
            && |s| == |pool| && IsTopK(m, s[..Min(k, |s|)], pool, k)
            && forall j | 0 <= j < k ::
                 Answer(rows, m, dist, query, k, excluded)[j] ==
                   if j < |pool| then SearchResult(s[j].id, Finite(s[j].dist))
                   else SearchResult(PAD_ITEM_ID, PadDistance(m))
  {
    var pool := Pairs(rows, m, dist, query, excluded, |rows|);
    PairsDistinct(rows, m, dist, query, excluded, |rows|);
    SortOrdered(m, pool);
    StrictIsOrdered(m, Sort(m, pool));
    SortedPrefixIsTopK(m, Sort(m, pool), pool, k);
  }

  lemma StrictIsOrdered(m: Metric, s: seq<Candidate>)
    requires StrictlyOrdered(m, s)
    ensures Ordered(m, s)
  {
    forall i, j | 0 <= i < j < |s| ensures Near(m, s[i].dist, s[j].dist) {
      assert Before(m, s[i], s[j]);
    }
  }

  /** The admitted rows are exactly the candidates, each under its own number and at its own distance. */
  lemma {:induction false} AdmittedRows(rows: seq<Vector>, m: Metric, dist: Dist, query: Vector, excluded: int -> bool, n: nat, c: Candidate)
    requires n <= |rows|
    ensures c in Pairs(rows, m, dist, query, excluded, n) <==>
              0 <= c.id < n && !excluded(c.id) && c.dist == dist(m, rows[c.id], query)
  {
    if n > 0 {
      AdmittedRows(rows, m, dist, query, excluded, n - 1, c);
    }
  }

  /** The order of the extended reals. */
  predicate Below(a: Distance, b: Distance) {
    match a
    case NegativeInfinity => b != NegativeInfinity
    case Finite(x) => b == PositiveInfinity || (b.Finite? && x < b.value)
    case PositiveInfinity => false
  }

  /**
   An answer is sorted through its padding: no slot is strictly nearer than an earlier one, equal
   distances are in row order, and the slots at an infinite distance are those with id -1.
   */
  lemma AnswerInOrder(rows: seq<Vector>, m: Metric, dist: Dist, query: Vector, k: nat, excluded: int -> bool, i: nat, j: nat)
    requires i < j < k
    ensures var a, b := Answer(rows, m, dist, query, k, excluded)[i], Answer(rows, m, dist, query, k, excluded)[j];
            && (m == InnerProduct ==> !Below(a.distance, b.distance))
            && (m != InnerProduct ==> !Below(b.distance, a.distance))
            && (a.distance == b.distance && b.distance.Finite? ==> a.itemId < b.itemId)
            && (b.itemId == -1 <==> !b.distance.Finite?)
  {
    var pool := Pairs(rows, m, dist, query, excluded, |rows|);
    PairsDistinct(rows, m, dist, query, excluded, |rows|);
    SortedKeepsIds(m, pool);
    hide Pairs, Sort, StrictlyOrdered;
    PaddedInOrder(m, Sort(m, pool), k, i, j);
  }

  lemma SortedKeepsIds(m: Metric, pool: seq<Candidate>)
    requires DistinctIds(pool) && forall i | 0 <= i < |pool| :: pool[i].id >= 0
    ensures StrictlyOrdered(m, Sort(m, pool)) && forall i | 0 <= i < |Sort(m, pool)| :: Sort(m, pool)[i].id >= 0
  {
    SortOrdered(m, pool);
    hide Sort, StrictlyOrdered, DistinctIds;
    SubmultisetMembers(Sort(m, pool), pool);
    forall i | 0 <= i < |Sort(m, pool)| ensures Sort(m, pool)[i].id >= 0 {
      assert Sort(m, pool)[i] in pool;
    }
  }

  lemma PaddedInOrder(m: Metric, s: seq<Candidate>, k: nat, i: nat, j: nat)
    requires i < j < k && StrictlyOrdered(m, s) && forall i | 0 <= i < |s| :: s[i].id >= 0
    ensures var a, b := Padded(m, s, k)[i], Padded(m, s, k)[j];
            && (m == InnerProduct ==> !Below(a.distance, b.distance))
            && (m != InnerProduct ==> !Below(b.distance, a.distance))
            && (a.distance == b.distance && b.distance.Finite? ==> a.itemId < b.itemId)
            && (b.itemId == -1 <==> !b.distance.Finite?)
  {
    var pad := SearchResult(PAD_ITEM_ID, PadDistance(m));
    assert Padded(m, s, k)[i] == if i < |s| then SearchResult(s[i].id, Finite(s[i].dist)) else pad;
    assert Padded(m, s, k)[j] == if j < |s| then SearchResult(s[j].id, Finite(s[j].dist)) else pad;
    assert j < |s| ==> Before(m, s[i], s[j]);
  }

  /** Padding comes last: it is farther than any finite distance. */
  lemma PaddingIsFarthest(m: Metric, x: real)
    ensures m == InnerProduct ==> Below(PadDistance(m), Finite(x))
    ensures m != InnerProduct ==> Below(Finite(x), PadDistance(m))
  {}

  // ---- bitsets ---------------------------------------------------------------------------

  /** 1u << b */
  function Mask(b: nat): bv32
    requires b < 32
  {
    (1 as bv32) << (b as bv6)
  }

  predicate Has(w: bv32, b: nat)
    requires b < 32
  {
    w & Mask(b) != 0
  }

  /** bits[i >> 5] & (1u << (i & 31)) */
  predicate Bit(words: seq<bv32>, i: nat)
    requires i / 32 < |words|
  {
    Has(words[i / 32], i % 32)
  }

  predicate Covers(words: seq<bv32>, bits: nat) { bits <= 32 * |words| }

  datatype Bitset = NoBitset | Bitset(words: seq<bv32>, bits: nat)
  {
    /** The words behind every bit a search over n rows looks at. */
    predicate Reaches(n: nat) { Bitset? ==> Covers(words, Min(bits, n)) }

    predicate Excludes(i: int) {
      Bitset? && 0 <= i < bits && i / 32 < |words| && Bit(words, i)
    }
  }

  function Excluding(b: Bitset): int -> bool {
    i => b.Excludes(i)
  }

  predicate Kept(words: seq<bv32>, total: nat, i: int) {
    0 <= i < total && i / 32 < |words| && Bit(words, i)
  }

  lemma Narrow(b: nat)
    requires b < 32
    ensures (b as bv6) < 32 && (b as bv6) as int == b
  {}

  lemma SameShift(b: nat, c: nat)
    requires b < 32 && c < 32
    ensures (b as bv6) == (c as bv6) <==> b == c
  {
    Narrow(b);
    Narrow(c);
  }

  lemma ShiftsMeet(s: bv6, t: bv6)
    requires s < 32 && t < 32
    ensures ((1 as bv32) << s) & ((1 as bv32) << t) != 0 <==> s == t
  {}

  lemma MasksMeet(b: nat, c: nat)
    requires b < 32 && c < 32
    ensures Mask(b) & Mask(c) != 0 <==> b == c
  {
    SameShift(b, c);
    Narrow(b);
    Narrow(c);
    ShiftsMeet(b as bv6, c as bv6);
  }

  lemma EitherMeets(w: bv32, m: bv32, n: bv32)
    ensures (w | m) & n != 0 <==> w & n != 0 || m & n != 0
  {}

  /** 1 doubled b times. */
  function Doubled(b: nat): bv32 { if b == 0 then 1 else Doubled(b - 1) + Doubled(b - 1) }

  lemma ShiftDoubles(s: bv6)
    requires 0 < s < 32
    ensures ((1 as bv32) << s) == ((1 as bv32) << (s - 1)) + ((1 as bv32) << (s - 1))
  {}

  lemma NarrowStep(b: nat)
    requires 0 < b < 32
    ensures (b as bv6) > 0 && ((b - 1) as bv6) == (b as bv6) - 1
  {
    Narrow(b);
    Narrow(b - 1);
  }

  lemma {:induction false} MaskDoubled(b: nat)
    requires b < 32
    ensures Mask(b) == Doubled(b)
  {
    if b > 0 {
      MaskDoubled(b - 1);
      Narrow(b);
      NarrowStep(b);
      ShiftDoubles(b as bv6);
    }
  }

  /** The word 2^b stands for row b and for no other. */
  lemma OneBit(b: nat, i: nat)
    requires b < 32 && i < 32
    ensures Bit([Doubled(b)], i) <==> i == b
  {
    MaskDoubled(b);
    MasksMeet(b, i);
    hide Mask, Doubled;
  }

  /** The words with 2^(i % 32) or-ed into word i / 32. */
  function Marked(words: seq<bv32>, i: nat): (w: seq<bv32>)
    requires i / 32 < |words|
    ensures |w| == |words|
  {
    words[i / 32 := words[i / 32] | Doubled(i % 32)]
  }

  /** That adds row i and changes no other. */
  lemma MarkedRow(words: seq<bv32>, i: nat, r: nat)
    requires i / 32 < |words| && r / 32 < |words|
    ensures Bit(Marked(words, i), r) <==> Bit(words, r) || r == i
  {
    MaskDoubled(i % 32);
    MasksMeet(i % 32, r % 32);
    hide Mask, Doubled;
    EitherMeets(words[i / 32], Doubled(i % 32), Mask(r % 32));
    assert i == i / 32 * 32 + i % 32 && r == r / 32 * 32 + r % 32;
  }

  /** The row that a bit excludes; rows from `bits` on are never excluded. */
  lemma MarkedIsExcluded(b: Bitset, i: nat, r: nat)
    requires b.Bitset? && i / 32 < |b.words| && i < b.bits
    ensures Bitset(Marked(b.words, i), b.bits).Excludes(r) <==> b.Excludes(r) || r == i
    ensures r >= b.bits ==> !b.Excludes(r)
  {
    hide Bit, Marked;
    if r / 32 < |b.words| { MarkedRow(b.words, i, r); }
  }

  /** The row that a bit keeps; rows from `total` on are never kept. */
  lemma MarkedIsKept(words: seq<bv32>, total: nat, i: nat, r: nat)
    requires i / 32 < |words| && i < total
    ensures Kept(Marked(words, i), total, r) <==> Kept(words, total, r) || r == i
    ensures r >= total ==> !Kept(words, total, r)
  {
    hide Bit, Marked;
    if r / 32 < |words| { MarkedRow(words, i, r); }
  }

  /** Negating every word of a bitset negates every bit. */
  lemma ComplementWords(keep: seq<bv32>, exclude: seq<bv32>, i: nat)
    requires |keep| == |exclude| && i / 32 < |keep|
    requires exclude[i / 32] == !keep[i / 32]
    ensures Bit(exclude, i) <==> !Bit(keep, i)
  {
    hide Has;
    NegatedBit(keep[i / 32], exclude[i / 32], i % 32);
  }

  lemma NegatedBit(w: bv32, x: bv32, b: nat)
    requires b < 32 && x == !w
    ensures Has(x, b) <==> !Has(w, b)
  {
    Narrow(b);
    NegatedMask(w, b as bv6);
  }

  lemma NegatedMask(w: bv32, s: bv6)
    requires s < 32
    ensures (!w) & ((1 as bv32) << s) != 0 <==> w & ((1 as bv32) << s) == 0
  {}

  // ---- the index -------------------------------------------------------------------------

  class ShimIndex {
    var rows: seq<Vector>
    var dim: int
    var metric: Metric

    constructor (rows: seq<Vector>, dim: int, metric: Metric)
      ensures this.rows == rows && this.dim == dim && this.metric == metric
    {
      this.rows, this.dim, this.metric := rows, dim, metric;
    }
  }

  /** The C library's sort under a total order has one possible outcome. */
  method SortPairs(m: Metric, s: seq<Candidate>) returns (r: seq<Candidate>)
    requires DistinctIds(s)
    ensures StrictlyOrdered(m, r) && multiset(r) == multiset(s)
  {
    SortOrdered(m, s);
    r := Sort(m, s);
  }

  method ShimTopk(ix: ShimIndex?, query: Vector, dim: int, topK: nat, bitset: Bitset, dist: Dist, results: array<SearchResult>)
    requires bitset.Reaches(if ix == null then 0 else |ix.rows|) && results.Length == topK
    modifies results
    ensures results[..] ==
              if ix != null && dim == ix.dim then Answer(ix.rows, ix.metric, dist, query, topK, Excluding(bitset))
              else Padded(if ix == null then L2 else ix.metric, [], topK)
  {
    hide Sort, Padded, Before, StrictlyOrdered;
    var m := if ix == null then L2 else ix.metric;
    var n := if ix != null && dim == ix.dim then |ix.rows| else 0;
    var pairs: seq<Candidate> := [];
    for i := 0 to n
      invariant ix != null && dim == ix.dim ==> pairs == Pairs(ix.rows, m, dist, query, Excluding(bitset), i)
      invariant n == 0 ==> pairs == []
    {
      if bitset.Bitset? && i < bitset.bits && Bit(bitset.words, i) { continue; }
      pairs := pairs + [Candidate(i, dist(m, ix.rows[i], query))];
    }
    if ix != null && dim == ix.dim {
      PairsDistinct(ix.rows, m, dist, query, Excluding(bitset), n);
    }
    var sorted := SortPairs(m, pairs);
    SortOrdered(m, pairs);
    OrderedUnique(m, sorted, Sort(m, pairs));
    FillResults(m, sorted, results);
  }

  /** The first slots take the sorted pairs, the others the padding of the tail contract. */
  method FillResults(m: Metric, sorted: seq<Candidate>, results: array<SearchResult>)
    modifies results
    ensures results[..] == Padded(m, sorted, results.Length)
  {
    for j := 0 to results.Length
      invariant results[..j] == Padded(m, sorted, results.Length)[..j]
    {
      if j < |sorted| {
        results[j] := SearchResult(sorted[j].id, Finite(sorted[j].dist));
      } else {
        results[j] := SearchResult(PAD_ITEM_ID, PadDistance(m));
      }
    }
  }

  method SearchFiltered(ix: ShimIndex?, query: Vector, dim: int, topK: nat, bitset: Bitset, dist: Dist, results: array<SearchResult>)
    returns (status: int)
    requires bitset.Reaches(if ix == null then 0 else |ix.rows|) && results.Length == topK
    modifies results
    ensures status == if ix == null then 1 else if dim != ix.dim then 2 else if bitset.NoBitset? then 1 else 0
    ensures status == 0 ==> results[..] == Answer(ix.rows, ix.metric, dist, query, topK, Excluding(bitset))
    ensures status != 0 ==> results[..] == old(results[..])
  {
    if ix == null { return 1; }
    if dim != ix.dim { return 2; }
    if bitset.NoBitset? { return 1; }
    ShimTopk(ix, query, dim, topK, bitset, dist, results);
    return 0;
  }

  // ---- building from parts and extending ----------------------------------------------------

  function Concat(parts: seq<seq<Vector>>): seq<Vector> {
    if parts == [] then [] else Concat(parts[..|parts| - 1]) + parts[|parts| - 1]
  }

  /** Row j of part p keeps its place after the rows of the parts before it. */
  lemma {:induction false} PartInCorpus(parts: seq<seq<Vector>>, p: nat, j: nat)
    requires p < |parts| && j < |parts[p]|
    ensures var at := |Concat(parts[..p])| + j;
            at < |Concat(parts)| && Concat(parts)[at] == parts[p][j]
    decreases |parts|
  {
    var front := parts[..|parts| - 1];
    if p < |front| {
      PartInCorpus(front, p, j);
      assert front[..p] == parts[..p];
    }
  }

  /** A part with no rows is skipped; the corpus is the parts end to end. */
  method BuildMulti(parts: seq<seq<Vector>>, dim: int, metric: Metric, outOfMemory: bool) returns (ix: ShimIndex?)
    ensures ix == null <==> outOfMemory
    ensures ix != null ==> fresh(ix) && ix.rows == Concat(parts) && ix.dim == dim && ix.metric == metric
  {
    if outOfMemory { return null; }
    var rows: seq<Vector> := [];
    for p := 0 to |parts|
      invariant rows == Concat(parts[..p])
    {
      assert parts[..p + 1][..p] == parts[..p];
      if |parts[p]| == 0 {
        assert Concat(parts[..p + 1]) == rows;
        continue;
      }
      rows := rows + parts[p];
    }
    assert parts[..|parts|] == parts;
    ix := new ShimIndex(rows, dim, metric);
  }

  method Extend(ix: ShimIndex?, more: seq<Vector>, dim: int, outOfMemory: bool) returns (status: int)
    modifies ix
    ensures status == if ix == null || more == [] then 1 else if dim != old(ix.dim) then 2 else if outOfMemory then 1 else 0
    ensures ix != null ==> ix.dim == old(ix.dim) && ix.metric == old(ix.metric)
    ensures ix != null ==> ix.rows == if status == 0 then old(ix.rows) + more else old(ix.rows)
  {
    if ix == null || |more| == 0 { return 1; }
    if dim != ix.dim { return 2; }
    if outOfMemory { return 1; }
    ix.rows := ix.rows + more;
    return 0;
  }

  // ---- compaction ----------------------------------------------------------------------------

  /** The kept row numbers below n, ascending. */
  function KeptRows(words: seq<bv32>, total: nat, n: nat): (p: seq<nat>)
    ensures forall j | 0 <= j < |p| :: p[j] < n && Kept(words, total, p[j])
    ensures forall i, j | 0 <= i < j < |p| :: p[i] < p[j]
  {
    if n == 0 then [] else KeptRows(words, total, n - 1) + if Kept(words, total, n - 1) then [n - 1] else []
  }

  lemma {:induction false} EveryKeptRow(words: seq<bv32>, total: nat, n: nat, i: nat)
    requires i < n && Kept(words, total, i)
    ensures i in KeptRows(words, total, n)
  {
    hide Kept;
    if i < n - 1 {
      EveryKeptRow(words, total, n - 1, i);
    }
  }

  function Gather(rows: seq<Vector>, p: seq<nat>): (r: seq<Vector>)
    requires forall j | 0 <= j < |p| :: p[j] < |rows|
    ensures |r| == |p|
  {
    seq(|p|, j requires 0 <= j < |p| => rows[p[j]])
  }

  method Compact(ix: ShimIndex?, keep: seq<bv32>, total: nat, metric: Metric) returns (out: ShimIndex?)
    requires ix != null ==> Covers(keep, Min(total, |ix.rows|))
    ensures ix == null <==> out == null
    ensures ix != null ==> fresh(out) && out.dim == ix.dim && out.metric == metric
    ensures ix != null ==> out.rows == Gather(ix.rows, KeptRows(keep, total, |ix.rows|))
  {
    if ix == null { return null; }
    var kept := 0;
    for i := 0 to |ix.rows|
      invariant kept == |KeptRows(keep, total, i)|
    {
      if i < total && Bit(keep, i) { kept := kept + 1; }
    }
    var rows: seq<Vector> := [];
    for i := 0 to |ix.rows|
      invariant rows == Gather(ix.rows, KeptRows(keep, total, i))
    {
      if i < total && Bit(keep, i) { rows := rows + [ix.rows[i]]; }
    }
    assert |rows| == kept;
    out := new ShimIndex(rows, ix.dim, metric);
  }

  function RenumberOne(p: seq<nat>, c: Candidate): Candidate
    requires 0 <= c.id < |p|
  {
    Candidate(p[c.id], c.dist)
  }

  predicate IdsBelow(s: seq<Candidate>, n: nat) { forall i | 0 <= i < |s| :: 0 <= s[i].id < n }

  function Renumber(p: seq<nat>, s: seq<Candidate>): (r: seq<Candidate>)
    requires IdsBelow(s, |p|)
    ensures |r| == |s|
  {
    seq(|s|, i requires 0 <= i < |s| => RenumberOne(p, s[i]))
  }

  predicate Ascending(p: seq<nat>) { forall i, j | 0 <= i < j < |p| :: p[i] < p[j] }

  lemma {:induction false} InsertIds(m: Metric, s: seq<Candidate>, c: Candidate, n: nat)
    requires IdsBelow(s, n) && 0 <= c.id < n
    ensures IdsBelow(Insert(m, s, c), n) && |Insert(m, s, c)| == |s| + 1
  {
    if s != [] && !Before(m, c, s[0]) {
      InsertIds(m, s[1..], c, n);
    }
  }

  lemma {:induction false} SortIds(m: Metric, s: seq<Candidate>, n: nat)
    requires IdsBelow(s, n)
    ensures IdsBelow(Sort(m, s), n) && |Sort(m, s)| == |s|
  {
    if s != [] {
      SortIds(m, s[..|s| - 1], n);
      InsertIds(m, Sort(m, s[..|s| - 1]), s[|s| - 1], n);
    }
  }

  /** An increasing renumbering of ids does not disturb the comparator. */
  lemma RenumberedBefore(m: Metric, p: seq<nat>, a: Candidate, b: Candidate)
    requires Ascending(p) && 0 <= a.id < |p| && 0 <= b.id < |p|
    ensures Before(m, RenumberOne(p, a), RenumberOne(p, b)) == Before(m, a, b)
  {
    assert a.id < b.id ==> p[a.id] < p[b.id];
    assert b.id < a.id ==> p[b.id] < p[a.id];
  }

  lemma {:induction false} InsertRenumbered(m: Metric, p: seq<nat>, s: seq<Candidate>, c: Candidate)
    requires Ascending(p) && IdsBelow(s, |p|) && 0 <= c.id < |p|
    ensures IdsBelow(Insert(m, s, c), |p|)
    ensures Insert(m, Renumber(p, s), RenumberOne(p, c)) == Renumber(p, Insert(m, s, c))
  {
    hide Before, Ascending;
    InsertIds(m, s, c, |p|);
    if s != [] {
      RenumberedBefore(m, p, c, s[0]);
      if !Before(m, c, s[0]) {
        InsertRenumbered(m, p, s[1..], c);
        assert Renumber(p, s)[1..] == Renumber(p, s[1..]);
      }
    }
  }

  lemma {:induction false} SortRenumbered(m: Metric, p: seq<nat>, s: seq<Candidate>)
    requires Ascending(p) && IdsBelow(s, |p|)
    ensures IdsBelow(Sort(m, s), |p|)
    ensures Sort(m, Renumber(p, s)) == Renumber(p, Sort(m, s))
  {
    SortIds(m, s, |p|);
    if s != [] {
      var front, last := s[..|s| - 1], s[|s| - 1];
      SortRenumbered(m, p, front);
      assert Renumber(p, s)[..|s| - 1] == Renumber(p, front);
      InsertRenumbered(m, p, Sort(m, front), last);
    }
  }

  function NoneExcluded(): int -> bool { i => false }

  lemma {:induction false} AllPairs(rows: seq<Vector>, m: Metric, dist: Dist, query: Vector, n: nat)
    requires n <= |rows|
    ensures var s := Pairs(rows, m, dist, query, NoneExcluded(), n);
            |s| == n && forall i | 0 <= i < n :: s[i] == Candidate(i, dist(m, rows[i], query))
  {
    if n > 0 {
      AllPairs(rows, m, dist, query, n - 1);
    }
  }

  lemma {:induction false} FilteredPairs(rows: seq<Vector>, m: Metric, dist: Dist, query: Vector,
                                         excluded: int -> bool, keep: seq<bv32>, total: nat, n: nat)
    requires n <= |rows|
    requires forall i | 0 <= i < n :: excluded(i) <==> !Kept(keep, total, i)
    ensures var s, p := Pairs(rows, m, dist, query, excluded, n), KeptRows(keep, total, n);
            |s| == |p| && forall j | 0 <= j < |p| :: s[j] == Candidate(p[j], dist(m, rows[p[j]], query))
  {
    hide Kept;
    if n > 0 {
      FilteredPairs(rows, m, dist, query, excluded, keep, total, n - 1);
    }
  }

  /** Ids of a compacted index, read back as row numbers of the original. */
  function MapBack(p: seq<nat>, r: SearchResult): SearchResult {
    if 0 <= r.itemId < |p| then r.(itemId := p[r.itemId]) else r
  }

  /**
   Searching the compacted index and mapping ids back is the filtered search of the
   original, padded tail included, whenever the two bitsets agree on every row.
   */
  lemma CompactThenSearch(rows: seq<Vector>, m: Metric, dist: Dist, query: Vector, k: nat,
                          keep: seq<bv32>, total: nat, exclude: Bitset, j: nat)
    requires j < k
    requires forall i | 0 <= i < |rows| :: exclude.Excludes(i) <==> !Kept(keep, total, i)
    ensures var p := KeptRows(keep, total, |rows|);
            MapBack(p, Answer(Gather(rows, p), m, dist, query, k, NoneExcluded())[j])
              == Answer(rows, m, dist, query, k, Excluding(exclude))[j]
  {
    hide Pairs, Sort, KeptRows;
    var p := KeptRows(keep, total, |rows|);
    var small := Pairs(Gather(rows, p), m, dist, query, NoneExcluded(), |p|);
    CompactedPairs(rows, m, dist, query, keep, total, exclude);
    SortRenumbered(m, p, small);
    SortIds(m, small, |p|);
  }

  lemma CompactedPairs(rows: seq<Vector>, m: Metric, dist: Dist, query: Vector,
                       keep: seq<bv32>, total: nat, exclude: Bitset)
    requires forall i | 0 <= i < |rows| :: exclude.Excludes(i) <==> !Kept(keep, total, i)
    ensures var p := KeptRows(keep, total, |rows|);
            var small := Pairs(Gather(rows, p), m, dist, query, NoneExcluded(), |p|);
            && IdsBelow(small, |p|) && Ascending(p)
            && Renumber(p, small) == Pairs(rows, m, dist, query, Excluding(exclude), |rows|)
  {
    var p := KeptRows(keep, total, |rows|);
    AllPairs(Gather(rows, p), m, dist, query, |p|);
    FilteredPairs(rows, m, dist, query, Excluding(exclude), keep, total, |rows|);
  }

  /** The three calls one after the other: the compacted index answers in its own numbering what filtered search answers. */
  method CompactAndSearch(ix: ShimIndex, keep: seq<bv32>, total: nat, exclude: Bitset, query: Vector, k: nat, dist: Dist,
                          small: array<SearchResult>, full: array<SearchResult>)
    requires Covers(keep, Min(total, |ix.rows|)) && exclude.Bitset? && exclude.Reaches(|ix.rows|)
    requires forall i | 0 <= i < |ix.rows| :: exclude.Excludes(i) <==> !Kept(keep, total, i)
    requires small != full && small.Length == full.Length == k
    modifies small, full
    ensures forall j | 0 <= j < k :: MapBack(KeptRows(keep, total, |ix.rows|), small[j]) == full[j]
  {
    hide Pairs, Sort, KeptRows, Padded, MapBack, Bitset.Excludes, Kept;
    var compacted := Compact(ix, keep, total, ix.metric);
    ShimTopk(compacted, query, compacted.dim, k, NoBitset, dist, small);
    var status := SearchFiltered(ix, query, ix.dim, k, exclude, dist, full);
    NoBitsetExcludesNothing(compacted.rows, ix.metric, dist, query, |compacted.rows|);
    forall j | 0 <= j < k ensures MapBack(KeptRows(keep, total, |ix.rows|), small[j]) == full[j] {
      CompactThenSearch(ix.rows, ix.metric, dist, query, k, keep, total, exclude, j);
      assert small[j] == small[..][j] && full[j] == full[..][j];
    }
  }

  /** Bitsets that span the whole corpus and are word-wise complements agree on every row. */
  lemma ComplementAgrees(keep: seq<bv32>, total: nat, exclude: Bitset, n: nat, i: nat)
    requires exclude.Bitset? && Covers(keep, n)
    requires n <= total && n <= exclude.bits && i < n
    requires |keep| == |exclude.words| && forall w | 0 <= w < |keep| :: exclude.words[w] == !keep[w]
    ensures exclude.Excludes(i) <==> !Kept(keep, total, i)
  {
    ComplementWords(keep, exclude.words, i);
  }

  // ---- adjacency -----------------------------------------------------------------------------

  function Only(i: int): int -> bool { j => j == i }
  function AllBut(i: int): int -> bool { j => j != i }

  lemma {:induction false} FilterStrict(m: Metric, keep: int -> bool, s: seq<Candidate>)
    requires StrictlyOrdered(m, s)
    ensures StrictlyOrdered(m, Filter(keep, s))
  {
    if s != [] {
      var front, last := s[..|s| - 1], s[|s| - 1];
      FilterStrict(m, keep, front);
      var f := Filter(keep, front);
      forall i | 0 <= i < |f| ensures Before(m, f[i], last) {
        FilterCounts(keep, front, f[i]);
        assert f[i] in multiset(f);
        assert f[i] in multiset(front);
        var j :| 0 <= j < |front| && front[j] == f[i];
        assert s[j] == f[i];
      }
    }
  }

  /** Leaving candidates out before or after sorting is the same. */
  lemma SortFiltered(m: Metric, keep: int -> bool, s: seq<Candidate>)
    requires DistinctIds(s) && DistinctIds(Filter(keep, s))
    ensures Sort(m, Filter(keep, s)) == Filter(keep, Sort(m, s))
  {
    SortOrdered(m, s);
    SortOrdered(m, Filter(keep, s));
    FilterStrict(m, keep, Sort(m, s));
    FilterSubmultiset(keep, Sort(m, s), s);
    OrderedUnique(m, Sort(m, Filter(keep, s)), Filter(keep, Sort(m, s)));
  }

  lemma {:induction false} PairsWithout(rows: seq<Vector>, m: Metric, dist: Dist, query: Vector, i: int, n: nat)
    requires n <= |rows|
    ensures Pairs(rows, m, dist, query, Only(i), n)
         == Filter(AllBut(i), Pairs(rows, m, dist, query, NoneExcluded(), n))
    ensures |Pairs(rows, m, dist, query, Only(i), n)| == n - if 0 <= i < n then 1 else 0
  {
    if n > 0 {
      PairsWithout(rows, m, dist, query, i, n - 1);
      var s := Pairs(rows, m, dist, query, NoneExcluded(), n);
      assert s[..|s| - 1] == Pairs(rows, m, dist, query, NoneExcluded(), n - 1);
    }
  }

  /** All other rows in comparator order around row i. */
  function Others(rows: seq<Vector>, m: Metric, dist: Dist, i: nat): seq<Candidate>
    requires i < |rows|
  {
    Sort(m, Pairs(rows, m, dist, rows[i], Only(i), |rows|))
  }

  function Degree(n: nat): nat {
    if n > 32 then 32 else if n > 1 then n - 1 else 1
  }

  /** The stored neighbours of row i: a uint32 cast of each id. */
  ghost predicate IsAdjacencyRow(rows: seq<Vector>, m: Metric, dist: Dist, i: nat, row: seq<nat>)
    requires i < |rows|
  {
    && |row| == Degree(|rows|) <= |Others(rows, m, dist, i)|
    && forall w | 0 <= w < |row| :: row[w] == Others(rows, m, dist, i)[w].id
  }

  lemma {:induction false} AtMostOne(s: seq<Candidate>, i: int)
    requires DistinctIds(s)
    ensures |Filter(AllBut(i), s)| >= |s| - 1
    ensures (forall j | 0 <= j < |s| :: s[j].id != i) ==> Filter(AllBut(i), s) == s
  {
    if s != [] {
      AtMostOne(s[..|s| - 1], i);
    }
  }

  lemma SortedAround(rows: seq<Vector>, m: Metric, dist: Dist, i: nat)
    requires i < |rows|
    ensures var all := Sort(m, Pairs(rows, m, dist, rows[i], NoneExcluded(), |rows|));
            && |all| == |rows| == |Others(rows, m, dist, i)| + 1
            && DistinctIds(all)
            && Filter(AllBut(i), all) == Others(rows, m, dist, i)
  {
    var pool := Pairs(rows, m, dist, rows[i], NoneExcluded(), |rows|);
    PairsDistinct(rows, m, dist, rows[i], NoneExcluded(), |rows|);
    PairsDistinct(rows, m, dist, rows[i], Only(i), |rows|);
    hide Sort, Pairs, Before;
    AllPairs(rows, m, dist, rows[i], |rows|);
    PairsWithout(rows, m, dist, rows[i], i, |rows|);
    SortOrdered(m, pool);
    SortOrdered(m, Filter(AllBut(i), pool));
    SortFiltered(m, AllBut(i), pool);
    DistinctWithin(Sort(m, pool), pool);
  }

  /** Among the nearest d+1 rows at most one is the row itself, so d others remain, and they are the nearest d. */
  lemma NeighboursInPrefix(all: seq<Candidate>, i: int, d: nat)
    requires DistinctIds(all) && d + 1 <= |all|
    ensures d <= |Filter(AllBut(i), all[..d + 1])|
    ensures d <= |Filter(AllBut(i), all)|
    ensures Filter(AllBut(i), all[..d + 1])[..d] == Filter(AllBut(i), all)[..d]
  {
    AtMostOne(all[..d + 1], i);
    FilterConcat(AllBut(i), all[..d + 1], all[d + 1..]);
    assert all == all[..d + 1] + all[d + 1..];
  }

  const UINT32: nat := 0x1_0000_0000

  /** The ids of f as stored, cast to uint32. */
  function StoredIds(f: seq<Candidate>): (r: seq<nat>)
    ensures |r| == |f|
  {
    seq(|f|, j requires 0 <= j < |f| => f[j].id % UINT32)
  }

  function FirstHits(hits: seq<Candidate>, k: nat): seq<Candidate> {
    if |hits| <= k then hits else hits[..k]
  }

  /** Skip the row itself and padding until `degree` neighbours are found. */
  method SelectNeighbours(nbr: seq<SearchResult>, i: nat, degree: nat, ghost hits: seq<Candidate>, m: Metric)
    returns (row: seq<nat>)
    requires |nbr| == degree + 1 && nbr == Padded(m, hits, degree + 1)
    requires forall j | 0 <= j < |hits| :: hits[j].id >= 0
    ensures var f := Filter(AllBut(i), FirstHits(hits, degree + 1));
            row == StoredIds(f[..Min(degree, |f|)])
  {
    row := [];
    var j: nat := 0;
    ghost var cut := FirstHits(hits, degree + 1);
    assert cut[..0] == [];
    while j < degree + 1 && |row| < degree
      invariant j <= degree + 1 && |row| <= degree
      invariant row == StoredIds(Filter(AllBut(i), cut[..Min(j, |cut|)]))
      decreases degree + 1 - j
    {
      if j < |cut| {
        assert cut[..j + 1][..j] == cut[..j];
        assert nbr[j] == SearchResult(cut[j].id, Finite(cut[j].dist));
      }
      if !(nbr[j].itemId == i || nbr[j].itemId < 0) {
        row := row + [nbr[j].itemId % UINT32];
      }
      j := j + 1;
    }
    ghost var done := Min(j, |cut|);
    SelectionStops(cut, i, done, degree, |row|);
  }

  lemma SelectionStops(cut: seq<Candidate>, i: int, done: nat, degree: nat, found: nat)
    requires done <= |cut| && found == |Filter(AllBut(i), cut[..done])| <= degree
    requires found == degree || done == |cut|
    ensures var f := Filter(AllBut(i), cut);
            Filter(AllBut(i), cut[..done]) == f[..Min(degree, |f|)]
  {
    FilterConcat(AllBut(i), cut[..done], cut[done..]);
    assert cut == cut[..done] + cut[done..];
  }

  lemma OthersAre(rows: seq<Vector>, m: Metric, dist: Dist, i: nat)
    requires i < |rows|
    ensures var others := Others(rows, m, dist, i);
            && StrictlyOrdered(m, others) && DistinctIds(others)
            && multiset(others) == multiset(Pairs(rows, m, dist, rows[i], Only(i), |rows|))
            && forall w | 0 <= w < |others| :: 0 <= others[w].id < |rows| && others[w].id != i
  {
    var pool := Pairs(rows, m, dist, rows[i], Only(i), |rows|);
    var others := Others(rows, m, dist, i);
    PairsDistinct(rows, m, dist, rows[i], Only(i), |rows|);
    hide Sort, Pairs, Before;
    SortOrdered(m, pool);
    DistinctWithin(others, pool);
    SubmultisetMembers(others, pool);
    forall w | 0 <= w < |others| ensures 0 <= others[w].id < |rows| && others[w].id != i {
      assert others[w] in pool;
    }
  }

  lemma LonelyRow(all: seq<Candidate>, i: int)
    requires |all| == 1 && all[0].id == i
    ensures Filter(AllBut(i), FirstHits(all, 2)) == []
  {
    assert all[..0] == [];
  }

  lemma StoredRow(rows: seq<Vector>, m: Metric, dist: Dist, i: nat, row: seq<nat>)
    requires i < |rows| <= UINT32
    requires Degree(|rows|) <= |Others(rows, m, dist, i)|
    requires row == StoredIds(Others(rows, m, dist, i)[..Degree(|rows|)])
    ensures IsAdjacencyRow(rows, m, dist, i, row)
  {
    OthersAre(rows, m, dist, i);
    hide Others;
  }

  /** Row i of the adjacency, and how often the padding loop ran for it. */
  method AdjacencyRow(ix: ShimIndex, i: nat, degree: nat, dist: Dist) returns (row: seq<nat>, padded: nat)
    requires i < |ix.rows| && degree == Degree(|ix.rows|)
    ensures |row| == degree
    ensures 1 < |ix.rows| <= UINT32 ==> padded == 0 && IsAdjacencyRow(ix.rows, ix.metric, dist, i, row)
    ensures |ix.rows| == 1 ==> padded == 1 && row == [0]
  {
    hide Sort, Pairs, Padded, Filter, Before, IsAdjacencyRow, Others;
    var nbr := new SearchResult[degree + 1](_ => SearchResult(PAD_ITEM_ID, PositiveInfinity));
    ShimTopk(ix, ix.rows[i], ix.dim, degree + 1, NoBitset, dist, nbr);
    ghost var all := Sort(ix.metric, Pairs(ix.rows, ix.metric, dist, ix.rows[i], NoneExcluded(), |ix.rows|));
    NoBitsetExcludesNothing(ix.rows, ix.metric, dist, ix.rows[i], |ix.rows|);
    SortedAround(ix.rows, ix.metric, dist, i);
    IdsInRange(ix.rows, ix.metric, dist, ix.rows[i]);
    row := SelectNeighbours(nbr[..], i, degree, all, ix.metric);
    if 1 < |ix.rows| <= UINT32 {
      NeighboursInPrefix(all, i, degree);
      StoredRow(ix.rows, ix.metric, dist, i, row);
    } else if |ix.rows| == 1 {
      LonelyRow(all, i);
    }
    padded := 0;
    ghost var selected := row;
    while |row| < degree
      invariant |selected| <= |row| <= degree && padded == |row| - |selected|
      invariant row[..|selected|] == selected
      invariant forall l | |selected| <= l < |row| :: row[l] == i % UINT32
    {
      row := row + [i % UINT32];
      padded := padded + 1;
    }
    assert row[..|row|] == row;
  }

  lemma {:induction false} SamePairs(rows: seq<Vector>, m: Metric, dist: Dist, query: Vector, e: int -> bool, f: int -> bool, n: nat)
    requires n <= |rows| && forall i | 0 <= i < n :: e(i) == f(i)
    ensures Pairs(rows, m, dist, query, e, n) == Pairs(rows, m, dist, query, f, n)
  {
    if n > 0 {
      SamePairs(rows, m, dist, query, e, f, n - 1);
    }
  }

  lemma NoBitsetExcludesNothing(rows: seq<Vector>, m: Metric, dist: Dist, query: Vector, n: nat)
    requires n <= |rows|
    ensures Pairs(rows, m, dist, query, Excluding(NoBitset), n) == Pairs(rows, m, dist, query, NoneExcluded(), n)
  {
    SamePairs(rows, m, dist, query, Excluding(NoBitset), NoneExcluded(), n);
  }

  lemma IdsInRange(rows: seq<Vector>, m: Metric, dist: Dist, query: Vector)
    ensures IdsBelow(Sort(m, Pairs(rows, m, dist, query, NoneExcluded(), |rows|)), |rows|)
  {
    PairsDistinct(rows, m, dist, query, NoneExcluded(), |rows|);
    SortIds(m, Pairs(rows, m, dist, query, NoneExcluded(), |rows|), |rows|);
  }

  method ExtractAdjacency(ix: ShimIndex?, dist: Dist) returns (status: int, adj: seq<seq<nat>>, degree: nat, padded: nat)
    ensures status == if ix == null then -1 else 0
    ensures ix != null ==> |adj| == |ix.rows| && degree == Degree(|ix.rows|)
    ensures ix != null && 1 < |ix.rows| <= UINT32 ==>
              && padded == 0
              && forall i | 0 <= i < |adj| :: IsAdjacencyRow(ix.rows, ix.metric, dist, i, adj[i])
  {
    if ix == null { return -1, [], 0, 0; }
    status, adj, degree, padded := 0, [], Degree(|ix.rows|), 0;
    for i := 0 to |ix.rows|
      invariant |adj| == i
      invariant 1 < |ix.rows| <= UINT32 ==> padded == 0
      invariant 1 < |ix.rows| <= UINT32 ==>
                  forall l | 0 <= l < i :: IsAdjacencyRow(ix.rows, ix.metric, dist, l, adj[l])
    {
      var row, p := AdjacencyRow(ix, i, degree, dist);
      adj := adj + [row];
      padded := padded + p;
    }
  }

  /**
   What a stored row means: min(32, n-1) distinct rows other than i itself, nearest first,
   and no row left out is nearer.
   */
  lemma AdjacencyRowIsNearest(rows: seq<Vector>, m: Metric, dist: Dist, i: nat, row: seq<nat>)
    requires 1 < |rows| && i < |rows| && IsAdjacencyRow(rows, m, dist, i, row)
    ensures |row| == Min(32, |rows| - 1)
    ensures forall w | 0 <= w < |row| :: row[w] < |rows| && row[w] != i
    ensures forall v, w | 0 <= v < w < |row| :: row[v] != row[w]
    ensures IsTopK(m, seq(|row|, w requires 0 <= w < |row| => Candidate(row[w], Others(rows, m, dist, i)[w].dist)),
                   Pairs(rows, m, dist, rows[i], Only(i), |rows|), |row|)
  {
    hide Others, Pairs, Before;
    var others := Others(rows, m, dist, i);
    OthersAre(rows, m, dist, i);
    StrictIsOrdered(m, others);
    SortedPrefixIsTopK(m, others, Pairs(rows, m, dist, rows[i], Only(i), |rows|), |row|);
    assert others[..|row|] == seq(|row|, w requires 0 <= w < |row| => Candidate(row[w], others[w].dist));
  }
}
