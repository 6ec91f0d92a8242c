/**
 Direct export of a neighbour graph into HNSW pages: levels, links, layout, metapage and
 page writes, and the theorem that the pages read back as the graph.
 */
module HnswExport {
  import opened HalfFloat
  import opened HnswPages
  import HnswLinks

  const MAX_LEVEL: nat := 16

  /** Slots at level 0: the largest even number up to the graph degree and to 64, or 2 below that. */
  function LevelZeroSlots(graphDegree: nat): (m0: nat)
    ensures 2 <= m0 <= 64 && m0 % 2 == 0
    ensures graphDegree < 2 ==> m0 == 2
    ensures 2 <= graphDegree <= 64 ==> m0 <= graphDegree < m0 + 2
    ensures graphDegree > 64 ==> m0 == 64
  {
    var clamped := if graphDegree < 64 then graphDegree else 64;
    var even := if clamped % 2 != 0 then clamped - 1 else clamped;
    if even < 2 then 2 else even
  }

  /** (int) of a uint32. */
  function ToInt(u: nat): int { if u < 0x8000_0000 then u else u - 0x1_0000_0000 }

  function LevelZeroLinks(row: seq<nat>, m0: nat): seq<int> {
    var count := if |row| < m0 then |row| else m0;
    seq(count, j requires 0 <= j < count => ToInt(row[j]))
  }

  // ---- the level pass -----------------------------------------------------------------------

  /** Levels are capped; the entry element is the first of the highest level. */
  method AssignLevels(hierarchy: bool, raw: seq<nat>) returns (levels: seq<nat>, maxLevel: nat, entry: nat)
    ensures |levels| == |raw| && maxLevel <= 16
    ensures forall i | 0 <= i < |raw| ::
              levels[i] == (if !hierarchy then 0 else if raw[i] > 16 then 16 else raw[i]) && levels[i] <= maxLevel
    ensures |raw| > 0 ==> entry < |raw| && levels[entry] == maxLevel
    ensures |raw| == 0 ==> maxLevel == 0
    ensures forall i | 0 <= i < entry && i < |raw| :: levels[i] < maxLevel
  {
    levels, maxLevel, entry := [], 0, 0;
    for i := 0 to |raw|
      invariant |levels| == i && maxLevel <= MAX_LEVEL
      invariant forall j | 0 <= j < i ::
                  levels[j] == (if !hierarchy then 0 else if raw[j] > MAX_LEVEL then MAX_LEVEL else raw[j]) && levels[j] <= maxLevel
      invariant if i == 0 then entry == 0 && maxLevel == 0 else entry < i && levels[entry] == maxLevel
      invariant forall j | 0 <= j < entry && j < i :: levels[j] < maxLevel
    {
      var level := if !hierarchy then 0 else if raw[i] > MAX_LEVEL then MAX_LEVEL else raw[i];
      levels := levels + [level];
      if level > maxLevel {
        maxLevel, entry := level, i;
      }
    }
  }

  // ---- links and layout -----------------------------------------------------------------------

  /** The links stored for element i at level lc. */
  function LinksOf(d: HnswLinks.NodeDist, levels: seq<nat>, row: seq<nat>, i: nat, m0: nat, lc: nat): seq<int> {
    if lc == 0 then LevelZeroLinks(row, m0) else HnswLinks.LinksAt(d, levels, row, i, m0 / 2, lc)
  }

  ghost predicate Described(e: ElemDesc, d: HnswLinks.NodeDist, levels: seq<nat>, row: seq<nat>, tid: nat, i: nat, m0: nat)
    requires i < |levels|
  {
    && e.level == levels[i] && e.tid == tid && |e.upper| == e.level
    && e.lv0 == LinksOf(d, levels, row, i, m0, 0)
    && forall lc | 1 <= lc <= e.level :: e.upper[lc - 1] == LinksOf(d, levels, row, i, m0, lc)
  }

  method BuildLinks(d: HnswLinks.NodeDist, levels: seq<nat>, adj: seq<seq<nat>>, tids: seq<nat>, m0: nat, elems: array<ElemDesc>)
    requires |levels| == |adj| == |tids| == elems.Length
    modifies elems
    ensures forall i | 0 <= i < elems.Length :: Described(elems[i], d, levels, adj[i], tids[i], i, m0)
  {
    for i := 0 to elems.Length
      invariant forall j | 0 <= j < i :: Described(elems[j], d, levels, adj[j], tids[j], j, m0)
    {
      var upper: seq<seq<int>> := [];
      if levels[i] > 0 {
        upper := HnswLinks.UpperLinks(d, levels, adj[i], i, m0 / 2);
      }
      elems[i] := ElemDesc(levels[i], tids[i], LevelZeroLinks(adj[i], m0), upper, 0, 0, 0, 0);
    }
  }

  method LayOut(elems: array<ElemDesc>, k: nat)
    requires k >= 1
    modifies elems
    ensures LaidOut(elems[..], k)
    ensures forall i | 0 <= i < elems.Length ::
              elems[i].(elemBlk := 0, elemOff := 0, neighBlk := 0, neighOff := 0)
              == old(elems[i]).(elemBlk := 0, elemOff := 0, neighBlk := 0, neighOff := 0)
  {
    for i := 0 to elems.Length
      invariant forall j | 0 <= j < i ::
                  && elems[j].elemBlk == elems[j].neighBlk == j / k + 1
                  && elems[j].elemOff == 2 * (j % k) + 1 && elems[j].neighOff == 2 * (j % k) + 2
      invariant forall j | 0 <= j < elems.Length ::
                  elems[j].(elemBlk := 0, elemOff := 0, neighBlk := 0, neighOff := 0)
                  == old(elems[j]).(elemBlk := 0, elemOff := 0, neighBlk := 0, neighOff := 0)
    {
      var pageIdx, slot := i / k, i % k;
      elems[i] := elems[i].(elemBlk := pageIdx + 1, elemOff := 2 * slot + 1, neighBlk := pageIdx + 1, neighOff := 2 * slot + 2);
    }
  }

  function MakeMeta(elems: seq<ElemDesc>, dim: nat, m0: nat, entry: nat, maxLevel: nat): Meta
    requires |elems| > 0 ==> entry < |elems|
  {
    if |elems| > 0 then
      Meta(dim % 0x1_0000, m0 / 2, m0 * 2, elems[entry].elemBlk, elems[entry].elemOff, maxLevel, elems[|elems| - 1].elemBlk)
    else
      Meta(dim % 0x1_0000, m0 / 2, m0 * 2, INVALID_BLOCK, 0, -1, 0)
  }

  // ---- the whole export --------------------------------------------------------------------------

  datatype ExportStatus = Exported | NoFixedDimension | PageTooSmall | InternalError

  ghost predicate ValidGraph(adj: seq<seq<nat>>, vecs: seq<Floats>, tids: seq<nat>, raw: seq<nat>, dim: nat, bytesPerDim: nat) {
    && |adj| == |vecs| == |tids| == |raw| < 0x8000_0000
    && (forall i | 0 <= i < |vecs| :: |vecs[i]| == dim)
    && (bytesPerDim == 2 || bytesPerDim == 4)
  }

  /** The finished relation: every pair stored, and a metapage naming a top element and the last block. */
  ghost predicate Complete(blocks: seq<Block>, elems: seq<ElemDesc>, vecs: seq<Floats>, dim: nat, bytesPerDim: nat, m0: nat, k: nat)
    requires |elems| == |vecs| && 1 <= k
  {
    && LaidOut(elems, k)
    && (forall i | 0 <= i < |elems| :: Stored(blocks, elems, vecs, bytesPerDim, m0 / 2, i))
    && |blocks| == 1 + DataBlocks(|elems|, k) && blocks[0].MetaBlock?
    && var meta := blocks[0].meta;
       && meta.dimensions == dim && meta.m == m0 / 2 && meta.efConstruction == m0 * 2
       && (if |elems| == 0 then meta.entryBlkno == INVALID_BLOCK && meta.entryLevel == -1 && meta.entryOffno == 0 && meta.insertPage == 0
           else
             && meta.insertPage == |blocks| - 1
             && (forall i | 0 <= i < |elems| :: elems[i].level <= meta.entryLevel)
             && exists e :: 0 <= e < |elems| && elems[e].level == meta.entryLevel
                         && meta.entryBlkno == elems[e].elemBlk && meta.entryOffno == elems[e].elemOff)
  }

  /** The fit check bounds the cost of every pair by a k-th of the page. */
  lemma FitBoundsAll(elems: seq<ElemDesc>, dim: nat, bytesPerDim: nat, m: nat, maxLevel: nat, k: nat)
    requires dim > 0 && k <= ElemsPerPage(dim, bytesPerDim, m, maxLevel).n
    requires forall i | 0 <= i < |elems| :: elems[i].level <= maxLevel
    ensures k * PairCost(dim, bytesPerDim, m, maxLevel) <= USABLE_BYTES
    ensures forall i | 0 <= i < |elems| :: PairCost(dim, bytesPerDim, m, elems[i].level) <= PairCost(dim, bytesPerDim, m, maxLevel)
  {
    PairsFit(dim, bytesPerDim, m, maxLevel, k);
    hide NeighTupleSize, ElemTupleSize, ElemsPerPage;
    forall i | 0 <= i < |elems|
      ensures PairCost(dim, bytesPerDim, m, elems[i].level) <= PairCost(dim, bytesPerDim, m, maxLevel)
    {
      NeighTupleSizeMonotone(elems[i].level, maxLevel, m);
    }
  }

  /** A dimension that passes the fit check is not cut by its 16-bit fields, and k is a page's worth at most. */
  lemma FitMeansSmall(dim: nat, bytesPerDim: nat, m: nat, level: nat)
    requires dim > 0 && bytesPerDim >= 2 && ElemsPerPage(dim, bytesPerDim, m, level).n >= 1
    ensures dim < 0x1_0000 && ElemsPerPage(dim, bytesPerDim, m, level).n <= USABLE_BYTES
  {
    var need := PairNeed(dim, bytesPerDim, m, level);
    assert need >= dim * bytesPerDim;
    Products(2, bytesPerDim, dim, dim);
    hide PairNeed;
    DivisorAtMost(USABLE_BYTES, need);
  }

  lemma DivisorAtMost(a: nat, need: nat)
    requires need >= 1 && a / need >= 1
    ensures need <= a && a / need <= a
  {
    assert a / need * need <= a;
    Products(1, a / need, need, need);
    Products(a / need, a / need, 1, need);
  }

  /** An exported relation together with the graph it was made from. */
  ghost predicate ExportOf(blocks: seq<Block>, elems: seq<ElemDesc>, d: HnswLinks.NodeDist, levels: seq<nat>,
                           adj: seq<seq<nat>>, tids: seq<nat>, vecs: seq<Floats>, dim: nat, bytesPerDim: nat, m0: nat, k: nat)
  {
    && |elems| == |levels| == |adj| == |tids| == |vecs| < 0x8000_0000
    && 1 <= k <= USABLE_BYTES && m0 >= 2 && m0 % 2 == 0
    && Complete(blocks, elems, vecs, dim, bytesPerDim, m0, k)
    && forall i | 0 <= i < |elems| ::
         Described(elems[i], d, levels, adj[i], tids[i], i, m0) && levels[i] <= MAX_LEVEL
  }

  /** Truncate, metapage, then the element pages in the order the layout pass assumed. */
  method WriteRelation(rel: Relation, elems: seq<ElemDesc>, vecs: seq<Floats>, dim: nat, bytesPerDim: nat, m0: nat,
                       entry: nat, maxLevel: nat, packK: nat, ghost cap: nat)
    returns (ws: WriteStatus)
    requires dim < 0x1_0000 && Writable(elems, vecs, dim, bytesPerDim, m0 / 2, packK, cap)
    requires |elems| > 0 ==> entry < |elems| && elems[entry].level == maxLevel
    requires forall i | 0 <= i < |elems| :: elems[i].level <= maxLevel
    modifies rel
    ensures ws == Written && Complete(rel.blocks, elems, vecs, dim, bytesPerDim, m0, packK)
  {
    hide Stored, PairCost, Writable;
    WritableMeans(elems, vecs, dim, bytesPerDim, m0 / 2, packK, cap);
    rel.Truncate();
    rel.Append(MetaBlock(MakeMeta(elems, dim, m0, entry, maxLevel)));
    if packK > 1 {
      ws := WriteElemPagesPacked(rel, elems, vecs, bytesPerDim, m0 / 2, packK, dim, cap);
    } else {
      ws := WriteElemPages(rel, elems, vecs, bytesPerDim, m0 / 2, dim, cap);
    }
  }

  lemma WritableMeans(elems: seq<ElemDesc>, vecs: seq<Floats>, dim: nat, bytesPerDim: nat, m: nat, k: nat, cap: nat)
    requires Writable(elems, vecs, dim, bytesPerDim, m, k, cap)
    ensures k >= 1 && |vecs| == |elems| && LaidOut(elems, k)
  {}

  /** The levels an export assigns, and the highest of them. */
  ghost predicate IsTop(levels: seq<nat>, raw: seq<nat>, hierarchy: bool, top: nat) {
    && |levels| == |raw|
    && (forall i | 0 <= i < |raw| :: levels[i] == if !hierarchy then 0 else if raw[i] > 16 then 16 else raw[i])
    && (forall i | 0 <= i < |levels| :: levels[i] <= top)
    && (if levels == [] then top == 0 else exists i :: 0 <= i < |levels| && levels[i] == top)
  }

  /**
   The export of a graph: refused without a dimension, refused when one pair at the highest
   level does not fit on a page, and completed in every other case.
   */
  method Export(rel: Relation, hierarchy: bool, adj: seq<seq<nat>>, graphDegree: nat, vecs: seq<Floats>, tids: seq<nat>,
                raw: seq<nat>, dim: int, bytesPerDim: nat, d: HnswLinks.NodeDist)
    returns (st: ExportStatus, elems: seq<ElemDesc>, levels: seq<nat>, m0: nat, packK: int, top: nat)
    requires dim > 0 ==> ValidGraph(adj, vecs, tids, raw, dim, bytesPerDim)
    modifies rel
    ensures st != InternalError
    ensures st == NoFixedDimension <==> dim <= 0
    ensures st != Exported ==> rel.blocks == old(rel.blocks)
    ensures dim > 0 ==>
              && IsTop(levels, raw, hierarchy, top)
              && (st == PageTooSmall <==> ElemsPerPage(dim, bytesPerDim, LevelZeroSlots(graphDegree) / 2, top).n < 1)
    ensures st == Exported ==>
              && packK >= 1 && m0 == LevelZeroSlots(graphDegree)
              && ExportOf(rel.blocks, elems, d, levels, adj, tids, vecs, dim, bytesPerDim, m0, packK)
  {
    hide Described, Stored, PairCost, PairNeed;
    elems, levels, packK, top := [], [], 0, 0;
    m0 := LevelZeroSlots(graphDegree);
    if dim <= 0 { st := NoFixedDimension; return; }
    var m := m0 / 2;
    var entry, maxLevel;
    levels, maxLevel, entry := AssignLevels(hierarchy, raw);
    top := maxLevel;
    var descs := new ElemDesc[|adj|](_ => ElemDesc(0, 0, [], [], 0, 0, 0, 0));
    BuildLinks(d, levels, adj, tids, m0, descs);

    if ElemsPerPage(dim, bytesPerDim, m, maxLevel).n < 1 { st := PageTooSmall; return; }
    packK := if hierarchy then 1 else ElemsPerPage(dim, bytesPerDim, m, 0).n;
    FitMeansSmall(dim, bytesPerDim, m, maxLevel);
    assert !hierarchy ==> maxLevel == 0 by { AllZero(levels, maxLevel, hierarchy, |raw|); }
    if packK < 1 { st := InternalError; return; }
    ghost var linked := descs[..];
    LayOut(descs, packK);
    elems := descs[..];
    LayoutKeepsLinks(linked, elems, d, levels, adj, tids, m0);

    FitBoundsAll(elems, dim, bytesPerDim, m, maxLevel, packK);
    var ws := WriteRelation(rel, elems, vecs, dim, bytesPerDim, m0, entry, maxLevel, packK,
                            PairCost(dim, bytesPerDim, m, maxLevel));
    if ws != Written { st := InternalError; return; }
    st := Exported;
  }

  lemma AllZero(levels: seq<nat>, maxLevel: nat, hierarchy: bool, n: nat)
    requires |levels| == n && maxLevel <= MAX_LEVEL
    requires !hierarchy ==> forall i | 0 <= i < n :: levels[i] == 0
    requires n > 0 ==> exists i :: 0 <= i < n && levels[i] == maxLevel
    ensures !hierarchy && n > 0 ==> maxLevel == 0
  {}

  lemma LayoutKeepsLinks(linked: seq<ElemDesc>, elems: seq<ElemDesc>, d: HnswLinks.NodeDist, levels: seq<nat>,
                         adj: seq<seq<nat>>, tids: seq<nat>, m0: nat)
    requires |linked| == |elems| == |levels| == |adj| == |tids|
    requires forall i | 0 <= i < |elems| :: Described(linked[i], d, levels, adj[i], tids[i], i, m0)
    requires forall i | 0 <= i < |elems| ::
               elems[i].(elemBlk := 0, elemOff := 0, neighBlk := 0, neighOff := 0)
               == linked[i].(elemBlk := 0, elemOff := 0, neighBlk := 0, neighOff := 0)
    ensures forall i | 0 <= i < |elems| :: Described(elems[i], d, levels, adj[i], tids[i], i, m0)
    ensures forall i | 0 <= i < |elems| :: elems[i].level == levels[i] && |elems[i].upper| == elems[i].level
  {
    forall i | 0 <= i < |elems|
      ensures Described(elems[i], d, levels, adj[i], tids[i], i, m0)
      ensures elems[i].level == levels[i] && |elems[i].upper| == elems[i].level
    {
      var a, b := elems[i], linked[i];
      assert Described(b, d, levels, adj[i], tids[i], i, m0);
      assert a.level == a.(elemBlk := 0, elemOff := 0, neighBlk := 0, neighOff := 0).level == b.level;
      assert a.tid == a.(elemBlk := 0, elemOff := 0, neighBlk := 0, neighOff := 0).tid == b.tid;
      assert a.lv0 == a.(elemBlk := 0, elemOff := 0, neighBlk := 0, neighOff := 0).lv0 == b.lv0;
      assert a.upper == a.(elemBlk := 0, elemOff := 0, neighBlk := 0, neighOff := 0).upper == b.upper;
    }
  }

  // ---- reading the pages back --------------------------------------------------------------------

  /** How many slots pgvector reads at level lc. */
  function SlotsAt(m0: nat, lc: nat): nat { if lc == 0 then m0 else m0 / 2 }

  /** Slot s of level lc, found from an element's pointer the way a reader does. */
  ghost predicate ReadsSlot(blocks: seq<Block>, p: ItemPointer, m: nat, lc: nat, s: nat, slot: ItemPointer) {
    && Resolvable(blocks, p)
    && var et := Fetch(blocks, p);
       && et.ElementTuple? && lc <= et.level && Resolvable(blocks, et.neighbortid)
       && var nt := Fetch(blocks, et.neighbortid);
          && nt.NeighborTuple? && nt.count == |nt.slots|
          && RunStart(et.level, m, lc) + s < |nt.slots|
          && nt.slots[RunStart(et.level, m, lc) + s] == slot
  }

  lemma SlotReads(blocks: seq<Block>, elems: seq<ElemDesc>, d: HnswLinks.NodeDist, levels: seq<nat>, adj: seq<seq<nat>>,
                  tids: seq<nat>, vecs: seq<Floats>, dim: nat, bytesPerDim: nat, m0: nat, k: nat, i: nat, lc: nat, s: nat)
    requires ExportOf(blocks, elems, d, levels, adj, tids, vecs, dim, bytesPerDim, m0, k)
    requires i < |elems| && lc <= levels[i] && s < SlotsAt(m0, lc) && m0 <= 64
    ensures ReadsSlot(blocks, SetItemPtr(elems[i].elemBlk, elems[i].elemOff), m0 / 2, lc, s,
                      LinkPointer(elems, LinksOf(d, levels, adj[i], i, m0, lc), s))
  {
    hide Stored, Described, IsNeighborTuple, IsElementTuple, RunStart, LinksOf, LinkPointer, Complete;
    StoredAt(blocks, elems, vecs, dim, bytesPerDim, m0, k, i);
    NeighborsReached(blocks, elems, vecs, bytesPerDim, m0 / 2, k, i);
    ElementReads(blocks, elems, d, levels, adj, tids, vecs, dim, bytesPerDim, m0, k, i);
    var et := Fetch(blocks, SetItemPtr(elems[i].elemBlk, elems[i].elemOff));
    RunReads(Fetch(blocks, et.neighbortid), elems[i], elems, d, levels, adj[i], tids[i], i, m0, lc, s);
  }

  lemma StoredAt(blocks: seq<Block>, elems: seq<ElemDesc>, vecs: seq<Floats>, dim: nat, bytesPerDim: nat, m0: nat, k: nat, i: nat)
    requires 1 <= k && |elems| == |vecs| && i < |elems| && Complete(blocks, elems, vecs, dim, bytesPerDim, m0, k)
    ensures LaidOut(elems, k) && Stored(blocks, elems, vecs, bytesPerDim, m0 / 2, i)
  {}

  /** The run of slots for level lc in a neighbour tuple holds that level's links. */
  lemma RunReads(nt: Tuple, e: ElemDesc, elems: seq<ElemDesc>, d: HnswLinks.NodeDist, levels: seq<nat>, row: seq<nat>,
                 tid: nat, i: nat, m0: nat, lc: nat, s: nat)
    requires i < |levels| && Described(e, d, levels, row, tid, i, m0) && IsNeighborTuple(nt, e, m0 / 2, elems)
    requires levels[i] <= MAX_LEVEL && lc <= levels[i] && s < SlotsAt(m0, lc) && m0 <= 64 && m0 % 2 == 0
    ensures nt.NeighborTuple? && nt.count == |nt.slots| && RunStart(levels[i], m0 / 2, lc) + s < |nt.slots|
    ensures nt.slots[RunStart(levels[i], m0 / 2, lc) + s] == LinkPointer(elems, LinksOf(d, levels, row, i, m0, lc), s)
  {
    hide LinksOf, LinkPointer, RunStart;
    CountSmall(levels[i], m0 / 2);
    if lc == 0 {
      assert RunAt(nt.slots, RunStart(e.level, m0 / 2, 0), elems, e.lv0, m0);
    } else {
      assert RunAt(nt.slots, RunStart(e.level, m0 / 2, lc), elems, e.upper[lc - 1], m0 / 2);
    }
  }

  lemma CountSmall(level: nat, m: nat)
    requires level <= MAX_LEVEL && m <= 32
    ensures (level + 2) * m < 0x1_0000
  {
    Products(level + 2, 18, m, 32);
  }

  /**
   The pages decode to the graph: link s at level lc, when it names an element, is a
   pointer that resolves to exactly that element's tuple, and the element reaches level lc;
   every other slot is invalid.
   */
  lemma LinkDecodes(blocks: seq<Block>, elems: seq<ElemDesc>, d: HnswLinks.NodeDist, levels: seq<nat>, adj: seq<seq<nat>>,
                    tids: seq<nat>, vecs: seq<Floats>, dim: nat, bytesPerDim: nat, m0: nat, k: nat, i: nat, lc: nat, s: nat)
    returns (slot: ItemPointer)
    requires ExportOf(blocks, elems, d, levels, adj, tids, vecs, dim, bytesPerDim, m0, k)
    requires i < |elems| && lc <= levels[i] && s < SlotsAt(m0, lc) && m0 <= 64
    ensures ReadsSlot(blocks, SetItemPtr(elems[i].elemBlk, elems[i].elemOff), m0 / 2, lc, s, slot)
    ensures var links := LinksOf(d, levels, adj[i], i, m0, lc);
            if s < |links| && 0 <= links[s] < |elems| then
              && levels[links[s]] >= lc
              && slot == SetItemPtr(elems[links[s]].elemBlk, elems[links[s]].elemOff) && Resolvable(blocks, slot)
              && IsElementTuple(Fetch(blocks, slot), elems[links[s]], vecs[links[s]], bytesPerDim)
              && Fetch(blocks, slot).heaptids[0] == TidPointer(tids[links[s]])
              && forall j | 0 <= j < |elems| :: SetItemPtr(elems[j].elemBlk, elems[j].elemOff) == slot ==> j == links[s]
            else slot == INVALID_POINTER
  {
    var links := LinksOf(d, levels, adj[i], i, m0, lc);
    slot := LinkPointer(elems, links, s);
    SlotReads(blocks, elems, d, levels, adj, tids, vecs, dim, bytesPerDim, m0, k, i, lc, s);
    hide ReadsSlot, IsPayload;
    if s < |links| && 0 <= links[s] < |elems| {
      assert Stored(blocks, elems, vecs, bytesPerDim, m0 / 2, links[s]);
      PointerResolves(blocks, elems, vecs, bytesPerDim, m0 / 2, k, links[s]);
      assert Described(elems[links[s]], d, levels, adj[links[s]], tids[links[s]], links[s], m0);
      if lc > 0 { HnswLinks.LinksReachLevel(d, levels, adj[i], i, m0 / 2, lc); }
    }
  }

  /**
   Level 0 is the adjacency itself: slot s of element i points at the tuple of row adj[i][s]
   when the row has such an entry and it names an element, and is invalid otherwise.
   */
  lemma LevelZeroDecodes(blocks: seq<Block>, elems: seq<ElemDesc>, d: HnswLinks.NodeDist, levels: seq<nat>, adj: seq<seq<nat>>,
                         tids: seq<nat>, vecs: seq<Floats>, dim: nat, bytesPerDim: nat, m0: nat, k: nat, i: nat, s: nat)
    returns (slot: ItemPointer)
    requires ExportOf(blocks, elems, d, levels, adj, tids, vecs, dim, bytesPerDim, m0, k)
    requires i < |elems| && s < m0 <= 64
    requires forall j | 0 <= j < |adj[i]| :: adj[i][j] < 0x1_0000_0000
    ensures ReadsSlot(blocks, SetItemPtr(elems[i].elemBlk, elems[i].elemOff), m0 / 2, 0, s, slot)
    ensures if s < |adj[i]| && adj[i][s] < |elems| then
              var j := adj[i][s];
              && slot == SetItemPtr(elems[j].elemBlk, elems[j].elemOff) && Resolvable(blocks, slot)
              && IsElementTuple(Fetch(blocks, slot), elems[j], vecs[j], bytesPerDim)
              && Fetch(blocks, slot).heaptids[0] == TidPointer(tids[j])
            else slot == INVALID_POINTER
  {
    hide ReadsSlot, Complete, Described, IsElementTuple;
    slot := LinkDecodes(blocks, elems, d, levels, adj, tids, vecs, dim, bytesPerDim, m0, k, i, 0, s);
  }

  /** A search can start: the metapage's entry pointer resolves to an element of the highest level. */
  lemma EntryDecodes(blocks: seq<Block>, elems: seq<ElemDesc>, d: HnswLinks.NodeDist, levels: seq<nat>, adj: seq<seq<nat>>,
                     tids: seq<nat>, vecs: seq<Floats>, dim: nat, bytesPerDim: nat, m0: nat, k: nat)
    requires ExportOf(blocks, elems, d, levels, adj, tids, vecs, dim, bytesPerDim, m0, k)
    requires |elems| > 0
    ensures blocks != [] && blocks[0].MetaBlock?
    ensures var meta := blocks[0].meta;
            var p := SetItemPtr(meta.entryBlkno, meta.entryOffno);
            && Resolvable(blocks, p) && Fetch(blocks, p).ElementTuple?
            && Fetch(blocks, p).level == meta.entryLevel
            && forall i | 0 <= i < |levels| :: levels[i] <= meta.entryLevel
  {
    hide Stored, Described, IsElementTuple;
    var meta := blocks[0].meta;
    var e :| 0 <= e < |elems| && elems[e].level == meta.entryLevel
             && meta.entryBlkno == elems[e].elemBlk && meta.entryOffno == elems[e].elemOff;
    ElementReads(blocks, elems, d, levels, adj, tids, vecs, dim, bytesPerDim, m0, k, e);
    forall i | 0 <= i < |levels| ensures levels[i] <= meta.entryLevel {
      DescribedLevel(elems[i], d, levels, adj[i], tids[i], i, m0);
    }
    DescribedLevel(elems[e], d, levels, adj[e], tids[e], e, m0);
  }

  lemma DescribedLevel(e: ElemDesc, d: HnswLinks.NodeDist, levels: seq<nat>, row: seq<nat>, tid: nat, i: nat, m0: nat)
    requires i < |levels| && Described(e, d, levels, row, tid, i, m0)
    ensures e.level == levels[i]
  {}

  lemma ElementReads(blocks: seq<Block>, elems: seq<ElemDesc>, d: HnswLinks.NodeDist, levels: seq<nat>, adj: seq<seq<nat>>,
                     tids: seq<nat>, vecs: seq<Floats>, dim: nat, bytesPerDim: nat, m0: nat, k: nat, i: nat)
    requires ExportOf(blocks, elems, d, levels, adj, tids, vecs, dim, bytesPerDim, m0, k) && i < |elems|
    ensures var p := SetItemPtr(elems[i].elemBlk, elems[i].elemOff);
            Resolvable(blocks, p) && Fetch(blocks, p).ElementTuple? && Fetch(blocks, p).level == levels[i]
  {
    hide IsPayload, LinksOf;
    assert Stored(blocks, elems, vecs, bytesPerDim, m0 / 2, i);
    PointerResolves(blocks, elems, vecs, bytesPerDim, m0 / 2, k, i);
    assert Described(elems[i], d, levels, adj[i], tids[i], i, m0);
  }
}
