/**
 The page image of an exported graph: sizes, item pointers, the tuples of one element, and
 the writer that places k element/neighbour pairs on every page.  A page is the small
 trusted object behind PageAddItem: items get consecutive offsets from 1, and each costs
 its aligned size and a four-byte line pointer out of 8160 bytes.
 */
module HnswPages {
  import opened HalfFloat

  const USABLE_BYTES: nat := 8192 - 24 - 8
  const ITEM_OVERHEAD: nat := 4
  const ELEM_HEADER_BYTES: nat := 72
  const VEC_HEADER_BYTES: nat := 8
  const NEIGH_HEADER_BYTES: nat := 4
  const ITEM_POINTER_BYTES: nat := 6
  const MAX_HEAPTIDS: nat := 10
  const INVALID_BLOCK: nat := 0xFFFF_FFFF

  // ---- sizes --------------------------------------------------------------------------

  function MaxAlign(n: nat): (a: nat)
    ensures n <= a < n + 8 && a % 8 == 0
  {
    (n + 7) / 8 * 8
  }

  function ElemTupleSize(dim: nat, bytesPerDim: nat): (size: nat)
    ensures 80 + dim * bytesPerDim <= size < 88 + dim * bytesPerDim && size % 8 == 0
  {
    MaxAlign(ELEM_HEADER_BYTES + VEC_HEADER_BYTES + dim * bytesPerDim)
  }

  function NeighTupleSize(level: nat, m: nat): (size: nat)
    ensures 4 + (level + 2) * m * 6 <= size < 12 + (level + 2) * m * 6 && size % 8 == 0
  {
    MaxAlign(NEIGH_HEADER_BYTES + (level + 2) * m * ITEM_POINTER_BYTES)
  }

  /** What elems_per_page charges for one pair: twice the line pointer per item. */
  function PairNeed(dim: nat, bytesPerDim: nat, m: nat, level: nat): nat {
    ElemTupleSize(dim, bytesPerDim) + 2 * ITEM_OVERHEAD + NeighTupleSize(level, m) + 2 * ITEM_OVERHEAD
  }

  /** What a pair really takes. */
  function PairCost(dim: nat, bytesPerDim: nat, m: nat, level: nat): nat {
    ElemTupleSize(dim, bytesPerDim) + ITEM_OVERHEAD + NeighTupleSize(level, m) + ITEM_OVERHEAD
  }

  /** Pairs per page; None is the error for a column without a fixed dimension. */
  datatype PairsPerPage = NoDimension | Pairs(n: nat)

  function ElemsPerPage(dim: int, bytesPerDim: nat, m: nat, level: nat): PairsPerPage {
    if dim <= 0 then NoDimension else Pairs(USABLE_BYTES / PairNeed(dim, bytesPerDim, m, level))
  }

  lemma NeighTupleSizeMonotone(a: nat, b: nat, m: nat)
    requires a <= b
    ensures NeighTupleSize(a, m) <= NeighTupleSize(b, m)
  {
    Products(a + 2, b + 2, m, m);
    hide MaxAlign;
    AlignMonotone(NEIGH_HEADER_BYTES + (a + 2) * m * ITEM_POINTER_BYTES, NEIGH_HEADER_BYTES + (b + 2) * m * ITEM_POINTER_BYTES);
  }

  lemma AlignMonotone(a: nat, b: nat)
    requires a <= b
    ensures MaxAlign(a) <= MaxAlign(b)
  {}

  /** The charged sizes bound the real ones: k pairs of at most that level fit a page. */
  lemma PairsFit(dim: nat, bytesPerDim: nat, m: nat, level: nat, k: nat)
    requires dim > 0 && k <= ElemsPerPage(dim, bytesPerDim, m, level).n
    ensures k * PairCost(dim, bytesPerDim, m, level) <= USABLE_BYTES
  {
    CostBelowNeed(dim, bytesPerDim, m, level);
    var need, cost := PairNeed(dim, bytesPerDim, m, level), PairCost(dim, bytesPerDim, m, level);
    hide PairNeed, PairCost, ElemTupleSize, NeighTupleSize;
    assert cost <= need by { CostBelowNeed(dim, bytesPerDim, m, level); }
    Products(k, USABLE_BYTES / need, cost, need);
    assert USABLE_BYTES / need * need <= USABLE_BYTES;
  }

  /** The count is the largest that fits at the charged sizes, so a packed page never has room for another charged pair. */
  lemma PairsPerPageExactly(dim: nat, bytesPerDim: nat, m: nat, level: nat, k: nat)
    requires dim > 0
    ensures k <= ElemsPerPage(dim, bytesPerDim, m, level).n
            <==> k * (ElemTupleSize(dim, bytesPerDim) + NeighTupleSize(level, m) + 16) <= 8160
  {
    var need := PairNeed(dim, bytesPerDim, m, level);
    assert need == ElemTupleSize(dim, bytesPerDim) + NeighTupleSize(level, m) + 16;
    hide PairNeed, ElemTupleSize, NeighTupleSize;
    DivisorFits(USABLE_BYTES, need, k);
  }

  lemma DivisorFits(a: nat, b: nat, k: nat)
    requires b >= 1
    ensures k <= a / b <==> k * b <= a
  {
    if k <= a / b {
      Products(k, a / b, b, b);
    } else {
      Products(a / b + 1, k, b, b);
    }
    assert a / b * b <= a < (a / b + 1) * b;
  }

  lemma CostBelowNeed(dim: nat, bytesPerDim: nat, m: nat, level: nat)
    ensures 0 < PairCost(dim, bytesPerDim, m, level) <= PairNeed(dim, bytesPerDim, m, level)
  {}

  lemma Products(a: nat, b: nat, c: nat, d: nat)
    requires a <= b && c <= d
    ensures a * c <= b * d
  {
    assert a * c <= a * d <= b * d;
  }

  // ---- item pointers ------------------------------------------------------------------

  datatype ItemPointer = ItemPointer(hi: nat, lo: nat, posid: nat)

  const INVALID_POINTER: ItemPointer := ItemPointer(0xFFFF, 0xFFFF, 0)

  function SetItemPtr(blkno: nat, offno: nat): ItemPointer {
    ItemPointer(blkno / 0x1_0000 % 0x1_0000, blkno % 0x1_0000, offno % 0x1_0000)
  }

  function BlockOf(p: ItemPointer): nat { p.hi * 0x1_0000 + p.lo }

  lemma PointerRoundTrip(blkno: nat, offno: nat)
    requires blkno < 0x1_0000_0000 && offno < 0x1_0000
    ensures BlockOf(SetItemPtr(blkno, offno)) == blkno && SetItemPtr(blkno, offno).posid == offno
  {}

  /** An encoded heap TID is block << 16 | offset. */
  function TidPointer(tid: nat): ItemPointer {
    SetItemPtr(tid / 0x1_0000 % 0x1_0000_0000, tid % 0x1_0000)
  }

  /** Block and offset of a heap TID come back from its stored pointer. */
  lemma TidRoundTrip(block: nat, offset: nat)
    requires block < 0x1_0000_0000 && offset < 0x1_0000
    ensures var p := TidPointer(block * 0x1_0000 + offset);
            p.hi * 0x1_0000 + p.lo == block && p.posid == offset && p.hi < 0x1_0000 && p.lo < 0x1_0000
  {
    var tid := block * 0x1_0000 + offset;
    assert tid / 0x1_0000 == block && tid % 0x1_0000 == offset;
    PointerRoundTrip(block, offset);
  }

  // ---- tuples -------------------------------------------------------------------------

  datatype ElemDesc = ElemDesc(level: nat, tid: nat, lv0: seq<int>, upper: seq<seq<int>>,
                               elemBlk: nat, elemOff: nat, neighBlk: nat, neighOff: nat)

  datatype Tuple =
    | ElementTuple(kind: nat, version: nat, deleted: nat, level: nat, heaptids: seq<ItemPointer>, neighbortid: ItemPointer,
                   unused: nat, vlLen: nat, dim: nat, vecUnused: nat, payload: seq<nat>)
    | NeighborTuple(kind: nat, version: nat, count: nat, slots: seq<ItemPointer>)

  const ELEMENT_KIND: nat := 1
  const NEIGHBOR_KIND: nat := 2

  /** The four-byte varlena length word of the stored vector: its size in bytes, shifted left by two. */
  function VarlenaWord(dim: nat, bytesPerDim: nat): nat {
    (VEC_HEADER_BYTES + dim * bytesPerDim) * 4 % 0x1_0000_0000
  }

  /** A reader that shifts the word right by two gets the size of the vector with its header. */
  lemma VarlenaSize(dim: nat, bytesPerDim: nat)
    requires 8 + dim * bytesPerDim < 0x4000_0000
    ensures VarlenaWord(dim, bytesPerDim) / 4 == 8 + dim * bytesPerDim && VarlenaWord(dim, bytesPerDim) % 4 == 0
  {
    Quadruple(8 + dim * bytesPerDim);
  }

  lemma Quadruple(n: nat)
    ensures n * 4 / 4 == n && n * 4 % 4 == 0
  {}

  type Floats = seq<Bits32>

  /** The stored coordinates: the float words themselves, or their halves. */
  ghost predicate IsPayload(payload: seq<nat>, vec: Floats, bytesPerDim: nat) {
    && |payload| == |vec|
    && forall j | 0 <= j < |vec| ::
         if bytesPerDim == 4 then payload[j] == vec[j]
         else payload[j] < 0x1_0000 && ConvertsTo(vec[j], payload[j])
  }

  ghost predicate IsElementTuple(t: Tuple, e: ElemDesc, vec: Floats, bytesPerDim: nat) {
    && t.ElementTuple? && t.kind == ELEMENT_KIND && t.version == 0 && t.deleted == 0
    && t.unused == 0 && t.vecUnused == 0 && t.vlLen == VarlenaWord(|vec|, bytesPerDim)
    && t.level == e.level % 0x100
    && |t.heaptids| == 10 && t.heaptids[0] == TidPointer(e.tid)
    && (forall j | 1 <= j < 10 :: t.heaptids[j] == INVALID_POINTER)
    && t.neighbortid == SetItemPtr(e.neighBlk, e.neighOff)
    && t.dim == |vec| % 0x1_0000
    && IsPayload(t.payload, vec, bytesPerDim)
  }

  /** The pointer stored for link s of a list: the target element's place, or invalid. */
  function LinkPointer(elems: seq<ElemDesc>, links: seq<int>, s: nat): ItemPointer {
    if s < |links| && 0 <= links[s] < |elems|
    then SetItemPtr(elems[links[s]].elemBlk, elems[links[s]].elemOff)
    else INVALID_POINTER
  }

  /** The first slot of level lc in the neighbour tuple of an element, as pgvector computes it. */
  function RunStart(level: nat, m: nat, lc: nat): nat
    requires lc <= level
  {
    (level - lc) * m
  }

  ghost predicate RunAt(slots: seq<ItemPointer>, start: nat, elems: seq<ElemDesc>, links: seq<int>, count: nat) {
    start + count <= |slots| && forall s | 0 <= s < count :: slots[start + s] == LinkPointer(elems, links, s)
  }

  /** m slots for every upper level at its start, 2m for level 0. */
  ghost predicate IsNeighborTuple(t: Tuple, e: ElemDesc, m: nat, elems: seq<ElemDesc>) {
    && t.NeighborTuple? && t.kind == NEIGHBOR_KIND && t.version == 0
    && t.count == (e.level + 2) * m % 0x1_0000
    && |t.slots| == (e.level + 2) * m
    && |e.upper| == e.level
    && (forall lc | 1 <= lc <= e.level :: RunAt(t.slots, RunStart(e.level, m, lc), elems, e.upper[lc - 1], m))
    && RunAt(t.slots, RunStart(e.level, m, 0), elems, e.lv0, 2 * m)
  }

  /** One run of `count` slots for one list of links. */
  method AppendSlots(slots: seq<ItemPointer>, elems: seq<ElemDesc>, links: seq<int>, count: nat)
    returns (r: seq<ItemPointer>)
    ensures |r| == |slots| + count && slots <= r
    ensures RunAt(r, |slots|, elems, links, count)
  {
    r := slots;
    for s := 0 to count
      invariant |r| == |slots| + s && slots <= r
      invariant forall t | 0 <= t < s :: r[|slots| + t] == LinkPointer(elems, links, t)
    {
      if s < |links| {
        var nb := links[s];
        if nb >= 0 && nb < |elems| {
          r := r + [SetItemPtr(elems[nb].elemBlk, elems[nb].elemOff)];
        } else {
          r := r + [INVALID_POINTER];
        }
      } else {
        r := r + [INVALID_POINTER];
      }
    }
  }

  /** Slots descend by level: the highest level first, level 0 with its 2m slots last. */
  method NeighborSlots(e: ElemDesc, m: nat, elems: seq<ElemDesc>) returns (slots: seq<ItemPointer>)
    requires |e.upper| == e.level
    ensures IsNeighborTuple(NeighborTuple(NEIGHBOR_KIND, 0, (e.level + 2) * m % 0x1_0000, slots), e, m, elems)
  {
    slots := [];
    var lv: nat := e.level;
    RunSteps(e.level, m, lv);
    while lv >= 1
      invariant lv <= e.level
      invariant |slots| == RunStart(e.level, m, lv)
      invariant forall lc | lv < lc <= e.level :: RunAt(slots, RunStart(e.level, m, lc), elems, e.upper[lc - 1], m)
    {
      hide RunStart, RunAt;
      var longer := AppendSlots(slots, elems, e.upper[lv - 1], m);
      RunsKept(e, m, elems, slots, longer, lv);
      RunSteps(e.level, m, lv);
      slots := longer;
      lv := lv - 1;
    }
    var all := AppendSlots(slots, elems, e.lv0, 2 * m);
    RunsKept(e, m, elems, slots, all, 0);
    RunSteps(e.level, m, 0);
    slots := all;
  }

  lemma RunsKept(e: ElemDesc, m: nat, elems: seq<ElemDesc>, slots: seq<ItemPointer>, longer: seq<ItemPointer>, lv: nat)
    requires |e.upper| == e.level && slots <= longer
    requires forall lc | lv < lc <= e.level :: RunAt(slots, RunStart(e.level, m, lc), elems, e.upper[lc - 1], m)
    ensures forall lc | lv < lc <= e.level :: RunAt(longer, RunStart(e.level, m, lc), elems, e.upper[lc - 1], m)
  {
    forall lc | lv < lc <= e.level
      ensures RunAt(longer, RunStart(e.level, m, lc), elems, e.upper[lc - 1], m)
    {
      assert RunAt(slots, RunStart(e.level, m, lc), elems, e.upper[lc - 1], m);
    }
  }

  lemma RunSteps(level: nat, m: nat, lv: nat)
    requires lv <= level
    ensures RunStart(level, m, level) == 0
    ensures lv >= 1 ==> RunStart(level, m, lv - 1) == RunStart(level, m, lv) + m
    ensures RunStart(level, m, 0) + 2 * m == (level + 2) * m
  {}

  // ---- one pair on an open page ----------------------------------------------------------

  class Page {
    var items: seq<Tuple>
    var used: nat

    constructor ()
      ensures items == [] && used == 0
    {
      items, used := [], 0;
    }

    /** PageAddItem with no offset asked for: the next offset, or 0 when the item does not fit. */
    method AddItem(t: Tuple, size: nat) returns (off: nat)
      modifies this
      ensures old(used) + ITEM_OVERHEAD + MaxAlign(size) <= USABLE_BYTES ==>
                && off == |old(items)| + 1
                && items == old(items) + [t] && used == old(used) + ITEM_OVERHEAD + MaxAlign(size)
      ensures old(used) + ITEM_OVERHEAD + MaxAlign(size) > USABLE_BYTES ==>
                off == 0 && items == old(items) && used == old(used)
    {
      if used + ITEM_OVERHEAD + MaxAlign(size) > USABLE_BYTES { return 0; }
      items := items + [t];
      used := used + ITEM_OVERHEAD + MaxAlign(size);
      return |items|;
    }
  }

  datatype WriteStatus = Written | DoesNotFit | LandedElsewhere

  method StorePayload(vec: Floats, bytesPerDim: nat) returns (payload: seq<nat>)
    ensures IsPayload(payload, vec, bytesPerDim)
  {
    if bytesPerDim == 4 { return vec; }
    payload := [];
    for j := 0 to |vec|
      invariant IsPayload(payload, vec[..j], bytesPerDim)
    {
      var h := FloatToHalf(vec[j]);
      payload := payload + [h];
    }
    assert vec[..|vec|] == vec;
  }

  method MakeElementTuple(e: ElemDesc, vec: Floats, bytesPerDim: nat) returns (t: Tuple)
    ensures IsElementTuple(t, e, vec, bytesPerDim)
  {
    var heaptids := [TidPointer(e.tid)];
    for j := 1 to MAX_HEAPTIDS
      invariant |heaptids| == j && heaptids[0] == TidPointer(e.tid)
      invariant forall i | 1 <= i < j :: heaptids[i] == INVALID_POINTER
    {
      heaptids := heaptids + [INVALID_POINTER];
    }
    var payload := StorePayload(vec, bytesPerDim);
    t := ElementTuple(ELEMENT_KIND, 0, 0, e.level % 0x100, heaptids, SetItemPtr(e.neighBlk, e.neighOff),
                      0, VarlenaWord(|vec|, bytesPerDim), |vec| % 0x1_0000, 0, payload);
  }

  /** The page has room for the pair, and the layout pass foresaw where it lands. */
  predicate Expected(items: seq<Tuple>, used: nat, e: ElemDesc, dim: nat, bytesPerDim: nat, m: nat) {
    && used + PairCost(dim, bytesPerDim, m, e.level) <= USABLE_BYTES
    && e.elemOff == |items| + 1 && e.neighOff == |items| + 2
  }

  ghost predicate PairAt(items: seq<Tuple>, pos: nat, e: ElemDesc, vec: Floats, bytesPerDim: nat, m: nat, elems: seq<ElemDesc>) {
    && pos + 1 < |items|
    && IsElementTuple(items[pos], e, vec, bytesPerDim)
    && IsNeighborTuple(items[pos + 1], e, m, elems)
  }

  /** How far a pair gets on a page: which of its items went in, and what is reported. */
  datatype PairOutcome = PairOutcome(status: WriteStatus, added: nat)

  function PairResult(count: nat, used: nat, e: ElemDesc, dim: nat, bytesPerDim: nat, m: nat): PairOutcome {
    var first := used + ITEM_OVERHEAD + ElemTupleSize(dim, bytesPerDim);
    if first > USABLE_BYTES then PairOutcome(DoesNotFit, 0)
    else if e.elemOff != count + 1 then PairOutcome(LandedElsewhere, 1)
    else if first + ITEM_OVERHEAD + NeighTupleSize(e.level, m) > USABLE_BYTES then PairOutcome(DoesNotFit, 1)
    else PairOutcome(if e.neighOff != count + 2 then LandedElsewhere else Written, 2)
  }

  /** On any page, foreseen or not, and then on one that the layout pass foresaw. */
  method WritePair(page: Page, e: ElemDesc, vec: Floats, bytesPerDim: nat, m: nat, elems: seq<ElemDesc>)
    returns (st: WriteStatus)
    requires |e.upper| == e.level
    modifies page
    ensures var o := PairResult(|old(page.items)|, old(page.used), e, |vec|, bytesPerDim, m);
      && st == o.status && |page.items| == |old(page.items)| + o.added && old(page.items) <= page.items
      && (o.added > 0 ==> IsElementTuple(page.items[|old(page.items)|], e, vec, bytesPerDim))
      && (o.added > 1 ==> IsNeighborTuple(page.items[|old(page.items)| + 1], e, m, elems))
    ensures Expected(old(page.items), old(page.used), e, |vec|, bytesPerDim, m) ==>
              && st == Written
              && |page.items| == |old(page.items)| + 2 && old(page.items) <= page.items
              && page.used == old(page.used) + PairCost(|vec|, bytesPerDim, m, e.level)
              && PairAt(page.items, |old(page.items)|, e, vec, bytesPerDim, m, elems)
  {
    var esize := ElemTupleSize(|vec|, bytesPerDim);
    var nsize := NeighTupleSize(e.level, m);
    var etup := MakeElementTuple(e, vec, bytesPerDim);
    var slots := NeighborSlots(e, m, elems);
    var ntup := NeighborTuple(NEIGHBOR_KIND, 0, (e.level + 2) * m % 0x1_0000, slots);
    hide IsElementTuple, IsNeighborTuple, NeighTupleSize, ElemTupleSize;
    AlignedSizes(|vec|, bytesPerDim, m, e.level);

    var eoff := page.AddItem(etup, esize);
    if eoff == 0 { return DoesNotFit; }
    if eoff != e.elemOff { return LandedElsewhere; }
    var noff := page.AddItem(ntup, nsize);
    if noff == 0 { return DoesNotFit; }
    if noff != e.neighOff { return LandedElsewhere; }
    return Written;
  }

  lemma AlignedSizes(dim: nat, bytesPerDim: nat, m: nat, level: nat)
    ensures MaxAlign(ElemTupleSize(dim, bytesPerDim)) == ElemTupleSize(dim, bytesPerDim)
    ensures MaxAlign(NeighTupleSize(level, m)) == NeighTupleSize(level, m)
  {
    Realign(ELEM_HEADER_BYTES + VEC_HEADER_BYTES + dim * bytesPerDim);
    Realign(NEIGH_HEADER_BYTES + (level + 2) * m * ITEM_POINTER_BYTES);
  }

  lemma Realign(n: nat)
    ensures MaxAlign(MaxAlign(n)) == MaxAlign(n)
  {}

  // ---- the relation and its blocks -----------------------------------------------------------

  datatype Meta = Meta(dimensions: nat, m: nat, efConstruction: nat,
                       entryBlkno: nat, entryOffno: nat, entryLevel: int, insertPage: nat)

  datatype Block = MetaBlock(meta: Meta) | DataBlock(items: seq<Tuple>)

  class Relation {
    var blocks: seq<Block>

    constructor ()
      ensures blocks == []
    {
      blocks := [];
    }

    method Truncate()
      modifies this
      ensures blocks == []
    {
      blocks := [];
    }

    /** ReadBuffer(P_NEW), filled and released. */
    method Append(b: Block)
      modifies this
      ensures blocks == old(blocks) + [b]
    {
      blocks := blocks + [b];
    }
  }

  /** The layout pass: k pairs per block from block 1, offsets 2s+1 and 2s+2. */
  ghost predicate LaidOut(elems: seq<ElemDesc>, k: nat)
    requires k >= 1
  {
    forall i | 0 <= i < |elems| ::
      && elems[i].elemBlk == elems[i].neighBlk == i / k + 1
      && elems[i].elemOff == 2 * (i % k) + 1 && elems[i].neighOff == 2 * (i % k) + 2
  }

  /** Element i's pair is where its descriptor says. */
  ghost predicate Stored(blocks: seq<Block>, elems: seq<ElemDesc>, vecs: seq<Floats>, bytesPerDim: nat, m: nat, i: nat)
    requires i < |elems| == |vecs|
  {
    var e := elems[i];
    && e.elemBlk == e.neighBlk < |blocks| && blocks[e.elemBlk].DataBlock?
    && 1 <= e.elemOff && e.neighOff == e.elemOff + 1
    && PairAt(blocks[e.elemBlk].items, e.elemOff - 1, e, vecs[i], bytesPerDim, m, elems)
  }

  /** Everything the writer is handed; `cap` bounds what any pair costs. */
  ghost predicate Writable(elems: seq<ElemDesc>, vecs: seq<Floats>, dim: nat, bytesPerDim: nat, m: nat, k: nat, cap: nat) {
    && k >= 1 && |vecs| == |elems| && LaidOut(elems, k) && k * cap <= USABLE_BYTES
    && forall i | 0 <= i < |elems| ::
         |vecs[i]| == dim && |elems[i].upper| == elems[i].level && PairCost(dim, bytesPerDim, m, elems[i].level) <= cap
  }

  /** One page: the pairs start, start+1, ... below end, at most k of them. */
  method FillPage(elems: seq<ElemDesc>, vecs: seq<Floats>, bytesPerDim: nat, m: nat, start: nat, end: nat,
                  ghost dim: nat, ghost k: nat, ghost cap: nat, ghost pg: nat)
    returns (st: WriteStatus, items: seq<Tuple>)
    requires Writable(elems, vecs, dim, bytesPerDim, m, k, cap)
    requires start == pg * k && start <= end <= start + k && end <= |elems|
    ensures st == Written && |items| == 2 * (end - start)
    ensures forall i | start <= i < end :: PairAt(items, 2 * (i - start), elems[i], vecs[i], bytesPerDim, m, elems)
  {
    var page := new Page();
    for i := start to end
      invariant |page.items| == 2 * (i - start) && page.used <= (i - start) * cap
      invariant forall j | start <= j < i :: PairAt(page.items, 2 * (j - start), elems[j], vecs[j], bytesPerDim, m, elems)
    {
      hide PairAt, PairCost;
      PageRoom(elems, vecs, dim, bytesPerDim, m, k, cap, pg, i, |page.items|, page.used);
      ghost var before := page.items;
      st := WritePair(page, elems[i], vecs[i], bytesPerDim, m, elems);
      if st != Written { return st, []; }
      PairsKept(before, page.items, elems, vecs, bytesPerDim, m, start, i);
      Times(i - start, cap);
    }
    return Written, page.items;
  }

  lemma Times(a: nat, c: nat)
    ensures (a + 1) * c == a * c + c
  {}

  lemma PairsKept(a: seq<Tuple>, b: seq<Tuple>, elems: seq<ElemDesc>, vecs: seq<Floats>, bytesPerDim: nat, m: nat, start: nat, end: nat)
    requires a <= b && start <= end <= |elems| == |vecs|
    requires forall j | start <= j < end :: PairAt(a, 2 * (j - start), elems[j], vecs[j], bytesPerDim, m, elems)
    ensures forall j | start <= j < end :: PairAt(b, 2 * (j - start), elems[j], vecs[j], bytesPerDim, m, elems)
  {}

  lemma PageRoom(elems: seq<ElemDesc>, vecs: seq<Floats>, dim: nat, bytesPerDim: nat, m: nat, k: nat, cap: nat,
                 pg: nat, i: nat, count: nat, used: nat)
    requires Writable(elems, vecs, dim, bytesPerDim, m, k, cap)
    requires pg * k <= i < pg * k + k && i < |elems|
    requires count == 2 * (i - pg * k) && used <= (i - pg * k) * cap
    ensures used + PairCost(dim, bytesPerDim, m, elems[i].level) <= USABLE_BYTES
    ensures elems[i].elemOff == count + 1 && elems[i].neighOff == count + 2 && elems[i].elemBlk == pg + 1
  {
    QuotientIs(i, k, pg, i - pg * k);
    Times(i - pg * k, cap);
    Products(i - pg * k + 1, k, cap, cap);
  }

  // ---- all pages --------------------------------------------------------------------------------

  lemma StoredKept(a: seq<Block>, b: seq<Block>, elems: seq<ElemDesc>, vecs: seq<Floats>, bytesPerDim: nat, m: nat, n: nat)
    requires a <= b && n <= |elems| == |vecs|
    requires forall i | 0 <= i < n :: Stored(a, elems, vecs, bytesPerDim, m, i)
    ensures forall i | 0 <= i < n :: Stored(b, elems, vecs, bytesPerDim, m, i)
  {
    forall i | 0 <= i < n ensures Stored(b, elems, vecs, bytesPerDim, m, i) {
      assert Stored(a, elems, vecs, bytesPerDim, m, i);
    }
  }

  /** A page filled from its first slot stores exactly the elements laid out on it. */
  lemma PageStores(blocks: seq<Block>, items: seq<Tuple>, elems: seq<ElemDesc>, vecs: seq<Floats>, bytesPerDim: nat,
                   m: nat, k: nat, pg: nat, start: nat, end: nat)
    requires k >= 1 && |elems| == |vecs| && LaidOut(elems, k)
    requires |blocks| == pg + 1 && start == pg * k && start <= end <= start + k && end <= |elems|
    requires forall i | start <= i < end :: PairAt(items, 2 * (i - start), elems[i], vecs[i], bytesPerDim, m, elems)
    requires forall i | 0 <= i < start :: Stored(blocks, elems, vecs, bytesPerDim, m, i)
    ensures forall i | 0 <= i < end :: Stored(blocks + [DataBlock(items)], elems, vecs, bytesPerDim, m, i)
  {
    StoredKept(blocks, blocks + [DataBlock(items)], elems, vecs, bytesPerDim, m, start);
    forall i | start <= i < end ensures Stored(blocks + [DataBlock(items)], elems, vecs, bytesPerDim, m, i) {
      QuotientIs(i, k, pg, i - start);
    }
  }

  /** Blocks that n elements take at k per block. */
  function DataBlocks(n: nat, k: nat): nat
    requires k >= 1
  {
    if n == 0 then 0 else (n - 1) / k + 1
  }

  lemma BlockCount(n: nat, k: nat, pg: nat)
    requires k >= 1 && n <= pg * k && (pg >= 1 ==> (pg - 1) * k < n)
    ensures pg == DataBlocks(n, k)
  {
    if pg >= 1 {
      Times(pg - 1, k);
      QuotientIs(n - 1, k, pg - 1, n - 1 - (pg - 1) * k);
    }
  }

  method WriteElemPagesPacked(rel: Relation, elems: seq<ElemDesc>, vecs: seq<Floats>, bytesPerDim: nat, m: nat, k: nat,
                              ghost dim: nat, ghost cap: nat)
    returns (st: WriteStatus)
    requires Writable(elems, vecs, dim, bytesPerDim, m, k, cap)
    requires |rel.blocks| == 1
    modifies rel
    ensures st == Written && |rel.blocks| == 1 + DataBlocks(|elems|, k) && rel.blocks[0] == old(rel.blocks[0])
    ensures forall i | 0 <= i < |elems| :: Stored(rel.blocks, elems, vecs, bytesPerDim, m, i)
  {
    var pageStart, n := 0, |elems|;
    ghost var pg: nat := 0;
    while pageStart < n
      invariant pageStart == pg * k && |rel.blocks| == pg + 1 && rel.blocks[0] == old(rel.blocks[0])
      invariant pg >= 1 ==> (pg - 1) * k < n
      invariant forall i | 0 <= i < pageStart && i < n :: Stored(rel.blocks, elems, vecs, bytesPerDim, m, i)
    {
      hide Stored, PairAt;
      var pageEnd := pageStart + k;
      if pageEnd > n { pageEnd := n; }
      var status, items := FillPage(elems, vecs, bytesPerDim, m, pageStart, pageEnd, dim, k, cap, pg);
      if status != Written { return status; }
      PageStores(rel.blocks, items, elems, vecs, bytesPerDim, m, k, pg, pageStart, pageEnd);
      rel.Append(DataBlock(items));
      Times(pg, k);
      pageStart, pg := pageStart + k, pg + 1;
    }
    BlockCount(n, k, pg);
    return Written;
  }

  /** One element per page, in order. */
  method WriteElemPages(rel: Relation, elems: seq<ElemDesc>, vecs: seq<Floats>, bytesPerDim: nat, m: nat,
                        ghost dim: nat, ghost cap: nat)
    returns (st: WriteStatus)
    requires Writable(elems, vecs, dim, bytesPerDim, m, 1, cap)
    requires |rel.blocks| == 1
    modifies rel
    ensures st == Written && |rel.blocks| == 1 + DataBlocks(|elems|, 1) && rel.blocks[0] == old(rel.blocks[0])
    ensures forall i | 0 <= i < |elems| :: Stored(rel.blocks, elems, vecs, bytesPerDim, m, i)
  {
    for i := 0 to |elems|
      invariant |rel.blocks| == i + 1 && rel.blocks[0] == old(rel.blocks[0])
      invariant forall j | 0 <= j < i :: Stored(rel.blocks, elems, vecs, bytesPerDim, m, j)
    {
      hide Stored, PairAt;
      var status, items := FillPage(elems, vecs, bytesPerDim, m, i, i + 1, dim, 1, cap, i);
      if status != Written { return status; }
      PageStores(rel.blocks, items, elems, vecs, bytesPerDim, m, 1, i, i, i + 1);
      rel.Append(DataBlock(items));
    }
    return Written;
  }

  // ---- what the stored pages decode to -----------------------------------------------------------

  /** The item a pointer names. */
  function Fetch(blocks: seq<Block>, p: ItemPointer): Tuple
    requires BlockOf(p) < |blocks| && blocks[BlockOf(p)].DataBlock?
    requires 1 <= p.posid <= |blocks[BlockOf(p)].items|
  {
    blocks[BlockOf(p)].items[p.posid - 1]
  }

  predicate Resolvable(blocks: seq<Block>, p: ItemPointer) {
    BlockOf(p) < |blocks| && blocks[BlockOf(p)].DataBlock? && 1 <= p.posid <= |blocks[BlockOf(p)].items|
  }

  /** Descriptors small enough for a 32-bit block number and a 16-bit offset. */
  lemma LayoutInRange(elems: seq<ElemDesc>, k: nat, i: nat)
    requires 1 <= k <= USABLE_BYTES && LaidOut(elems, k) && i < |elems| < 0x8000_0000
    ensures elems[i].elemBlk < 0x1_0000_0000 && elems[i].neighOff < 0x1_0000
  {
    QuotientAtMost(i, k);
  }

  lemma QuotientAtMost(i: nat, k: nat)
    requires k >= 1
    ensures i / k <= i
  {
    Products(1, k, i / k, i / k);
    assert i == i / k * k + i % k;
  }

  /** The pointer written for element j resolves, to j's own element tuple and to no other element's place. */
  lemma PointerResolves(blocks: seq<Block>, elems: seq<ElemDesc>, vecs: seq<Floats>, bytesPerDim: nat, m: nat, k: nat, j: nat)
    requires 1 <= k <= USABLE_BYTES && LaidOut(elems, k) && |elems| == |vecs| && j < |elems| < 0x8000_0000
    requires Stored(blocks, elems, vecs, bytesPerDim, m, j)
    ensures var p := SetItemPtr(elems[j].elemBlk, elems[j].elemOff);
            && Resolvable(blocks, p) && IsElementTuple(Fetch(blocks, p), elems[j], vecs[j], bytesPerDim)
            && forall i | 0 <= i < |elems| :: SetItemPtr(elems[i].elemBlk, elems[i].elemOff) == p ==> i == j
  {
    hide IsElementTuple, IsNeighborTuple;
    LayoutInRange(elems, k, j);
    PointerRoundTrip(elems[j].elemBlk, elems[j].elemOff);
    forall i | 0 <= i < |elems| && SetItemPtr(elems[i].elemBlk, elems[i].elemOff) == SetItemPtr(elems[j].elemBlk, elems[j].elemOff)
      ensures i == j
    {
      LayoutInRange(elems, k, i);
      PointerRoundTrip(elems[i].elemBlk, elems[i].elemOff);
      assert i == i / k * k + i % k && j == j / k * k + j % k;
    }
  }

  /** The neighbour tuple of element i is reached through its element tuple. */
  lemma NeighborsReached(blocks: seq<Block>, elems: seq<ElemDesc>, vecs: seq<Floats>, bytesPerDim: nat, m: nat, k: nat, i: nat)
    requires 1 <= k <= USABLE_BYTES && LaidOut(elems, k) && |elems| == |vecs| && i < |elems| < 0x8000_0000
    requires Stored(blocks, elems, vecs, bytesPerDim, m, i)
    ensures var p := SetItemPtr(elems[i].elemBlk, elems[i].elemOff);
            && Resolvable(blocks, p)
            && Fetch(blocks, p).ElementTuple? && Resolvable(blocks, Fetch(blocks, p).neighbortid)
            && IsNeighborTuple(Fetch(blocks, Fetch(blocks, p).neighbortid), elems[i], m, elems)
  {
    hide IsNeighborTuple, IsPayload;
    LayoutInRange(elems, k, i);
    PointerRoundTrip(elems[i].elemBlk, elems[i].elemOff);
    PointerRoundTrip(elems[i].neighBlk, elems[i].neighOff);
  }
}
