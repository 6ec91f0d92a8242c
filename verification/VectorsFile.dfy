/**
 The .vectors sidecar: a header and a row-major matrix of float32 words, written from one
 buffer or from partitions, and read back.  The matrix is the bytes of its words.
 */
module VectorsFile {
  import opened Bytes
  import opened Codec
  import Crc32

  const MAGIC: nat := 0x5343_4556
  const VERSION: nat := 1
  const HEADER_BYTES: nat := 40
  const MAX_VECS: nat := 1_000_000_000
  const MAX_DIM: nat := 65535

  datatype Header = Header(nVecs: int, dim: nat, metric: nat, bodyCrc: bv32, baseTidsCrc: nat)

  /** The header struct as it lies in memory: 36 bytes of fields, padded to its 8-byte alignment. */
  function HeaderBytes(h: Header): (b: seq<Byte>)
    ensures |b| == HEADER_BYTES
  {
    Le32(MAGIC) + Le32(VERSION) + Le64(h.nVecs) + Le32(h.dim) + Le32(h.metric)
      + PutRegister(h.bodyCrc) + Le32(h.baseTidsCrc) + Le32(0) + Le32(0)
  }

  /** The letters VECS and version 1. */
  lemma FileStarts(h: Header)
    ensures HeaderBytes(h)[..8] == ['V' as nat, 'E' as nat, 'C' as nat, 'S' as nat, 1, 0, 0, 0]
  {
    FourLetters(0x56, 0x45, 0x43, 0x53);
    FourLetters(1, 0, 0, 0);
    hide Le32;
  }

  /** The bytes of a sidecar file for n rows of the given dimension. */
  function FileBytes(n: int, dim: nat, metric: nat, baseTidsCrc: nat, body: seq<Byte>): seq<Byte> {
    HeaderBytes(Header(n, dim, metric, Crc32.Crc(body), baseTidsCrc)) + body
  }

  method Write(f: Stream, t: Crc32.Table, n: nat, dim: nat, metric: nat, baseTidsCrc: nat, vecs: seq<Byte>)
    returns (status: int)
    requires t.Valid() && |vecs| == n * dim * 4
    modifies f, t, t.entries
    ensures t.Valid()
    ensures f.bytes == old(f.bytes) + Fitting(FileBytes(n, dim, metric, baseTidsCrc, vecs), old(f.room))
    ensures status == if |FileBytes(n, dim, metric, baseTidsCrc, vecs)| <= old(f.room) then 0 else -1
  {
    hide HeaderBytes, Fitting, Word;
    var crc := t.Checksum(vecs);
    var header := HeaderBytes(Header(n, dim, metric, crc, baseTidsCrc));
    var ok := f.WriteBoth(header, vecs);
    return if ok then 0 else -1;
  }

  // ---- from partitions ---------------------------------------------------------------------

  datatype Part = Part(n: int, vecs: seq<Byte>)

  ghost predicate ValidParts(parts: seq<Part>, dim: nat) {
    forall p | p in parts :: p.n > 0 ==> |p.vecs| == p.n * dim * 4
  }

  /** Rows and bytes of the parts that hold any. */
  function TotalRows(parts: seq<Part>): nat {
    if parts == [] then 0
    else TotalRows(parts[..|parts| - 1]) + if parts[|parts| - 1].n > 0 then parts[|parts| - 1].n else 0
  }

  function Concatenated(parts: seq<Part>): seq<Byte> {
    if parts == [] then []
    else Concatenated(parts[..|parts| - 1]) + if parts[|parts| - 1].n > 0 then parts[|parts| - 1].vecs else []
  }

  lemma {:induction false} ConcatenatedSize(parts: seq<Part>, dim: nat)
    requires ValidParts(parts, dim)
    ensures |Concatenated(parts)| == TotalRows(parts) * dim * 4
  {
    if parts != [] {
      ConcatenatedSize(parts[..|parts| - 1], dim);
      var last := parts[|parts| - 1];
      assert last in parts;
      if last.n > 0 {
        AddRows(TotalRows(parts[..|parts| - 1]), last.n, dim);
      }
    }
  }

  lemma AddRows(a: nat, b: nat, dim: nat)
    ensures (a + b) * dim * 4 == a * dim * 4 + b * dim * 4
  {}

  /** Every byte of every part with rows is in the file, after the header and the bytes of the parts before it. */
  lemma PartInFile(parts: seq<Part>, n: int, dim: nat, metric: nat, baseTidsCrc: nat, p: nat, j: nat)
    requires p < |parts| && parts[p].n > 0 && j < |parts[p].vecs|
    ensures var file, at := FileBytes(n, dim, metric, baseTidsCrc, Concatenated(parts)), 40 + |Concatenated(parts[..p])| + j;
            at < |file| && file[at] == parts[p].vecs[j]
  {
    hide Crc32.Crc, HeaderBytes;
    PartAt(parts, p, j);
  }

  lemma {:induction false} PartAt(parts: seq<Part>, p: nat, j: nat)
    requires p < |parts| && parts[p].n > 0 && j < |parts[p].vecs|
    ensures var at := |Concatenated(parts[..p])| + j;
            at < |Concatenated(parts)| && Concatenated(parts)[at] == parts[p].vecs[j]
    decreases |parts|
  {
    var front := parts[..|parts| - 1];
    if p < |front| {
      PartAt(front, p, j);
      assert front[..p] == parts[..p];
    }
  }

  /** Where row r of a matrix starts. */
  function RowStart(r: nat, dim: nat): nat { r * dim * 4 }

  /** A part that holds the rows [from, to) of a matrix, or claims no rows when there are none. */
  ghost predicate HoldsRows(part: Part, from: nat, to: nat, vecs: seq<Byte>, dim: nat) {
    && from <= to && RowStart(from, dim) <= RowStart(to, dim) <= |vecs|
    && if from == to then part.n <= 0
       else part.n == to - from && part.vecs == vecs[RowStart(from, dim)..RowStart(to, dim)]
  }

  /** A matrix cut at ascending row numbers, empty parts included. */
  ghost predicate IsSplit(parts: seq<Part>, cuts: seq<nat>, vecs: seq<Byte>, dim: nat) {
    && |cuts| == |parts| + 1 && cuts[0] == 0
    && forall p: nat | p < |parts| :: HoldsRows(parts[p], cuts[p], Next(cuts, p), vecs, dim)
  }

  function Next(cuts: seq<nat>, p: nat): nat
    requires p + 1 < |cuts|
  {
    cuts[p + 1]
  }

  lemma {:induction false} SplitConcatenates(parts: seq<Part>, cuts: seq<nat>, vecs: seq<Byte>, dim: nat, i: nat)
    requires IsSplit(parts, cuts, vecs, dim) && i <= |parts|
    ensures TotalRows(parts[..i]) == cuts[i]
    ensures RowStart(cuts[i], dim) <= |vecs| && Concatenated(parts[..i]) == vecs[..RowStart(cuts[i], dim)]
  {
    if i == 0 {
      assert RowStart(0, dim) == 0;
    } else {
      hide RowStart, IsSplit, HoldsRows;
      SplitConcatenates(parts, cuts, vecs, dim, i - 1);
      PartHolds(parts, cuts, vecs, dim, i - 1);
      OneMorePart(parts, i - 1);
      Adjoining(vecs, RowStart(cuts[i - 1], dim), RowStart(cuts[i], dim));
    }
  }

  lemma PartHolds(parts: seq<Part>, cuts: seq<nat>, vecs: seq<Byte>, dim: nat, p: nat)
    requires IsSplit(parts, cuts, vecs, dim) && p < |parts|
    ensures |cuts| == |parts| + 1
    ensures cuts[p] <= cuts[p + 1] && RowStart(cuts[p], dim) <= RowStart(cuts[p + 1], dim) <= |vecs|
    ensures cuts[p] == cuts[p + 1] ==> parts[p].n <= 0
    ensures cuts[p] < cuts[p + 1] ==>
              parts[p].n == cuts[p + 1] - cuts[p] && parts[p].vecs == vecs[RowStart(cuts[p], dim)..RowStart(cuts[p + 1], dim)]
  {
    hide RowStart;
    assert HoldsRows(parts[p], cuts[p], Next(cuts, p), vecs, dim);
  }

  lemma OneMorePart(parts: seq<Part>, i: nat)
    requires i < |parts|
    ensures Concatenated(parts[..i + 1]) == Concatenated(parts[..i]) + if parts[i].n > 0 then parts[i].vecs else []
    ensures TotalRows(parts[..i + 1]) == TotalRows(parts[..i]) + if parts[i].n > 0 then parts[i].n else 0
  {
    assert parts[..i + 1][..i] == parts[..i];
  }

  lemma Adjoining(s: seq<Byte>, i: nat, j: nat)
    requires i <= j <= |s|
    ensures s[..j] == s[..i] + s[i..j]
  {}

  /** However a matrix of n rows is split, the partitioned writer's file is the plain writer's, and its parts are valid. */
  lemma SplitWritesTheMatrix(parts: seq<Part>, cuts: seq<nat>, n: nat, dim: nat, metric: nat, baseTidsCrc: nat, vecs: seq<Byte>)
    requires |vecs| == n * dim * 4 && IsSplit(parts, cuts, vecs, dim) && cuts[|parts|] == n
    ensures ValidParts(parts, dim)
    ensures FileBytes(TotalRows(parts), dim, metric, baseTidsCrc, Concatenated(parts)) == FileBytes(n, dim, metric, baseTidsCrc, vecs)
  {
    hide FileBytes, IsSplit;
    SplitConcatenates(parts, cuts, vecs, dim, |parts|);
    assert parts[..|parts|] == parts && vecs[..RowStart(n, dim)] == vecs;
    forall p | 0 <= p < |parts| && parts[p].n > 0 ensures |parts[p].vecs| == parts[p].n * dim * 4 {
      PartHolds(parts, cuts, vecs, dim, p);
      AddRows(cuts[p], cuts[p + 1] - cuts[p], dim);
    }
  }

  /** First pass: the CRC accumulated part by part, and the row count. */
  method SumParts(t: Crc32.Table, parts: seq<Part>) returns (crc: bv32, total: nat)
    requires t.Valid()
    modifies t, t.entries
    ensures t.Valid() && crc == Crc32.Crc(Concatenated(parts)) && total == TotalRows(parts)
  {
    hide Crc32.Serial, Word;
    total := 0;
    var s := t.StreamBegin();
    Crc32.SerialOfNothing(0xFFFF_FFFF);
    for i := 0 to |parts|
      invariant t.Valid() && total == TotalRows(parts[..i])
      invariant s == Crc32.Serial(0xFFFF_FFFF, Concatenated(parts[..i]))
    {
      assert parts[..i + 1][..i] == parts[..i];
      if parts[i].n <= 0 {
        assert Concatenated(parts[..i + 1]) == Concatenated(parts[..i]);
        continue;
      }
      Crc32.SerialConcat(0xFFFF_FFFF, Concatenated(parts[..i]), parts[i].vecs);
      s := t.StreamUpdate(s, parts[i].vecs);
      total := total + parts[i].n;
    }
    assert parts[..|parts|] == parts;
    crc := t.StreamEnd(s);
  }

  /** Second pass: the bodies in order, until one does not fit. */
  method WriteBodies(f: Stream, parts: seq<Part>) returns (ok: bool)
    modifies f
    ensures f.bytes == old(f.bytes) + Fitting(Concatenated(parts), old(f.room))
    ensures ok <==> |Concatenated(parts)| <= old(f.room)
  {
    ghost var room := f.room;
    for i := 0 to |parts|
      invariant |Concatenated(parts[..i])| <= room && f.room == room - |Concatenated(parts[..i])|
      invariant f.bytes == old(f.bytes) + Concatenated(parts[..i])
    {
      assert parts[..i + 1][..i] == parts[..i];
      if parts[i].n <= 0 {
        assert Concatenated(parts[..i + 1]) == Concatenated(parts[..i]);
        continue;
      }
      FittingSplit(Concatenated(parts[..i]), parts[i].vecs, room);
      ok := f.Write(parts[i].vecs);
      if !ok {
        CutShort(parts, i + 1, room);
        return false;
      }
    }
    assert parts[..|parts|] == parts;
    return true;
  }

  lemma {:induction false} PartsPrefix(parts: seq<Part>, i: nat)
    requires i <= |parts|
    ensures Concatenated(parts[..i]) <= Concatenated(parts)
    decreases |parts|
  {
    if i < |parts| {
      PartsPrefix(parts[..|parts| - 1], i);
      assert parts[..|parts| - 1][..i] == parts[..i];
    } else {
      assert parts[..i] == parts;
    }
  }

  /** Once a prefix of the parts overflows the room, the later parts do not matter. */
  lemma CutShort(parts: seq<Part>, i: nat, room: nat)
    requires i <= |parts| && |Concatenated(parts[..i])| > room
    ensures Fitting(Concatenated(parts), room) == Fitting(Concatenated(parts[..i]), room)
    ensures |Concatenated(parts)| > room
  {
    PartsPrefix(parts, i);
  }

  /**
   The partitioned writer: the same contract as Write on the concatenation, so the two put
   the same bytes on the stream, short writes included.
   */
  method WriteMulti(f: Stream, t: Crc32.Table, parts: seq<Part>, dim: nat, metric: nat, baseTidsCrc: nat)
    returns (status: int)
    requires t.Valid() && ValidParts(parts, dim)
    modifies f, t, t.entries
    ensures t.Valid()
    ensures f.bytes == old(f.bytes)
              + Fitting(FileBytes(TotalRows(parts), dim, metric, baseTidsCrc, Concatenated(parts)), old(f.room))
    ensures status == if |FileBytes(TotalRows(parts), dim, metric, baseTidsCrc, Concatenated(parts))| <= old(f.room) then 0 else -1
  {
    hide HeaderBytes, Fitting, Concatenated, TotalRows, ValidParts, Word, Crc32.Crc;
    var crc, total := SumParts(t, parts);
    var header := HeaderBytes(Header(total, dim, metric, crc, baseTidsCrc));
    AppendSplit(f.bytes, header, Concatenated(parts), f.room);
    var ok := f.Write(header);
    if !ok { return -1; }
    ok := WriteBodies(f, parts);
    return if ok then 0 else -1;
  }

  // ---- reading back ------------------------------------------------------------------------

  datatype ReadResult = Rejected | Read(header: Header, body: seq<Byte>)

  /** The checks in the order they are made, on the bytes of a file. */
  method ReadFile(t: Crc32.Table, file: seq<Byte>) returns (r: ReadResult)
    requires t.Valid()
    modifies t, t.entries
    ensures t.Valid() && r == Parse(file)
  {
    hide Word, LowByte;
    if |file| < HEADER_BYTES { return Rejected; }
    if Get32(file, 0) != MAGIC { return Rejected; }
    if Get32(file, 4) != VERSION { return Rejected; }
    var n := Get64(file, 8);
    if n <= 0 || n > MAX_VECS { return Rejected; }
    var dim := Get32(file, 16);
    if dim == 0 || dim > MAX_DIM { return Rejected; }
    if Get32(file, 32) != 0 { return Rejected; }
    if |file| < HEADER_BYTES + n * dim * 4 { return Rejected; }
    var body := file[HEADER_BYTES..HEADER_BYTES + n * dim * 4];
    var crc := t.Checksum(body);
    if crc != GetRegister(file[24..28]) { return Rejected; }
    return Read(Header(n, dim, Get32(file, 20), crc, Get32(file, 28)), body);
  }

  /** What reading a file means. */
  function Parse(file: seq<Byte>): ReadResult {
    if |file| < HEADER_BYTES || Get32(file, 0) != MAGIC || Get32(file, 4) != VERSION || Get32(file, 32) != 0 then Rejected
    else
      var n, dim := Get64(file, 8), Get32(file, 16);
      if !(0 < n <= MAX_VECS) || !(0 < dim <= MAX_DIM) || |file| < HEADER_BYTES + n * dim * 4 then Rejected
      else
        var body := file[HEADER_BYTES..HEADER_BYTES + n * dim * 4];
        if Crc32.Crc(body) != GetRegister(file[24..28]) then Rejected
        else Read(Header(n, dim, Get32(file, 20), Crc32.Crc(body), Get32(file, 28)), body)
  }

  lemma HeaderFields(h: Header, file: seq<Byte>)
    requires IsInt64(h.nVecs) && h.dim < U32 && h.metric < U32 && h.baseTidsCrc < U32
    requires HeaderBytes(h) <= file
    ensures Get32(file, 0) == MAGIC && Get32(file, 4) == VERSION && Get64(file, 8) == h.nVecs
    ensures Get32(file, 16) == h.dim && Get32(file, 20) == h.metric && GetRegister(file[24..28]) == h.bodyCrc
    ensures Get32(file, 28) == h.baseTidsCrc && Get32(file, 32) == 0
  {
    var b := HeaderBytes(h);
    hide Le, Value;
    FieldAt(b, file, 0, 4, Le32(MAGIC));
    FieldAt(b, file, 4, 4, Le32(VERSION));
    FieldAt(b, file, 8, 8, Le64(h.nVecs));
    FieldAt(b, file, 16, 4, Le32(h.dim));
    FieldAt(b, file, 20, 4, Le32(h.metric));
    FieldAt(b, file, 24, 4, PutRegister(h.bodyCrc));
    FieldAt(b, file, 28, 4, Le32(h.baseTidsCrc));
    FieldAt(b, file, 32, 4, Le32(0));
    Read32(file, 0, MAGIC);
    Read32(file, 4, VERSION);
    Read64(file, 8, h.nVecs);
    Read32(file, 16, h.dim);
    Read32(file, 20, h.metric);
    RegisterRoundTrip(h.bodyCrc);
    Read32(file, 28, h.baseTidsCrc);
    Read32(file, 32, 0);
  }

  lemma FieldAt(b: seq<Byte>, file: seq<Byte>, at: nat, w: nat, field: seq<Byte>)
    requires b <= file && at + w <= |b| && b[at..at + w] == field
    ensures file[at..at + w] == field
  {}

  /** Reading undoes writing exactly when the sizes are in range; anything after the body is ignored. */
  lemma ReadBack(n: int, dim: nat, metric: nat, baseTidsCrc: nat, body: seq<Byte>, after: seq<Byte>)
    requires 0 <= n && IsInt64(n) && dim < U32 && metric < U32 && baseTidsCrc < U32 && |body| == n * dim * 4
    ensures Parse(FileBytes(n, dim, metric, baseTidsCrc, body) + after) ==
              if 0 < n <= MAX_VECS && 0 < dim <= MAX_DIM
              then Read(Header(n, dim, metric, Crc32.Crc(body), baseTidsCrc), body)
              else Rejected
  {
    hide Crc32.Crc, Get32, Get64, GetRegister;
    var h := Header(n, dim, metric, Crc32.Crc(body), baseTidsCrc);
    var file := FileBytes(n, dim, metric, baseTidsCrc, body) + after;
    hide HeaderBytes;
    HeaderFields(h, file);
    assert file[HEADER_BYTES..HEADER_BYTES + n * dim * 4] == body;
  }

  /**
   Any file is accepted precisely when it starts with the header of its own fields, in range and
   with the CRC of the body, and holds the whole body; the last four header bytes are padding.
   */
  lemma AcceptedExactly(file: seq<Byte>)
    ensures Parse(file).Read? <==>
              && |file| >= 40
              && var n, dim, metric, base := Get64(file, 8), Get32(file, 16), Get32(file, 20), Get32(file, 28);
                 && 0 < n <= 1_000_000_000 && 0 < dim <= 65535 && |file| >= 40 + n * dim * 4
                 && file[..36] == HeaderBytes(Header(n, dim, metric, Crc32.Crc(file[40..40 + n * dim * 4]), base))[..36]
  {
    hide Crc32.Crc, Get32, Get64, GetRegister, HeaderBytes;
    if |file| >= 40 && Get64(file, 8) > 0 {
      ParseChecks(file, RowStart(Get64(file, 8), Get32(file, 16)));
      hide Parse;
      if |file| >= 40 + RowStart(Get64(file, 8), Get32(file, 16)) {
        HeaderMatches(file, Crc32.Crc(file[40..40 + RowStart(Get64(file, 8), Get32(file, 16))]));
      }
    }
  }

  /** The reader's checks in one line. */
  lemma ParseChecks(file: seq<Byte>, size: nat)
    requires |file| >= 40 && Get64(file, 8) > 0 && size == RowStart(Get64(file, 8), Get32(file, 16))
    ensures Parse(file).Read? <==>
              && Get32(file, 0) == MAGIC && Get32(file, 4) == VERSION && Get32(file, 32) == 0
              && Get64(file, 8) <= MAX_VECS && 0 < Get32(file, 16) <= MAX_DIM && |file| >= 40 + size
              && Crc32.Crc(file[40..40 + size]) == GetRegister(file[24..28])
  {
    hide Crc32.Crc, Get32, Get64, GetRegister;
  }

  lemma HeaderMatches(file: seq<Byte>, crc: bv32)
    requires |file| >= 40
    ensures file[..36] == HeaderBytes(Header(Get64(file, 8), Get32(file, 16), Get32(file, 20), crc, Get32(file, 28)))[..36]
            <==> Get32(file, 0) == MAGIC && Get32(file, 4) == VERSION && Get32(file, 32) == 0 && GetRegister(file[24..28]) == crc
  {
    hide Le, Value, Get32, Get64, GetRegister, PutRegister;
    FourBytes(file, 0);
    FourBytes(file, 4);
    EightBytes(file, 8);
    FourBytes(file, 16);
    FourBytes(file, 20);
    FourBytes(file, 28);
    FourBytes(file, 32);
    var sizes, base := Le64(Get64(file, 8)) + Le32(Get32(file, 16)) + Le32(Get32(file, 20)), Le32(Get32(file, 28));
    assert file[..36] == file[0..4] + file[4..8] + sizes + file[24..28] + base + file[32..36];
    assert HeaderBytes(Header(Get64(file, 8), Get32(file, 16), Get32(file, 20), crc, Get32(file, 28)))[..36]
        == Le32(MAGIC) + Le32(VERSION) + sizes + PutRegister(crc) + base + Le32(0);
    SameRegister(file[24..28], crc);
    Gaps(file[0..4], file[4..8], sizes, file[24..28], base, file[32..36],
         Le32(MAGIC), Le32(VERSION), PutRegister(crc), Le32(0));
    SameWords(Get32(file, 0), MAGIC);
    SameWords(Get32(file, 4), VERSION);
    SameWords(Get32(file, 32), 0);
  }

  /** Byte strings with two common pieces are the same precisely when their other pieces are. */
  lemma Gaps(a: seq<Byte>, b: seq<Byte>, x: seq<Byte>, c: seq<Byte>, y: seq<Byte>, d: seq<Byte>,
             a1: seq<Byte>, b1: seq<Byte>, c1: seq<Byte>, d1: seq<Byte>)
    requires |a| == |a1| && |b| == |b1| && |c| == |c1| && |d| == |d1|
    ensures a + b + x + c + y + d == a1 + b1 + x + c1 + y + d1 <==> a == a1 && b == b1 && c == c1 && d == d1
  {
    var l, r := a + b + x + c + y + d, a1 + b1 + x + c1 + y + d1;
    if l == r {
      var i := |a| + |b|;
      var j := i + |x|;
      assert l[..|a|] == a && r[..|a|] == a1;
      assert l[|a|..i] == b && r[|a|..i] == b1;
      assert l[j..j + |c|] == c && r[j..j + |c|] == c1;
      assert l[j + |c| + |y|..] == d && r[j + |c| + |y|..] == d1;
    }
  }

  lemma SameRegister(b: seq<Byte>, crc: bv32)
    requires |b| == 4
    ensures b == PutRegister(crc) <==> GetRegister(b) == crc
  {
    hide PutRegister, GetRegister;
    RegisterBytes(b);
    RegisterRoundTrip(crc);
  }

  lemma SameWords(a: nat, b: nat)
    requires a < U32 && b < U32
    ensures Le32(a) == Le32(b) <==> a == b
  {
    hide Le32;
    if Le32(a) == Le32(b) { SameWord(a, b); }
  }
}
