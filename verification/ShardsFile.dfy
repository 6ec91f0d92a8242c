/**
 The .shards manifest: written from records, and accepted back only when the records are
 intact and tile the whole corpus.
 */
module ShardsFile {
  import opened Bytes
  import opened Codec
  import Crc32

  const MAGIC: nat := 0x5352_4853
  const VERSION: nat := 1
  const HEADER_BYTES: nat := 40
  const RECORD_BYTES: nat := 40
  const MAX_SHARDS: nat := 256
  const MAX_VECS: nat := 1_000_000_000

  datatype Record = Record(shardId: nat, gpuDeviceId: nat, tidOffset: int, nVecs: int, dim: nat, metric: nat,
                           artifactCrc: nat, reserved: nat)

  datatype Header = Header(shardCount: nat, baseTidsCrc: nat, nVecs: int, dim: nat, metric: nat, bodyCrc: bv32, reserved: nat)

  predicate FieldsFit(r: Record) {
    && r.shardId < U32 && r.gpuDeviceId < U32 && IsInt64(r.tidOffset) && IsInt64(r.nVecs)
    && r.dim < U32 && r.metric < U32 && r.artifactCrc < U32 && r.reserved < U32
  }

  function RecordBytes(r: Record): (b: seq<Byte>)
    ensures |b| == RECORD_BYTES
  {
    Le32(r.shardId) + Le32(r.gpuDeviceId) + Le64(r.tidOffset) + Le64(r.nVecs)
      + Le32(r.dim) + Le32(r.metric) + Le32(r.artifactCrc) + Le32(r.reserved)
  }

  /** A record read from the bytes of its struct. */
  function GetRecord(b: seq<Byte>): Record
    requires |b| == RECORD_BYTES
  {
    Record(Get32(b, 0), Get32(b, 4), Get64(b, 8), Get64(b, 16), Get32(b, 24), Get32(b, 28), Get32(b, 32), Get32(b, 36))
  }

  lemma RecordRoundTrip(r: Record)
    requires FieldsFit(r)
    ensures GetRecord(RecordBytes(r)) == r
  {
    var b := RecordBytes(r);
    hide Le, Value;
    Read32(b, 0, r.shardId);
    Read32(b, 4, r.gpuDeviceId);
    Read64(b, 8, r.tidOffset);
    Read64(b, 16, r.nVecs);
    Read32(b, 24, r.dim);
    Read32(b, 28, r.metric);
    Read32(b, 32, r.artifactCrc);
    Read32(b, 36, r.reserved);
  }

  /** Every 40 bytes are some record whose fields fit. */
  lemma ReadFieldsFit(b: seq<Byte>)
    requires |b| == RECORD_BYTES
    ensures FieldsFit(GetRecord(b))
  {
    hide Le, Value;
    Widths();
    LeOfValue(b[0..4]);
    LeOfValue(b[4..8]);
    LeOfValue(b[8..16]);
    LeOfValue(b[16..24]);
    LeOfValue(b[24..28]);
    LeOfValue(b[28..32]);
    LeOfValue(b[32..36]);
    LeOfValue(b[36..40]);
  }

  function BodyBytes(recs: seq<Record>): (b: seq<Byte>)
    ensures |b| == RECORD_BYTES * |recs|
  {
    if recs == [] then [] else BodyBytes(recs[..|recs| - 1]) + RecordBytes(recs[|recs| - 1])
  }

  function Slice(b: seq<Byte>, i: nat): (r: seq<Byte>)
    requires RECORD_BYTES * i + RECORD_BYTES <= |b|
    ensures |r| == RECORD_BYTES
  {
    b[RECORD_BYTES * i..RECORD_BYTES * i + RECORD_BYTES]
  }

  lemma SliceOfFront(a: seq<Byte>, b: seq<Byte>, i: nat)
    requires RECORD_BYTES * i + RECORD_BYTES <= |a|
    ensures Slice(a + b, i) == Slice(a, i)
  {}

  lemma {:induction false} RecordAt(recs: seq<Record>, i: nat)
    requires i < |recs|
    ensures Slice(BodyBytes(recs), i) == RecordBytes(recs[i])
  {
    hide RecordBytes;
    var front := recs[..|recs| - 1];
    if i < |front| {
      SliceOfFront(BodyBytes(front), RecordBytes(recs[|front|]), i);
      RecordAt(front, i);
    } else {
      assert BodyBytes(recs) == BodyBytes(front) + RecordBytes(recs[i]);
    }
  }

  function HeaderBytes(h: Header): (b: seq<Byte>)
    ensures |b| == HEADER_BYTES
  {
    Le32(MAGIC) + Le32(VERSION) + Le32(h.shardCount) + Le32(h.baseTidsCrc) + Le64(h.nVecs)
      + Le32(h.dim) + Le32(h.metric) + PutRegister(h.bodyCrc) + Le32(h.reserved)
  }

  /** The letters SHRS and version 1. */
  lemma FileStarts(h: Header)
    ensures HeaderBytes(h)[..8] == ['S' as nat, 'H' as nat, 'R' as nat, 'S' as nat, 1, 0, 0, 0]
  {
    FourLetters(0x53, 0x48, 0x52, 0x53);
    FourLetters(1, 0, 0, 0);
    hide Le32;
  }

  function FileBytes(n: int, dim: nat, metric: nat, baseTidsCrc: nat, recs: seq<Record>): seq<Byte> {
    HeaderBytes(Header(|recs|, baseTidsCrc, n, dim, metric, Crc32.Crc(BodyBytes(recs)), 0)) + BodyBytes(recs)
  }

  method Write(f: Stream, t: Crc32.Table, n: int, dim: nat, metric: nat, baseTidsCrc: nat, recs: seq<Record>)
    returns (status: int)
    requires t.Valid()
    modifies f, t, t.entries
    ensures t.Valid()
    ensures f.bytes == old(f.bytes) + Fitting(FileBytes(n, dim, metric, baseTidsCrc, recs), old(f.room))
    ensures status == if |FileBytes(n, dim, metric, baseTidsCrc, recs)| <= old(f.room) then 0 else -1
  {
    hide HeaderBytes, BodyBytes, Fitting, Word;
    var body := BodyBytes(recs);
    var crc := t.Checksum(body);
    var header := HeaderBytes(Header(|recs|, baseTidsCrc, n, dim, metric, crc, 0));
    var ok := f.WriteBoth(header, body);
    return if ok then 0 else -1;
  }

  // ---- coherence --------------------------------------------------------------------------------

  /** The shards' row counts before shard i. */
  function SumBefore(recs: seq<Record>, i: nat): int
    requires i <= |recs|
  {
    if i == 0 then 0 else SumBefore(recs, i - 1) + recs[i - 1].nVecs
  }

  /** What the reader demands of record i. */
  predicate RecordCoherent(recs: seq<Record>, i: nat, dim: nat, metric: nat)
    requires i < |recs|
  {
    && recs[i].reserved == 0 && recs[i].shardId == i && recs[i].tidOffset == SumBefore(recs, i)
    && 0 < recs[i].nVecs <= MAX_VECS && recs[i].dim == dim && recs[i].metric == metric
  }

  predicate Coherent(n: int, dim: nat, metric: nat, recs: seq<Record>) {
    && 0 < |recs| <= MAX_SHARDS && 0 < n <= MAX_VECS && dim > 0
    && (forall i | 0 <= i < |recs| :: RecordCoherent(recs, i, dim, metric))
    && SumBefore(recs, |recs|) == n
  }

  datatype ReadResult = Rejected | Read(header: Header, recs: seq<Record>)

  function GetRecords(body: seq<Byte>, count: nat): (recs: seq<Record>)
    requires |body| == RECORD_BYTES * count
    ensures |recs| == count
  {
    seq(count, i requires 0 <= i < count => GetRecord(Slice(body, i)))
  }

  lemma BodyRoundTrip(recs: seq<Record>)
    requires forall i | 0 <= i < |recs| :: FieldsFit(recs[i])
    ensures GetRecords(BodyBytes(recs), |recs|) == recs
  {
    hide RecordBytes, GetRecord, FieldsFit, BodyBytes;
    forall i | 0 <= i < |recs| ensures GetRecord(Slice(BodyBytes(recs), i)) == recs[i] {
      RecordAt(recs, i);
      RecordRoundTrip(recs[i]);
    }
  }

  /** The semantic pass: a running 64-bit sum over the records. */
  method CheckRecords(recs: seq<Record>, n: int, dim: nat, metric: nat) returns (ok: bool)
    requires |recs| <= MAX_SHARDS && forall i | 0 <= i < |recs| :: FieldsFit(recs[i])
    ensures ok <==> (forall i | 0 <= i < |recs| :: RecordCoherent(recs, i, dim, metric)) && SumBefore(recs, |recs|) == n
  {
    var sum := 0;
    for i := 0 to |recs|
      invariant sum == SumBefore(recs, i) && 0 <= sum <= i * MAX_VECS && IsInt64(sum)
      invariant forall j | 0 <= j < i :: RecordCoherent(recs, j, dim, metric)
    {
      if recs[i].reserved != 0 || recs[i].shardId != i || recs[i].tidOffset != sum
         || recs[i].nVecs <= 0 || recs[i].nVecs > MAX_VECS
         || recs[i].dim != dim || recs[i].metric != metric
      {
        assert !RecordCoherent(recs, i, dim, metric);
        return false;
      }
      sum := sum + recs[i].nVecs;
    }
    return sum == n;
  }

  /** The checks in the order they are made, on the bytes of a file. */
  method ReadFile(t: Crc32.Table, file: seq<Byte>) returns (r: ReadResult)
    requires t.Valid()
    modifies t, t.entries
    ensures t.Valid() && r == Parse(file)
  {
    hide Word, Get32, Get64, GetRegister, GetRecord, Crc32.Crc, FieldsFit;
    if |file| < HEADER_BYTES { return Rejected; }
    if Get32(file, 0) != MAGIC { return Rejected; }
    if Get32(file, 4) != VERSION { return Rejected; }
    if Get32(file, 36) != 0 { return Rejected; }
    var count := Get32(file, 8);
    if count == 0 || count > MAX_SHARDS { return Rejected; }
    var n := Get64(file, 16);
    if n <= 0 || n > MAX_VECS { return Rejected; }
    var dim := Get32(file, 24);
    if dim == 0 { return Rejected; }
    if |file| < HEADER_BYTES + RECORD_BYTES * count { return Rejected; }
    var body := file[HEADER_BYTES..HEADER_BYTES + RECORD_BYTES * count];
    var crc := t.Checksum(body);
    if crc != GetRegister(file[32..36]) { return Rejected; }
    var recs := GetRecords(body, count);
    forall i | 0 <= i < count ensures FieldsFit(recs[i]) { ReadFieldsFit(Slice(body, i)); }
    var ok := CheckRecords(recs, n, dim, Get32(file, 28));
    if !ok { return Rejected; }
    return Read(Header(count, Get32(file, 12), n, dim, Get32(file, 28), crc, 0), recs);
  }

  /** What reading a manifest means. */
  function Parse(file: seq<Byte>): ReadResult {
    if |file| < HEADER_BYTES || Get32(file, 0) != MAGIC || Get32(file, 4) != VERSION || Get32(file, 36) != 0 then Rejected
    else ParseSizes(file, Get32(file, 8), Get64(file, 16), Get32(file, 24))
  }

  function ParseSizes(file: seq<Byte>, count: nat, n: int, dim: nat): ReadResult
    requires |file| >= HEADER_BYTES
  {
    if !(0 < count <= MAX_SHARDS) || !(0 < n <= MAX_VECS) || dim == 0 || |file| < HEADER_BYTES + RECORD_BYTES * count
    then Rejected
    else
      var body := file[HEADER_BYTES..HEADER_BYTES + RECORD_BYTES * count];
      var recs := GetRecords(body, count);
      if Crc32.Crc(body) != GetRegister(file[32..36]) || !Coherent(n, dim, Get32(file, 28), recs) then Rejected
      else Read(Header(count, Get32(file, 12), n, dim, Get32(file, 28), Crc32.Crc(body), 0), recs)
  }

  // ---- what a reader can rely on -------------------------------------------------------------------

  predicate HeaderFits(h: Header) {
    h.shardCount < U32 && h.baseTidsCrc < U32 && IsInt64(h.nVecs) && h.dim < U32 && h.metric < U32
  }

  lemma HeaderFields(h: Header, after: seq<Byte>)
    requires HeaderFits(h) && h.reserved == 0
    ensures var file := HeaderBytes(h) + after;
      && Get32(file, 0) == MAGIC && Get32(file, 4) == VERSION && Get32(file, 8) == h.shardCount
      && Get32(file, 12) == h.baseTidsCrc && Get64(file, 16) == h.nVecs && Get32(file, 24) == h.dim
      && Get32(file, 28) == h.metric && GetRegister(file[32..36]) == h.bodyCrc && Get32(file, 36) == 0
  {
    var file := HeaderBytes(h) + after;
    hide Le, Value;
    Read32(file, 0, MAGIC);
    Read32(file, 4, VERSION);
    Read32(file, 8, h.shardCount);
    Read32(file, 12, h.baseTidsCrc);
    Read64(file, 16, h.nVecs);
    Read32(file, 24, h.dim);
    Read32(file, 28, h.metric);
    assert file[32..36] == PutRegister(h.bodyCrc);
    RegisterRoundTrip(h.bodyCrc);
    Read32(file, 36, 0);
  }

  lemma WholeFile(n: int, dim: nat, metric: nat, baseTidsCrc: nat, recs: seq<Record>, after: seq<Byte>)
    ensures var body := BodyBytes(recs);
            var h := Header(|recs|, baseTidsCrc, n, dim, metric, Crc32.Crc(body), 0);
            FileBytes(n, dim, metric, baseTidsCrc, recs) + after == HeaderBytes(h) + (body + after)
  {
    hide BodyBytes, HeaderBytes, Crc32.Crc;
  }

  /** Reading a file whose header fields and body are known. */
  lemma ParseParts(h: Header, body: seq<Byte>, recs: seq<Record>, after: seq<Byte>)
    requires HeaderFits(h) && h.reserved == 0 && h.shardCount == |recs| && h.bodyCrc == Crc32.Crc(body)
    requires |body| == RECORD_BYTES * |recs| && GetRecords(body, |recs|) == recs
    ensures Parse(HeaderBytes(h) + (body + after)) ==
              if Coherent(h.nVecs, h.dim, h.metric, recs) then Read(h, recs) else Rejected
  {
    hide Crc32.Crc, Get32, Get64, GetRegister, GetRecords, HeaderBytes, RecordCoherent;
    var file := HeaderBytes(h) + (body + after);
    HeaderFields(h, body + after);
    assert file[HEADER_BYTES..HEADER_BYTES + RECORD_BYTES * |recs|] == body;
  }

  /** A written manifest is accepted, and gives back its header and records, exactly when it is coherent. */
  lemma ReadBack(n: int, dim: nat, metric: nat, baseTidsCrc: nat, recs: seq<Record>, after: seq<Byte>)
    requires IsInt64(n) && dim < U32 && metric < U32 && baseTidsCrc < U32 && |recs| < U32
    requires forall i | 0 <= i < |recs| :: FieldsFit(recs[i])
    ensures Parse(FileBytes(n, dim, metric, baseTidsCrc, recs) + after) ==
              if Coherent(n, dim, metric, recs)
              then Read(Header(|recs|, baseTidsCrc, n, dim, metric, Crc32.Crc(BodyBytes(recs)), 0), recs)
              else Rejected
  {
    hide BodyBytes, Crc32.Crc, FieldsFit, GetRecords, FileBytes, HeaderBytes, Coherent, Parse;
    var body := BodyBytes(recs);
    var h := Header(|recs|, baseTidsCrc, n, dim, metric, Crc32.Crc(body), 0);
    WholeFile(n, dim, metric, baseTidsCrc, recs, after);
    BodyRoundTrip(recs);
    ParseParts(h, body, recs, after);
  }

  lemma RecordWritten(b: seq<Byte>)
    requires |b| == RECORD_BYTES
    ensures RecordBytes(GetRecord(b)) == b && FieldsFit(GetRecord(b))
  {
    hide Le, Value, Get32, Get64;
    ReadFieldsFit(b);
    FourBytes(b, 0);
    FourBytes(b, 4);
    EightBytes(b, 8);
    EightBytes(b, 16);
    FourBytes(b, 24);
    FourBytes(b, 28);
    FourBytes(b, 32);
    FourBytes(b, 36);
    assert b == b[0..4] + b[4..8] + b[8..16] + b[16..24] + b[24..28] + b[28..32] + b[32..36] + b[36..40];
  }

  /** The records of a body are those of its front and the last one's. */
  lemma FrontRecords(body: seq<Byte>, count: nat)
    requires count > 0 && |body| == RECORD_BYTES * count
    ensures var front := body[..RECORD_BYTES * (count - 1)];
      && body == front + Slice(body, count - 1)
      && GetRecords(body, count) == GetRecords(front, count - 1) + [GetRecord(Slice(body, count - 1))]
  {
    hide GetRecord;
    var front := body[..RECORD_BYTES * (count - 1)];
    assert body == front + Slice(body, count - 1);
    forall i | 0 <= i < count - 1 ensures Slice(front, i) == Slice(body, i) {
      SliceOfFront(front, Slice(body, count - 1), i);
    }
  }

  lemma BodyOfMore(recs: seq<Record>, r: Record)
    ensures BodyBytes(recs + [r]) == BodyBytes(recs) + RecordBytes(r)
  {
    hide RecordBytes;
    assert (recs + [r])[..|recs|] == recs;
  }

  lemma {:induction false} BodyWritten(body: seq<Byte>, count: nat)
    requires |body| == RECORD_BYTES * count
    ensures BodyBytes(GetRecords(body, count)) == body
  {
    if count > 0 {
      hide RecordBytes, GetRecord, GetRecords, Slice, BodyBytes, FieldsFit;
      var front := body[..RECORD_BYTES * (count - 1)];
      BodyWritten(front, count - 1);
      RecordWritten(Slice(body, count - 1));
      FrontRecords(body, count);
      BodyOfMore(GetRecords(front, count - 1), GetRecord(Slice(body, count - 1)));
    }
  }

  lemma HeaderWritten(file: seq<Byte>)
    requires |file| >= HEADER_BYTES && Get32(file, 0) == MAGIC && Get32(file, 4) == VERSION && Get32(file, 36) == 0
    ensures file[..HEADER_BYTES] == HeaderBytes(Header(Get32(file, 8), Get32(file, 12), Get64(file, 16), Get32(file, 24),
                                                       Get32(file, 28), GetRegister(file[32..36]), 0))
  {
    hide Le, Value, Get32, Get64, GetRegister, PutRegister;
    FourBytes(file, 0);
    FourBytes(file, 4);
    FourBytes(file, 8);
    FourBytes(file, 12);
    EightBytes(file, 16);
    FourBytes(file, 24);
    FourBytes(file, 28);
    RegisterBytes(file[32..36]);
    FourBytes(file, 36);
    assert file[..40] == file[0..4] + file[4..8] + file[8..12] + file[12..16] + file[16..24]
                       + file[24..28] + file[28..32] + file[32..36] + file[36..40];
  }

  /**
   Only written manifests are accepted: whatever file a reader accepts starts with the bytes the
   writer puts down for what it read.  With ReadBack, the accepted files are these and no others.
   */
  lemma AcceptedWasWritten(file: seq<Byte>)
    requires Parse(file).Read?
    ensures var h, recs := Parse(file).header, Parse(file).recs;
            FileBytes(h.nVecs, h.dim, h.metric, h.baseTidsCrc, recs) <= file
    ensures forall i | 0 <= i < |Parse(file).recs| :: FieldsFit(Parse(file).recs[i])
  {
    hide Crc32.Crc, Get32, Get64, GetRegister, GetRecord, BodyBytes, HeaderBytes, FieldsFit, Coherent;
    HeaderWritten(file);
    var count := Get32(file, 8);
    var body := file[HEADER_BYTES..HEADER_BYTES + RECORD_BYTES * count];
    BodyWritten(body, count);
    assert file[..HEADER_BYTES + RECORD_BYTES * count] == file[..HEADER_BYTES] + body;
    forall i | 0 <= i < count ensures FieldsFit(GetRecords(body, count)[i]) { RecordWritten(Slice(body, i)); }
  }

  /** No manifest is still accepted after one byte of its records is replaced. */
  lemma BodyByteDetected(file: seq<Byte>, j: nat, x: Byte)
    requires Parse(file).Read?
    requires HEADER_BYTES <= j < HEADER_BYTES + RECORD_BYTES * Parse(file).header.shardCount
    requires j < |file| && file[j] != x
    ensures Parse(file[j := x]).Rejected?
  {
    hide Crc32.Crc, GetRegister, GetRecords, Coherent;
    var other := file[j := x];
    SameHeader(file, other);
    var end := HEADER_BYTES + RECORD_BYTES * Get32(file, 8);
    assert other[32..36] == file[32..36];
    hide Get32, Get64;
    assert file[HEADER_BYTES..end] == file[HEADER_BYTES..j] + [file[j]] + file[j + 1..end];
    assert other[HEADER_BYTES..end] == file[HEADER_BYTES..j] + [x] + file[j + 1..end];
    Crc32.WindowDetected(file[HEADER_BYTES..j], [file[j]], [x], file[j + 1..end]);
  }

  lemma SameHeader(file: seq<Byte>, other: seq<Byte>)
    requires HEADER_BYTES <= |file| == |other| && file[..HEADER_BYTES] == other[..HEADER_BYTES]
    ensures Get32(file, 0) == Get32(other, 0) && Get32(file, 4) == Get32(other, 4) && Get32(file, 8) == Get32(other, 8)
    ensures Get64(file, 16) == Get64(other, 16) && Get32(file, 24) == Get32(other, 24) && Get32(file, 36) == Get32(other, 36)
  {
    hide Value;
    SameSlice(file, other, 0, 4);
    SameSlice(file, other, 4, 4);
    SameSlice(file, other, 8, 4);
    SameSlice(file, other, 16, 8);
    SameSlice(file, other, 24, 4);
    SameSlice(file, other, 36, 4);
  }

  lemma SameSlice(file: seq<Byte>, other: seq<Byte>, at: nat, w: nat)
    requires at + w <= HEADER_BYTES <= |file| == |other| && file[..HEADER_BYTES] == other[..HEADER_BYTES]
    ensures file[at..at + w] == other[at..at + w]
  {
    forall i | at <= i < at + w ensures file[i] == other[i] {
      assert file[i] == file[..HEADER_BYTES][i] && other[i] == other[..HEADER_BYTES][i];
    }
  }

  /** Where the shard after record i starts, or the end of the corpus. */
  function EndOf(recs: seq<Record>, i: nat, n: int): int
    requires i < |recs|
  {
    if i + 1 < |recs| then recs[i + 1].tidOffset else n
  }

  /** Coherence without sums: numbered in order, of the header's dimension and metric, and each ending where the next begins. */
  lemma CoherentExactly(n: int, dim: nat, metric: nat, recs: seq<Record>)
    ensures Coherent(n, dim, metric, recs) <==>
              && 1 <= |recs| <= 256 && 1 <= n <= 1_000_000_000 && dim > 0
              && recs[0].tidOffset == 0
              && (forall i | 0 <= i < |recs| ::
                    && recs[i].shardId == i && recs[i].dim == dim && recs[i].metric == metric && recs[i].reserved == 0
                    && 1 <= recs[i].nVecs <= 1_000_000_000
                    && recs[i].tidOffset + recs[i].nVecs == EndOf(recs, i, n))
  {
    if Coherent(n, dim, metric, recs) {
      assert RecordCoherent(recs, 0, dim, metric) && SumBefore(recs, 0) == 0;
      forall i | 0 <= i < |recs|
        ensures recs[i].shardId == i && recs[i].dim == dim && recs[i].metric == metric && recs[i].reserved == 0
        ensures 1 <= recs[i].nVecs <= 1_000_000_000 && recs[i].tidOffset + recs[i].nVecs == EndOf(recs, i, n)
      {
        assert RecordCoherent(recs, i, dim, metric);
        assert SumBefore(recs, i + 1) == SumBefore(recs, i) + recs[i].nVecs;
        assert i + 1 < |recs| ==> RecordCoherent(recs, i + 1, dim, metric);
      }
    } else if recs != [] && recs[0].tidOffset == 0
              && forall i | 0 <= i < |recs| :: recs[i].tidOffset + recs[i].nVecs == EndOf(recs, i, n) {
      forall i | 0 <= i < |recs| ensures SumBefore(recs, i) == recs[i].tidOffset {
        SumIsOffset(recs, n, i);
      }
      assert SumBefore(recs, |recs|) == SumBefore(recs, |recs| - 1) + recs[|recs| - 1].nVecs;
    }
  }

  lemma {:induction false} SumIsOffset(recs: seq<Record>, n: int, i: nat)
    requires i < |recs| && recs[0].tidOffset == 0
    requires forall j | 0 <= j < |recs| :: recs[j].tidOffset + recs[j].nVecs == EndOf(recs, j, n)
    ensures SumBefore(recs, i) == recs[i].tidOffset
  {
    if i > 0 {
      SumIsOffset(recs, n, i - 1);
      assert recs[i - 1].tidOffset + recs[i - 1].nVecs == EndOf(recs, i - 1, n);
    }
  }

  /** Record i of every accepted manifest. */
  lemma AcceptedRecord(file: seq<Byte>, i: nat)
    requires Parse(file).Read? && i < |Parse(file).recs|
    ensures var h, r := Parse(file).header, Parse(file).recs[i];
      && |Parse(file).recs| == h.shardCount <= 256 && 1 <= h.nVecs <= 1_000_000_000 && h.dim > 0
      && r.shardId == i && r.dim == h.dim && r.metric == h.metric && r.reserved == 0
      && 1 <= r.nVecs <= 1_000_000_000
      && (i == 0 ==> r.tidOffset == 0) && r.tidOffset + r.nVecs == EndOf(Parse(file).recs, i, h.nVecs)
  {
    hide Crc32.Crc, GetRegister, GetRecords, Get32, Get64;
    var h := Parse(file).header;
    CoherentExactly(h.nVecs, h.dim, h.metric, Parse(file).recs);
  }

  predicate Owns(r: Record, p: int) { r.tidOffset <= p < r.tidOffset + r.nVecs }

  lemma {:induction false} SumGrows(n: int, dim: nat, metric: nat, recs: seq<Record>, i: nat, j: nat)
    requires Coherent(n, dim, metric, recs) && i <= j <= |recs|
    ensures 0 <= SumBefore(recs, i) <= SumBefore(recs, j)
    ensures i < j ==> SumBefore(recs, i) + recs[i].nVecs <= SumBefore(recs, j)
    decreases j
  {
    if j > 0 {
      assert RecordCoherent(recs, j - 1, dim, metric);
      SumGrows(n, dim, metric, recs, if i < j then i else j - 1, j - 1);
    }
  }

  /** The shard a position falls in, found by walking the running sum. */
  lemma {:induction false} Covered(n: int, dim: nat, metric: nat, recs: seq<Record>, p: int, j: nat) returns (i: nat)
    requires Coherent(n, dim, metric, recs) && j <= |recs| && 0 <= p < SumBefore(recs, j)
    ensures i < |recs| && Owns(recs[i], p)
    decreases j
  {
    assert RecordCoherent(recs, j - 1, dim, metric);
    if p < SumBefore(recs, j - 1) {
      i := Covered(n, dim, metric, recs, p, j - 1);
    } else {
      i := j - 1;
    }
  }

  /** An accepted manifest tiles [0, n): each position, and nothing else, is in one shard, and in one only. */
  lemma Tiles(file: seq<Byte>, p: int)
    requires Parse(file).Read?
    ensures var recs := Parse(file).recs;
      && (0 <= p < Parse(file).header.nVecs <==> exists i :: 0 <= i < |recs| && Owns(recs[i], p))
      && (forall i, j | 0 <= i < |recs| && 0 <= j < |recs| && Owns(recs[i], p) && Owns(recs[j], p) :: i == j)
  {
    hide Crc32.Crc, GetRegister, GetRecords, Get32, Get64;
    var h, recs := Parse(file).header, Parse(file).recs;
    CoherentTiles(h.nVecs, h.dim, h.metric, recs, p);
  }

  lemma CoherentTiles(n: int, dim: nat, metric: nat, recs: seq<Record>, p: int)
    requires Coherent(n, dim, metric, recs)
    ensures 0 <= p < n <==> exists i :: 0 <= i < |recs| && Owns(recs[i], p)
    ensures forall i, j | 0 <= i < |recs| && 0 <= j < |recs| && Owns(recs[i], p) && Owns(recs[j], p) :: i == j
  {
    if 0 <= p < n {
      var i := Covered(n, dim, metric, recs, p, |recs|);
    }
    forall i | 0 <= i < |recs| && Owns(recs[i], p) ensures 0 <= p < n {
      assert RecordCoherent(recs, i, dim, metric);
      SumGrows(n, dim, metric, recs, i, |recs|);
    }
    forall i, j | 0 <= i < |recs| && 0 <= j < |recs| && Owns(recs[i], p) && Owns(recs[j], p) ensures i == j {
      assert RecordCoherent(recs, i, dim, metric) && RecordCoherent(recs, j, dim, metric);
      if i < j {
        SumGrows(n, dim, metric, recs, i, j);
      } else if j < i {
        SumGrows(n, dim, metric, recs, j, i);
      }
    }
  }
}
