/**
 The .delta and .tombstone sidecars as bytes: appends by writers that hold the exclusive lock
 but may stop at any point, and the validation a reader makes.

 A writer's `life` is the number of things it still gets to do: each byte of a record, the
 header (32 bytes, taken as atomic), the truncation and the flush count one.  A writer that is
 killed and one whose system call fails stop alike; what was written stays in the file.
 */
module Sidecars {
  import opened Bytes
  import opened Codec

  const DELTA_MAGIC: nat := 0x544C_4544
  const DELTA_VERSION: nat := 1
  const TOMBSTONE_MAGIC: nat := 0x424D_4F54
  const TOMBSTONE_VERSION: nat := 1
  const HEADER_BYTES: nat := 32
  const MAX_ROWS: nat := 1_000_000_000

  /** What a sidecar holds, as its writer asks for it. */
  datatype Kind = Delta(dim: nat, metric: nat) | Tombstone

  function RecordBytes(kind: Kind): (n: nat)
    ensures n >= 8
  {
    if kind.Delta? then 8 + kind.dim * 4 else 16
  }

  /** The header struct; the count is at byte 8 of both layouts. */
  function HeaderBytes(kind: Kind, count: int, baseCrc: nat): (b: seq<Byte>)
    ensures |b| == HEADER_BYTES
  {
    match kind
    case Delta(dim, metric) =>
      Le32(DELTA_MAGIC) + Le32(DELTA_VERSION) + Le64(count) + Le32(dim) + Le32(metric) + Le32(baseCrc) + Le32(0)
    case Tombstone =>
      Le32(TOMBSTONE_MAGIC) + Le32(TOMBSTONE_VERSION) + Le64(count) + Le32(baseCrc) + Le32(0) + Le(0, 8)
  }

  /** The letters DELT or TOMB, and version 1. */
  lemma FileStarts(kind: Kind, count: int, baseCrc: nat)
    ensures HeaderBytes(kind, count, baseCrc)[..8] ==
              (if kind.Delta? then ['D' as nat, 'E' as nat, 'L' as nat, 'T' as nat] else ['T' as nat, 'O' as nat, 'M' as nat, 'B' as nat])
              + [1, 0, 0, 0]
  {
    FourLetters(0x44, 0x45, 0x4C, 0x54);
    FourLetters(0x54, 0x4F, 0x4D, 0x42);
    FourLetters(1, 0, 0, 0);
    hide Le32;
  }

  function Count(header: seq<Byte>): int
    requires |header| >= HEADER_BYTES
  {
    Get64(header, 8)
  }

  function Bump(header: seq<Byte>): (b: seq<Byte>)
    requires |header| == HEADER_BYTES
    ensures |b| == HEADER_BYTES
  {
    header[..8] + Le64(Count(header) + 1) + header[16..]
  }

  // ---- reading ------------------------------------------------------------------------------------

  /** The header checks and the exact size check a reader makes. */
  predicate Validates(file: seq<Byte>, tombstones: bool) {
    && |file| >= HEADER_BYTES
    && (if tombstones then
          && Get32(file, 0) == TOMBSTONE_MAGIC && Get32(file, 4) == TOMBSTONE_VERSION && Get32(file, 20) == 0
        else
          && Get32(file, 0) == DELTA_MAGIC && Get32(file, 4) == DELTA_VERSION && Get32(file, 28) == 0
          && Get32(file, 16) != 0)
    && 0 <= Count(file) <= MAX_ROWS
    && |file| - HEADER_BYTES == Count(file) * RecordSize(file, tombstones)
  }

  function RecordSize(file: seq<Byte>, tombstones: bool): nat
    requires |file| >= HEADER_BYTES
  {
    if tombstones then 16 else 8 + Get32(file, 16) * 4
  }

  // ---- writing ------------------------------------------------------------------------------------

  /** Bytes placed at an offset; a gap before them reads as zeros. */
  function Written(file: seq<Byte>, off: nat, data: seq<Byte>): (r: seq<Byte>)
    ensures data != [] ==> |r| == if |file| >= off + |data| then |file| else off + |data|
  {
    if data == [] then file
    else
      var padded := if |file| < off then file + seq(off - |file|, _ => 0) else file;
      padded[..off] + data + if off + |data| <= |padded| then padded[off + |data|..] else []
  }

  lemma WrittenTwice(file: seq<Byte>, off: nat, a: seq<Byte>, b: seq<Byte>)
    ensures Written(Written(file, off, a), off + |a|, b) == Written(file, off, a + b)
  {
    if a == [] {
      assert a + b == b;
    } else if b == [] {
      assert a + b == a;
    } else {
      var l, r := Written(Written(file, off, a), off + |a|, b), Written(file, off, a + b);
      assert forall i | 0 <= i < |r| :: l[i] == r[i];
    }
  }

  datatype BaseCrc = NoBase | Base(crc: nat)

  datatype Request = Request(kind: Kind, record: seq<Byte>, base: BaseCrc, cap: int, life: nat)

  /** Whether an existing header belongs to a file this writer may append to. */
  predicate Accepts(header: seq<Byte>, kind: Kind)
    requires |header| == HEADER_BYTES
  {
    match kind
    case Delta(dim, _) =>
      Get32(header, 0) == DELTA_MAGIC && Get32(header, 4) == DELTA_VERSION && Get32(header, 16) == dim
    case Tombstone =>
      Get32(header, 0) == TOMBSTONE_MAGIC && Get32(header, 4) == TOMBSTONE_VERSION
  }

  /** The header a writer starts from: a fresh one for an empty file, the file's own, or none. */
  datatype Opened = Refused | Header(bytes: seq<Byte>)

  function Open(file: seq<Byte>, kind: Kind, base: BaseCrc): (o: Opened)
    ensures o.Header? ==> |o.bytes| == HEADER_BYTES
  {
    if file == [] then if base.NoBase? then Refused else Header(HeaderBytes(kind, 0, base.crc))
    else if |file| < HEADER_BYTES || !Accepts(file[..HEADER_BYTES], kind) then Refused
    else Header(file[..HEADER_BYTES])
  }

  /** What an append leaves behind, whether it got past the header, and whether it reported success. */
  datatype Outcome = Outcome(file: seq<Byte>, logged: bool, acked: bool)

  function Attempt(file: seq<Byte>, q: Request): Outcome {
    var o := Open(file, q.kind, q.base);
    if o.Refused? || Count(o.bytes) >= q.cap || HEADER_BYTES + Count(o.bytes) * |q.record| < 0 then Outcome(file, false, false)
    else Commit(file, o.bytes, HEADER_BYTES + Count(o.bytes) * |q.record|, q.record, q.life)
  }

  function Commit(file: seq<Byte>, header: seq<Byte>, off: nat, record: seq<Byte>, life: nat): Outcome
    requires |header| == HEADER_BYTES
  {
    if life <= |record| then Outcome(Written(file, off, record[..life]), false, false)
    else
      var bumped := Written(Written(file, off, record), 0, Bump(header));
      if life == |record| + 1 then Outcome(bumped, true, false)
      else Outcome(Resized(bumped, off + |record|), true, life >= |record| + 3)
  }

  // ---- the appends themselves -----------------------------------------------------------------------

  class Sidecar {
    var bytes: seq<Byte>
    /** What the writer holding the lock still gets to do. */
    var life: nat

    constructor ()
      ensures bytes == [] && life == 0
    {
      bytes, life := [], 0;
    }

    /** One pwrite: some of the bytes, fewer if the writer's life ends first. */
    method PWrite(off: nat, data: seq<Byte>) returns (w: nat)
      requires data != []
      modifies this
      ensures w <= |data| && w <= old(life) && life == old(life) - w
      ensures bytes == Written(old(bytes), off, data[..w])
      ensures w == 0 <==> old(life) == 0
    {
      w :| 1 <= w <= |data|;
      if w > life { w := life; }
      bytes := Written(bytes, off, data[..w]);
      life := life - w;
    }

    /** The retry loop: everything, or a prefix as long as the writer's life. */
    method PWriteAll(off: int, data: seq<Byte>) returns (ok: bool)
      modifies this
      ensures off < 0 && data != [] ==> !ok && bytes == old(bytes) && life == old(life)
      ensures off >= 0 && |data| <= old(life) ==> ok && bytes == Written(old(bytes), off, data) && life == old(life) - |data|
      ensures off >= 0 && |data| > old(life) ==> !ok && bytes == Written(old(bytes), off, data[..old(life)])
    {
      var done := 0;
      while done < |data|
        invariant done <= |data| && done <= old(life) && life == old(life) - done
        invariant off < 0 ==> done == 0 && bytes == old(bytes)
        invariant off >= 0 ==> bytes == Written(old(bytes), off, data[..done])
      {
        if off + done < 0 { return false; }
        var w := PWrite(off + done, data[done..]);
        WrittenTwice(old(bytes), off, data[..done], data[done..][..w]);
        assert data[..done] + data[done..][..w] == data[..done + w];
        if w == 0 {
          assert data[..old(life)] == data[..done];
          return false;
        }
        done := done + w;
      }
      assert data[..|data|] == data;
      return true;
    }

    /** The header is 32 bytes and taken to be written as one. */
    method WriteHeader(header: seq<Byte>) returns (ok: bool)
      modifies this
      ensures ok <==> old(life) > 0
      ensures ok ==> bytes == Written(old(bytes), 0, header) && life == old(life) - 1
      ensures !ok ==> bytes == old(bytes)
    {
      if life == 0 { return false; }
      bytes, life := Written(bytes, 0, header), life - 1;
      return true;
    }

    method Truncate(size: nat) returns (ok: bool)
      modifies this
      ensures ok <==> old(life) > 0
      ensures ok ==> bytes == Resized(old(bytes), size) && life == old(life) - 1
      ensures !ok ==> bytes == old(bytes)
    {
      if life == 0 { return false; }
      bytes, life := Resized(bytes, size), life - 1;
      return true;
    }

    method Sync() returns (ok: bool)
      modifies this
      ensures ok <==> old(life) > 0
      ensures bytes == old(bytes)
    {
      ok := life > 0;
      if ok { life := life - 1; }
    }

    /** One {TID, vector} record. */
    method DeltaAppend(tid: nat, vec: seq<Byte>, dim: nat, metric: nat, base: BaseCrc, cap: int) returns (ok: bool)
      requires |vec| == dim * 4
      modifies this
      ensures var r := Attempt(old(bytes), Request(Delta(dim, metric), Le(tid, 8) + vec, base, cap, old(life)));
              bytes == r.file && ok == r.acked
    {
      hide Get32, Get64, HeaderBytes, Le, Written, Resized;
      var header: seq<Byte>;
      if bytes == [] {
        if base.NoBase? { return false; }
        header := HeaderBytes(Delta(dim, metric), 0, base.crc);
      } else if |bytes| < HEADER_BYTES {
        return false;
      } else {
        header := bytes[..HEADER_BYTES];
        if Get32(header, 0) != DELTA_MAGIC || Get32(header, 4) != DELTA_VERSION || Get32(header, 16) != dim {
          return false;
        }
      }
      if Count(header) >= cap { return false; }
      var recBytes := RecordBytes(Delta(dim, metric));
      var off := HEADER_BYTES + Count(header) * recBytes;
      ghost var record := Le(tid, 8) + vec;
      assert record[..|record|] == record;
      if off >= 0 {
        WrittenTwice(bytes, off, Le(tid, 8), vec);
        if 8 <= life <= |record| {
          WrittenTwice(bytes, off, Le(tid, 8), vec[..life - 8]);
          assert record[..life] == Le(tid, 8) + vec[..life - 8];
        } else if life < 8 {
          assert record[..life] == Le(tid, 8)[..life];
        }
      }
      ok := PWriteAll(off, Le(tid, 8));
      if !ok { return false; }
      ok := PWriteAll(off + 8, vec);
      if !ok { return false; }
      ok := Finish(header, off + recBytes);
    }

    /** One {TID, xid} record. */
    method TombstoneAppend(tid: nat, deleteXid: nat, base: BaseCrc, cap: int) returns (ok: bool)
      modifies this
      ensures var r := Attempt(old(bytes), Request(Tombstone, Le(tid, 8) + Le(deleteXid, 8), base, cap, old(life)));
              bytes == r.file && ok == r.acked
    {
      hide Get32, Get64, HeaderBytes, Le, Written, Resized;
      var header: seq<Byte>;
      if bytes == [] {
        if base.NoBase? { return false; }
        header := HeaderBytes(Tombstone, 0, base.crc);
      } else if |bytes| < HEADER_BYTES {
        return false;
      } else {
        header := bytes[..HEADER_BYTES];
        if Get32(header, 0) != TOMBSTONE_MAGIC || Get32(header, 4) != TOMBSTONE_VERSION { return false; }
      }
      if Count(header) >= cap { return false; }
      var off := HEADER_BYTES + Count(header) * 16;
      ghost var record := Le(tid, 8) + Le(deleteXid, 8);
      assert record[..|record|] == record;
      ok := PWriteAll(off, Le(tid, 8) + Le(deleteXid, 8));
      if !ok { return false; }
      ok := Finish(header, off + 16);
    }

    /** The count, the size and the flush. */
    method Finish(header: seq<Byte>, size: nat) returns (ok: bool)
      requires |header| == HEADER_BYTES
      modifies this
      ensures ok <==> old(life) >= 3
      ensures old(life) == 0 ==> bytes == old(bytes)
      ensures old(life) == 1 ==> bytes == Written(old(bytes), 0, Bump(header))
      ensures old(life) >= 2 ==> bytes == Resized(Written(old(bytes), 0, Bump(header)), size)
    {
      ok := WriteHeader(Bump(header));
      if !ok { return false; }
      ok := Truncate(size);
      if !ok { return false; }
      ok := Sync();
    }
  }
}
