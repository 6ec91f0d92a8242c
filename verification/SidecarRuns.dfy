/**
 Runs of appends to one sidecar under the exclusive lock: what any sequence of writers, each
 stopped at any point, leaves in the file, against a log of rows.
 */
module SidecarRuns {
  import opened Bytes
  import opened Codec
  import opened Sidecars

  /** A file as a log: nothing yet, bytes behind a header never written, or rows and a torn tail. */
  datatype State =
    | Fresh
    | Torn(data: seq<Byte>)
    | Log(kind: Kind, baseCrc: nat, rows: seq<seq<Byte>>, tail: seq<Byte>)

  predicate KindFits(kind: Kind) {
    kind.Delta? ==> 0 < kind.dim < U32 && kind.metric < U32
  }

  /** A request one of the two appends can make. */
  predicate ValidRequest(q: Request) {
    && KindFits(q.kind) && |q.record| == RecordBytes(q.kind) && (q.base.Base? ==> q.base.crc < U32)
    && q.cap <= 0x7FFF_FFFF
  }

  predicate Valid(s: State) {
    match s
    case Fresh => true
    case Torn(data) => data != []
    case Log(kind, baseCrc, rows, tail) =>
      && KindFits(kind) && baseCrc < U32 && 0 < |rows| <= 0x7FFF_FFFF
      && (forall i | 0 <= i < |rows| :: |rows[i]| == RecordBytes(kind))
      && |tail| <= RecordBytes(kind)
  }

  function Zeros(n: nat): (z: seq<Byte>)
    ensures |z| == n
  {
    seq(n, _ => 0)
  }

  function Flat(rows: seq<seq<Byte>>): seq<Byte> {
    if rows == [] then [] else Flat(rows[..|rows| - 1]) + rows[|rows| - 1]
  }

  function Encode(s: State): seq<Byte> {
    match s
    case Fresh => []
    case Torn(data) => Zeros(HEADER_BYTES) + data
    case Log(kind, baseCrc, rows, tail) => HeaderBytes(kind, |rows|, baseCrc) + (Flat(rows) + tail)
  }

  predicate SameFile(a: Kind, b: Kind) {
    a.Delta? == b.Delta? && (a.Delta? ==> a.dim == b.dim)
  }

  /** What is there after p is written over the start of b. */
  function Overlay(b: seq<Byte>, p: seq<Byte>): seq<Byte> {
    p + if |p| < |b| then b[|p|..] else []
  }

  datatype StepResult = StepResult(state: State, logged: bool, acked: bool)

  /** One append on the log. */
  function Next(s: State, q: Request): StepResult
    requires ValidRequest(q)
  {
    var refused := StepResult(s, false, false);
    match s
    case Torn(_) => refused
    case Fresh =>
      if q.base.NoBase? || q.cap <= 0 || q.life == 0 then refused
      else if q.life <= |q.record| then StepResult(Torn(q.record[..q.life]), false, false)
      else StepResult(Log(q.kind, q.base.crc, [q.record], []), true, q.life >= |q.record| + 3)
    case Log(kind, baseCrc, rows, tail) =>
      if !SameFile(kind, q.kind) || |rows| >= q.cap then refused
      else if q.life <= |q.record| then StepResult(s.(tail := Overlay(tail, q.record[..q.life])), false, false)
      else StepResult(Log(kind, baseCrc, rows + [q.record], []), true, q.life >= |q.record| + 3)
  }

  lemma NextValid(s: State, q: Request)
    requires Valid(s) && ValidRequest(q)
    ensures Valid(Next(s, q).state)
  {}

  // ---- headers --------------------------------------------------------------------------------------

  lemma HeaderCount(kind: Kind, count: nat, baseCrc: nat)
    requires KindFits(kind) && baseCrc < U32 && count <= 0x7FFF_FFFF
    ensures Count(HeaderBytes(kind, count, baseCrc)) == count
    ensures Bump(HeaderBytes(kind, count, baseCrc)) == HeaderBytes(kind, count + 1, baseCrc)
  {
    hide Le, Value;
    Read64(HeaderBytes(kind, count, baseCrc), 8, count);
  }

  lemma HeaderFields(kind: Kind, count: nat, baseCrc: nat, rest: seq<Byte>)
    requires KindFits(kind) && baseCrc < U32 && count <= 0x7FFF_FFFF
    ensures var f := HeaderBytes(kind, count, baseCrc) + rest;
      && Get32(f, 0) == (if kind.Delta? then DELTA_MAGIC else TOMBSTONE_MAGIC) && Get32(f, 4) == 1 && Count(f) == count
      && (kind.Delta? ==> Get32(f, 16) == kind.dim && Get32(f, 20) == kind.metric && Get32(f, 24) == baseCrc && Get32(f, 28) == 0)
      && (kind.Tombstone? ==> Get32(f, 16) == baseCrc && Get32(f, 20) == 0)
  {
    var f := HeaderBytes(kind, count, baseCrc) + rest;
    hide Le, Value, Get32, Get64;
    match kind {
      case Delta(dim, metric) =>
        assert f == Le32(DELTA_MAGIC) + Le32(1) + Le64(count) + Le32(dim) + Le32(metric) + (Le32(baseCrc) + Le32(0)) + rest;
        Layout(f, Le32(DELTA_MAGIC), Le32(1), Le64(count), Le32(dim), Le32(metric), Le32(baseCrc) + Le32(0), rest);
        LastTwo(f, Le32(baseCrc), Le32(0));
        Read32(f, 0, DELTA_MAGIC);
        Read32(f, 16, dim);
        Read32(f, 20, metric);
        Read32(f, 24, baseCrc);
        Read32(f, 28, 0);
      case Tombstone =>
        Layout(f, Le32(TOMBSTONE_MAGIC), Le32(1), Le64(count), Le32(baseCrc), Le32(0), Le(0, 8), rest);
        Read32(f, 0, TOMBSTONE_MAGIC);
        Read32(f, 16, baseCrc);
        Read32(f, 20, 0);
    }
    Read32(f, 4, 1);
    Read64(f, 8, count);
  }

  lemma Layout(f: seq<Byte>, a: seq<Byte>, b: seq<Byte>, c: seq<Byte>, d: seq<Byte>, e: seq<Byte>, last: seq<Byte>, rest: seq<Byte>)
    requires f == a + b + c + d + e + last + rest
    requires |a| == |b| == |d| == |e| == 4 && |c| == |last| == 8
    ensures |f| >= 32 && f[0..4] == a && f[4..8] == b && f[8..16] == c && f[16..20] == d && f[20..24] == e && f[24..32] == last
  {}

  lemma LastTwo(f: seq<Byte>, a: seq<Byte>, b: seq<Byte>)
    requires |f| >= 32 && |a| == |b| == 4 && f[24..32] == a + b
    ensures f[24..28] == a && f[28..32] == b
  {
    assert f[24..28] == f[24..32][..4] && f[28..32] == f[24..32][4..];
  }

  lemma HeaderAccepted(kind: Kind, count: nat, baseCrc: nat, want: Kind)
    requires KindFits(kind) && baseCrc < U32 && count <= 0x7FFF_FFFF
    ensures Accepts(HeaderBytes(kind, count, baseCrc), want) <==> SameFile(kind, want)
  {
    HeaderFields(kind, count, baseCrc, []);
    assert HeaderBytes(kind, count, baseCrc) + [] == HeaderBytes(kind, count, baseCrc);
    hide HeaderBytes, Get32;
  }

  lemma ZerosUnaccepted(rest: seq<Byte>, want: Kind)
    ensures !Accepts(Zeros(HEADER_BYTES), want)
    ensures Get32(Zeros(HEADER_BYTES) + rest, 0) == 0
  {
    var f := Zeros(HEADER_BYTES) + rest;
    assert Le32(0) == [0, 0, 0, 0];
    Read32(f, 0, 0);
    Read32(Zeros(HEADER_BYTES), 0, 0);
  }

  // ---- bytes follow the log ---------------------------------------------------------------------------

  lemma {:induction false} FlatSize(rows: seq<seq<Byte>>, w: nat)
    requires forall i | 0 <= i < |rows| :: |rows[i]| == w
    ensures |Flat(rows)| == |rows| * w
  {
    if rows != [] {
      FlatSize(rows[..|rows| - 1], w);
      OneMore(|rows|, w);
    }
  }

  lemma OneMore(n: nat, w: nat)
    requires n > 0
    ensures n * w == (n - 1) * w + w
  {}

  lemma WrittenAfter(a: seq<Byte>, b: seq<Byte>, p: seq<Byte>)
    ensures Written(a + b, |a|, p) == a + Overlay(b, p)
  {
    if p == [] {
      assert Overlay(b, p) == b;
    } else {
      assert (a + b)[..|a|] == a;
      if |p| < |b| {
        assert (a + b)[|a| + |p|..] == b[|p|..];
      }
    }
  }

  lemma WrittenOverFront(a: seq<Byte>, b: seq<Byte>, p: seq<Byte>)
    requires |p| == |a|
    ensures Written(a + b, 0, p) == p + b
  {
    if p != [] {
      assert (a + b)[|a|..] == b;
    }
  }

  /** Commit on a header, whole rows and a tail no longer than a record. */
  lemma CommitRow(h: seq<Byte>, flat: seq<Byte>, tail: seq<Byte>, record: seq<Byte>, life: nat)
    requires |h| == HEADER_BYTES && |tail| <= |record|
    ensures Commit(h + (flat + tail), h, HEADER_BYTES + |flat|, record, life) ==
              if life <= |record| then Outcome(h + (flat + Overlay(tail, record[..life])), false, false)
              else Outcome(Bump(h) + (flat + record), true, life >= |record| + 3)
  {
    hide Bump, Written, Overlay;
    var file := h + (flat + tail);
    assert file == (h + flat) + tail;
    if life <= |record| {
      WrittenAfter(h + flat, tail, record[..life]);
      assert (h + flat) + Overlay(tail, record[..life]) == h + (flat + Overlay(tail, record[..life]));
    } else {
      WrittenAfter(h + flat, tail, record);
      OverlayWhole(tail, record);
      assert (h + flat) + record == h + (flat + record);
      WrittenOverFront(h, flat + record, Bump(h));
      assert Resized(Bump(h) + (flat + record), HEADER_BYTES + |flat| + |record|) == Bump(h) + (flat + record);
    }
  }

  lemma OverlayWhole(tail: seq<Byte>, record: seq<Byte>)
    requires |tail| <= |record|
    ensures Overlay(tail, record) == record
  {}

  lemma WrittenFresh(p: seq<Byte>)
    ensures Written([], HEADER_BYTES, p) == if p == [] then [] else Zeros(HEADER_BYTES) + p
  {}

  /** One append on the file is one append on the log, the two flags included. */
  lemma Refines(s: State, q: Request)
    requires Valid(s) && ValidRequest(q)
    ensures Attempt(Encode(s), q) == Outcome(Encode(Next(s, q).state), Next(s, q).logged, Next(s, q).acked)
  {
    match s {
      case Fresh => RefinesFresh(q);
      case Torn(data) => RefinesTorn(data, q);
      case Log(_, _, _, _) => RefinesLog(s, q);
    }
  }

  lemma RefinesTorn(data: seq<Byte>, q: Request)
    requires Valid(Torn(data)) && ValidRequest(q)
    ensures Attempt(Encode(Torn(data)), q) == Outcome(Encode(Torn(data)), false, false)
  {
    ZerosUnaccepted(data, q.kind);
    hide Get32, Accepts;
    assert Encode(Torn(data))[..HEADER_BYTES] == Zeros(HEADER_BYTES);
  }

  /** Commit on an empty file. */
  lemma CommitFresh(h: seq<Byte>, record: seq<Byte>, life: nat)
    requires |h| == HEADER_BYTES && record != []
    ensures Commit([], h, HEADER_BYTES, record, life) ==
              if life == 0 then Outcome([], false, false)
              else if life <= |record| then Outcome(Zeros(HEADER_BYTES) + record[..life], false, false)
              else Outcome(Bump(h) + record, true, life >= |record| + 3)
  {
    hide Bump, Written, Resized;
    if life <= |record| {
      WrittenFresh(record[..life]);
    } else {
      WrittenFresh(record);
      WrittenOverFront(Zeros(HEADER_BYTES), record, Bump(h));
      FreshRow(Bump(h), record);
    }
  }

  lemma EncodeFew(kind: Kind, baseCrc: nat, record: seq<Byte>)
    ensures Encode(Fresh) == []
    ensures Encode(Log(kind, baseCrc, [record], [])) == HeaderBytes(kind, 1, baseCrc) + record
  {
    hide HeaderBytes;
    FreshRow(HeaderBytes(kind, 1, baseCrc), record);
  }

  lemma EncodeTorn(data: seq<Byte>)
    ensures Encode(Torn(data)) == Zeros(HEADER_BYTES) + data
  {}

  lemma RefinesFresh(q: Request)
    requires ValidRequest(q)
    ensures Attempt([], q) == Outcome(Encode(Next(Fresh, q).state), Next(Fresh, q).logged, Next(Fresh, q).acked)
  {
    hide HeaderBytes, Bump, Get64, Commit, Encode, RecordBytes, Flat;
    EncodeFew(q.kind, if q.base.Base? then q.base.crc else 0, q.record);
    if q.base.Base? {
      HeaderCount(q.kind, 0, q.base.crc);
      CommitFresh(HeaderBytes(q.kind, 0, q.base.crc), q.record, q.life);
      if 0 < q.life <= |q.record| {
        EncodeTorn(q.record[..q.life]);
      }
    }
  }

  lemma FreshRow(h: seq<Byte>, record: seq<Byte>)
    ensures h + record == h + (Flat([record]) + [])
    ensures Resized(h + record, |h| + |record|) == h + record
  {
    assert Flat([record]) == [] + record;
    assert record + [] == record;
  }

  lemma RefinesLog(s: State, q: Request)
    requires s.Log? && Valid(s) && ValidRequest(q)
    ensures Attempt(Encode(s), q) == Outcome(Encode(Next(s, q).state), Next(s, q).logged, Next(s, q).acked)
  {
    hide HeaderBytes, Bump, Get64, Get32, Accepts, Commit, Overlay;
    var n, h := |s.rows|, HeaderBytes(s.kind, |s.rows|, s.baseCrc);
    var file := Encode(s);
    assert file[..HEADER_BYTES] == h;
    HeaderAccepted(s.kind, n, s.baseCrc, q.kind);
    HeaderCount(s.kind, n, s.baseCrc);
    if SameFile(s.kind, q.kind) && n < q.cap {
      FlatSize(s.rows, |q.record|);
      CommitRow(h, Flat(s.rows), s.tail, q.record, q.life);
      var rows := s.rows + [q.record];
      assert rows[..|rows| - 1] == s.rows;
      assert Flat(rows) == Flat(s.rows) + q.record;
      assert Flat(rows) + [] == Flat(rows);
    }
  }

  // ---- runs ---------------------------------------------------------------------------------------------

  /** The writers in the order they held the lock, all on one kind of sidecar. */
  predicate ValidRun(qs: seq<Request>) {
    forall i | 0 <= i < |qs| :: ValidRequest(qs[i])
  }

  /** The file after every writer is done, one way or another. */
  function Run(qs: seq<Request>): seq<Byte> {
    if qs == [] then [] else Attempt(Run(qs[..|qs| - 1]), qs[|qs| - 1]).file
  }

  /** What the i-th writer saw of its own append. */
  function OutcomeOf(qs: seq<Request>, i: nat): Outcome
    requires i < |qs|
  {
    Attempt(Run(qs[..i]), qs[i])
  }

  /** The records whose header write happened, in lock order. */
  function Logged(qs: seq<Request>): seq<seq<Byte>> {
    if qs == [] then []
    else
      var front := qs[..|qs| - 1];
      Logged(front) + if Attempt(Run(front), qs[|qs| - 1]).logged then [qs[|qs| - 1].record] else []
  }

  function After(qs: seq<Request>): State
    requires ValidRun(qs)
  {
    if qs == [] then Fresh else Next(After(qs[..|qs| - 1]), qs[|qs| - 1]).state
  }

  function RowsOf(s: State): seq<seq<Byte>> { if s.Log? then s.rows else [] }

  /** The file is the encoding of the log that holds exactly the logged records. */
  lemma {:induction false} RunRefines(qs: seq<Request>)
    requires ValidRun(qs)
    ensures Valid(After(qs)) && Run(qs) == Encode(After(qs)) && RowsOf(After(qs)) == Logged(qs)
  {
    hide Attempt, KindFits, RecordBytes, ValidRequest, HeaderBytes, Next;
    if qs != [] {
      hide Valid, Encode, RowsOf;
      var front, q := qs[..|qs| - 1], qs[|qs| - 1];
      RunRefines(front);
      Refines(After(front), q);
      NextValid(After(front), q);
      NextRows(After(front), q);
    }
  }

  /** The log grows by the record exactly when the record is logged. */
  lemma NextRows(s: State, q: Request)
    requires ValidRequest(q)
    ensures RowsOf(Next(s, q).state) == RowsOf(s) + if Next(s, q).logged then [q.record] else []
  {
    hide ValidRequest;
  }

  /** Whoever logs the first record decides what the log is of. */
  lemma {:induction false} FirstLogger(qs: seq<Request>) returns (i: nat)
    requires ValidRun(qs) && Logged(qs) != []
    ensures i < |qs| && OutcomeOf(qs, i).logged && Logged(qs[..i]) == [] && qs[i].base.Base?
    ensures After(qs).Log? && After(qs).kind == qs[i].kind && After(qs).baseCrc == qs[i].base.crc
  {
    hide Attempt, KindFits, RecordBytes, ValidRequest, HeaderBytes, Encode;
    var front, q := qs[..|qs| - 1], qs[|qs| - 1];
    RunRefines(front);
    Refines(After(front), q);
    if Logged(front) == [] {
      i := |front|;
    } else {
      i := FirstLogger(front);
      assert front[..i] == qs[..i];
    }
  }

  /** Every file with records says in its header how many, and the dimension, metric and base CRC its first writer asked for. */
  lemma HeaderIsTheFirstLoggers(qs: seq<Request>) returns (i: nat)
    requires ValidRun(qs) && Logged(qs) != []
    ensures i < |qs| && OutcomeOf(qs, i).logged && Logged(qs[..i]) == [] && qs[i].base.Base?
    ensures |Run(qs)| >= HEADER_BYTES && Count(Run(qs)) == |Logged(qs)|
    ensures qs[i].kind.Delta? ==>
              && Get32(Run(qs), 0) == DELTA_MAGIC && Get32(Run(qs), 16) == qs[i].kind.dim
              && Get32(Run(qs), 20) == qs[i].kind.metric && Get32(Run(qs), 24) == qs[i].base.crc
    ensures qs[i].kind.Tombstone? ==> Get32(Run(qs), 0) == TOMBSTONE_MAGIC && Get32(Run(qs), 16) == qs[i].base.crc
  {
    hide Run, Logged, After, HeaderBytes, Get32, OutcomeOf;
    i := FirstLogger(qs);
    RunRefines(qs);
    var s := After(qs);
    HeaderFields(s.kind, |s.rows|, s.baseCrc, Flat(s.rows) + s.tail);
  }

  // ---- what survives --------------------------------------------------------------------------------------

  /** The i-th record of a file, as a reader slices it. */
  function RecordOf(file: seq<Byte>, i: nat, w: nat): seq<Byte>
    requires HEADER_BYTES + i * w + w <= |file|
  {
    file[HEADER_BYTES + i * w..HEADER_BYTES + i * w + w]
  }

  lemma {:induction false} FlatPrefix(rows: seq<seq<Byte>>, i: nat)
    requires i <= |rows|
    ensures Flat(rows[..i]) <= Flat(rows)
    decreases |rows|
  {
    if i < |rows| {
      FlatPrefix(rows[..|rows| - 1], i);
      assert rows[..|rows| - 1][..i] == rows[..i];
    } else {
      assert rows[..i] == rows;
    }
  }

  lemma FlatAt(rows: seq<seq<Byte>>, w: nat, i: nat)
    requires i < |rows| && forall j | 0 <= j < |rows| :: |rows[j]| == w
    ensures i * w + w <= |Flat(rows)| && Flat(rows)[i * w..i * w + w] == rows[i]
  {
    FlatPrefix(rows, i + 1);
    FlatSize(rows[..i], w);
    assert rows[..i + 1][..i] == rows[..i];
    assert Flat(rows[..i + 1]) == Flat(rows[..i]) + rows[i];
    hide Flat;
    assert Flat(rows)[..|Flat(rows[..i])| + w] == Flat(rows[..i]) + rows[i];
  }

  lemma TornInvalid(data: seq<Byte>, tombstones: bool)
    ensures !Validates(Zeros(HEADER_BYTES) + data, tombstones)
  {
    ZerosUnaccepted(data, Tombstone);
  }

  /** Validation accepts exactly the logs of its own kind with no torn tail and no more rows than the reader's limit. */
  lemma ValidatesLog(s: State, tombstones: bool)
    requires Valid(s)
    ensures Validates(Encode(s), tombstones) <==>
              s.Log? && s.kind.Tombstone? == tombstones && s.tail == [] && |s.rows| <= MAX_ROWS
  {
    match s {
      case Fresh =>
      case Torn(data) => TornInvalid(data, tombstones);
      case Log(kind, baseCrc, rows, tail) =>
        HeaderFields(kind, |rows|, baseCrc, Flat(rows) + tail);
        FlatSize(rows, RecordBytes(kind));
        hide HeaderBytes, Get32, Get64, Flat;
    }
  }

  /** Any file, however it came about, is a valid delta precisely when it is a header followed by as many records as that says. */
  lemma DeltaValidates(file: seq<Byte>)
    ensures Validates(file, false) <==>
              && |file| >= 32
              && var dim, metric, n, crc := Get32(file, 16), Get32(file, 20), Get64(file, 8), Get32(file, 24);
                 && 0 < dim && 0 <= n <= 1_000_000_000
                 && file[..32] == HeaderBytes(Delta(dim, metric), n, crc)
                 && |file| == 32 + n * (8 + dim * 4)
  {
    if |file| >= 32 {
      var dim, metric, n, crc := Get32(file, 16), Get32(file, 20), Get64(file, 8), Get32(file, 24);
      DeltaHeader(file);
      hide Le, Value, Get32, Get64;
    }
  }

  /** Header bytes with the right magic, version and reserved word are those of their own fields. */
  lemma DeltaHeader(file: seq<Byte>)
    requires |file| >= 32
    ensures file[..32] == HeaderBytes(Delta(Get32(file, 16), Get32(file, 20)), Get64(file, 8), Get32(file, 24))
            <==> Get32(file, 0) == DELTA_MAGIC && Get32(file, 4) == DELTA_VERSION && Get32(file, 28) == 0
  {
    hide Le, Value, Get32, Get64;
    FourBytes(file, 0);
    FourBytes(file, 4);
    EightBytes(file, 8);
    FourBytes(file, 16);
    FourBytes(file, 20);
    FourBytes(file, 24);
    FourBytes(file, 28);
    var middle := Le64(Get64(file, 8)) + Le32(Get32(file, 16)) + Le32(Get32(file, 20)) + Le32(Get32(file, 24));
    assert file[..32] == file[0..4] + file[4..8] + middle + file[28..32];
    Ends(middle, Get32(file, 0), Get32(file, 4), Get32(file, 28), DELTA_MAGIC, DELTA_VERSION);
  }

  /** The same for a tombstone file, whose last eight header bytes no reader looks at. */
  lemma TombstoneValidates(file: seq<Byte>)
    ensures Validates(file, true) <==>
              && |file| >= 32
              && var n, crc := Get64(file, 8), Get32(file, 16);
                 && 0 <= n <= 1_000_000_000
                 && file[..24] == HeaderBytes(Tombstone, n, crc)[..24]
                 && |file| == 32 + n * 16
  {
    if |file| >= 32 {
      TombstoneHeader(file);
      hide Le, Value, Get32, Get64, HeaderBytes;
    }
  }

  lemma TombstoneHeader(file: seq<Byte>)
    requires |file| >= 32
    ensures file[..24] == HeaderBytes(Tombstone, Get64(file, 8), Get32(file, 16))[..24]
            <==> Get32(file, 0) == TOMBSTONE_MAGIC && Get32(file, 4) == TOMBSTONE_VERSION && Get32(file, 20) == 0
  {
    hide Le, Value, Get32, Get64;
    FourBytes(file, 0);
    FourBytes(file, 4);
    EightBytes(file, 8);
    FourBytes(file, 16);
    FourBytes(file, 20);
    var middle := Le64(Get64(file, 8)) + Le32(Get32(file, 16));
    assert file[..24] == file[0..4] + file[4..8] + middle + file[20..24];
    assert HeaderBytes(Tombstone, Get64(file, 8), Get32(file, 16))[..24]
        == Le32(TOMBSTONE_MAGIC) + Le32(TOMBSTONE_VERSION) + middle + Le32(0);
    Ends(middle, Get32(file, 0), Get32(file, 4), Get32(file, 20), TOMBSTONE_MAGIC, TOMBSTONE_VERSION);
  }

  /** Where two headers agree in the middle, they are the same precisely when their other three words are. */
  lemma Ends(middle: seq<Byte>, magic: nat, version: nat, reserved: nat, wantMagic: nat, wantVersion: nat)
    requires magic < U32 && version < U32 && reserved < U32 && wantMagic < U32 && wantVersion < U32
    ensures Le32(magic) + Le32(version) + middle + Le32(reserved) == Le32(wantMagic) + Le32(wantVersion) + middle + Le32(0)
            <==> magic == wantMagic && version == wantVersion && reserved == 0
  {
    hide Le;
    var l, r := Le32(magic) + Le32(version) + middle + Le32(reserved), Le32(wantMagic) + Le32(wantVersion) + middle + Le32(0);
    if l == r {
      assert l[..4] == Le32(magic) && r[..4] == Le32(wantMagic);
      assert l[4..8] == Le32(version) && r[4..8] == Le32(wantVersion);
      assert l[8 + |middle|..] == Le32(reserved) && r[8 + |middle|..] == Le32(0);
      SameWord(magic, wantMagic);
      SameWord(version, wantVersion);
      SameWord(reserved, 0);
    }
  }

  lemma RecordOfLog(s: State, i: nat)
    requires Valid(s) && s.Log? && i < |s.rows|
    ensures HEADER_BYTES + i * RecordBytes(s.kind) + RecordBytes(s.kind) <= |Encode(s)|
    ensures RecordOf(Encode(s), i, RecordBytes(s.kind)) == s.rows[i]
  {
    hide HeaderBytes, Flat, RecordBytes, KindFits, RecordOf;
    RecordIn(HeaderBytes(s.kind, |s.rows|, s.baseCrc), s.rows, s.tail, RecordBytes(s.kind), i);
  }

  lemma RecordIn(h: seq<Byte>, rows: seq<seq<Byte>>, tail: seq<Byte>, w: nat, i: nat)
    requires |h| == HEADER_BYTES && i < |rows| && forall j | 0 <= j < |rows| :: |rows[j]| == w
    ensures HEADER_BYTES + i * w + w <= |h + (Flat(rows) + tail)|
    ensures RecordOf(h + (Flat(rows) + tail), i, w) == rows[i]
  {
    FlatAt(rows, w, i);
    hide Flat;
    SliceIn(h, Flat(rows), tail, i * w, w, rows[i]);
  }

  lemma SliceIn(h: seq<Byte>, flat: seq<Byte>, tail: seq<Byte>, at: nat, w: nat, row: seq<Byte>)
    requires at + w <= |flat| && flat[at..at + w] == row
    ensures |h| + at + w <= |h + (flat + tail)| && (h + (flat + tail))[|h| + at..|h| + at + w] == row
  {
    SliceAfter(h, flat, tail, at, w);
  }

  lemma SliceAfter(h: seq<Byte>, flat: seq<Byte>, tail: seq<Byte>, at: nat, w: nat)
    requires at + w <= |flat|
    ensures (h + (flat + tail))[|h| + at..|h| + at + w] == flat[at..at + w]
  {}

  /**
   A file that validates holds the logged records, all of them, in lock order, and nothing else.
   */
  lemma ValidFileHoldsTheLog(qs: seq<Request>, tombstones: bool, i: nat)
    requires ValidRun(qs) && Validates(Run(qs), tombstones)
    ensures Count(Run(qs)) == |Logged(qs)|
    ensures i < |Logged(qs)| ==>
              && HEADER_BYTES + i * RecordSize(Run(qs), tombstones) + RecordSize(Run(qs), tombstones) <= |Run(qs)|
              && RecordOf(Run(qs), i, RecordSize(Run(qs), tombstones)) == Logged(qs)[i]
  {
    hide Validates, Get32, Get64, HeaderBytes, Valid, ValidRun, Encode, Logged, Run, RecordOf;
    RunRefines(qs);
    var s := After(qs);
    hide After;
    ValidatesLog(s, tombstones);
    CountOfLog(s);
    if i < |s.rows| {
      RecordOfLog(s, i);
    }
  }

  lemma CountOfLog(s: State)
    requires Valid(s) && s.Log?
    ensures |Encode(s)| >= HEADER_BYTES && Count(Encode(s)) == |s.rows|
    ensures RecordSize(Encode(s), s.kind.Tombstone?) == RecordBytes(s.kind)
  {
    HeaderFields(s.kind, |s.rows|, s.baseCrc, Flat(s.rows) + s.tail);
    hide HeaderBytes, Get32, Get64, Flat;
  }

  /** How many of the first i writers logged their record. */
  lemma {:induction false} LoggedGrows(qs: seq<Request>, i: nat)
    requires i <= |qs|
    ensures Logged(qs[..i]) <= Logged(qs)
    decreases |qs|
  {
    if i < |qs| {
      hide Attempt, Run;
      LoggedGrows(qs[..|qs| - 1], i);
      assert qs[..|qs| - 1][..i] == qs[..i];
    } else {
      assert qs[..i] == qs;
    }
  }

  /**
   An acknowledged record is logged, at the place the lock order gives it; a logged record
   whose writer got no acknowledgement is one whose writer stopped between the header and
   the end of the flush.
   */
  lemma AckedIsLogged(qs: seq<Request>, i: nat)
    requires i < |qs|
    ensures OutcomeOf(qs, i).acked ==> OutcomeOf(qs, i).logged
    ensures OutcomeOf(qs, i).logged ==>
              |Logged(qs[..i])| < |Logged(qs)| && Logged(qs)[|Logged(qs[..i])|] == qs[i].record
    ensures OutcomeOf(qs, i).logged && !OutcomeOf(qs, i).acked ==> |qs[i].record| < qs[i].life < |qs[i].record| + 3
  {
    LoggedGrows(qs, i + 1);
    assert qs[..i + 1][..i] == qs[..i];
    hide Run, Bump, Written;
    assert Logged(qs[..i + 1]) == Logged(qs[..i]) + if OutcomeOf(qs, i).logged then [qs[i].record] else [];
  }

  /** So a file that validates has every acknowledged record, where the lock order puts it. */
  lemma AckedSurvives(qs: seq<Request>, tombstones: bool, i: nat)
    requires ValidRun(qs) && Validates(Run(qs), tombstones) && i < |qs| && OutcomeOf(qs, i).acked
    ensures var w, j := RecordSize(Run(qs), tombstones), |Logged(qs[..i])|;
            HEADER_BYTES + j * w + w <= |Run(qs)| && RecordOf(Run(qs), j, w) == qs[i].record
  {
    hide Validates, Run, Logged, OutcomeOf, ValidRun, RecordOf, RecordSize;
    AckedIsLogged(qs, i);
    ValidFileHoldsTheLog(qs, tombstones, |Logged(qs[..i])|);
  }

  /** Once a header exists the file is never shorter than its rows and never a whole record longer than one more. */
  lemma NeverAheadByMore(qs: seq<Request>)
    requires ValidRun(qs) && Logged(qs) != []
    ensures exists w: nat :: HEADER_BYTES + |Logged(qs)| * w <= |Run(qs)| <= HEADER_BYTES + |Logged(qs)| * w + w
              && forall i | 0 <= i < |Logged(qs)| :: |Logged(qs)[i]| == w
  {
    hide HeaderBytes, Logged, Run, ValidRun;
    RunRefines(qs);
    var s := After(qs);
    hide After;
    FlatSize(s.rows, RecordBytes(s.kind));
    hide Flat, RecordBytes;
    var w := RecordBytes(s.kind);
    assert HEADER_BYTES + |Logged(qs)| * w <= |Run(qs)| <= HEADER_BYTES + |Logged(qs)| * w + w;
  }

  /** Whatever the last writers left, an append that is acknowledged leaves a file that validates, if the limit allows its size. */
  lemma AckHeals(qs: seq<Request>)
    requires ValidRun(qs) && qs != [] && OutcomeOf(qs, |qs| - 1).acked
    ensures Validates(Run(qs), qs[|qs| - 1].kind.Tombstone?) <==> |Logged(qs)| <= MAX_ROWS
  {
    hide HeaderBytes, Encode, Attempt, Logged, Validates, KindFits, RecordBytes;
    var front, q := qs[..|qs| - 1], qs[|qs| - 1];
    RunRefines(front);
    RunRefines(qs);
    Refines(After(front), q);
    ValidatesLog(After(qs), q.kind.Tombstone?);
  }

  /** So it validates whenever the writer's cap is within the readers' limit, as a writer at its cap is refused. */
  lemma CapBoundsTheLog(qs: seq<Request>)
    requires ValidRun(qs) && qs != [] && OutcomeOf(qs, |qs| - 1).logged
    ensures |Logged(qs)| <= qs[|qs| - 1].cap
  {
    hide HeaderBytes, Encode, Attempt, Logged, Validates, KindFits, RecordBytes;
    var front, q := qs[..|qs| - 1], qs[|qs| - 1];
    RunRefines(front);
    RunRefines(qs);
    Refines(After(front), q);
  }

  /** With a cap above the limit, a log at the limit takes one more acknowledged record and stops validating. */
  lemma CapAboveTheLimit(s: State, q: Request)
    requires Valid(s) && ValidRequest(q) && s.Log? && |s.rows| == MAX_ROWS && SameFile(s.kind, q.kind)
    requires q.cap > MAX_ROWS && q.life >= |q.record| + 3
    ensures Attempt(Encode(s), q).acked && !Validates(Attempt(Encode(s), q).file, q.kind.Tombstone?)
  {
    hide HeaderBytes, Encode, Attempt, Validates, KindFits, RecordBytes;
    Refines(s, q);
    NextValid(s, q);
    ValidatesLog(Next(s, q).state, q.kind.Tombstone?);
  }

  /** A torn tail is what a writer left that stopped inside its record; it never hides logged rows from the next writer. */
  lemma WriterResumes(qs: seq<Request>, q: Request)
    requires ValidRun(qs) && ValidRequest(q) && After(qs).Log? && SameFile(After(qs).kind, q.kind)
    requires |Logged(qs)| < q.cap && q.life >= |q.record| + 3
    ensures Attempt(Run(qs), q).acked
    ensures |Logged(qs)| < MAX_ROWS ==> Validates(Attempt(Run(qs), q).file, q.kind.Tombstone?)
  {
    hide HeaderBytes, Encode, Attempt, Logged, Validates, KindFits, RecordBytes, Run, ValidRun;
    RunRefines(qs);
    hide After;
    Refines(After(qs), q);
    NextValid(After(qs), q);
    ValidatesLog(Next(After(qs), q).state, q.kind.Tombstone?);
  }

  /** The first writer to reach the file and write a byte of its record, but not the header. */
  predicate StoppedBeforeHeader(qs: seq<Request>, i: nat)
    requires i < |qs|
  {
    Run(qs[..i]) == [] && qs[i].base.Base? && qs[i].cap > 0 && 0 < qs[i].life <= |qs[i].record|
  }

  /** Nothing else leaves bytes without a header. */
  lemma {:induction false} OnlyAStopTears(qs: seq<Request>) returns (i: nat)
    requires ValidRun(qs) && Run(qs) != [] && Logged(qs) == []
    ensures i < |qs| && StoppedBeforeHeader(qs, i)
  {
    hide HeaderBytes, Encode, Attempt, Validates, KindFits, RecordBytes;
    var front, q := qs[..|qs| - 1], qs[|qs| - 1];
    RunRefines(front);
    Refines(After(front), q);
    if Run(front) != [] {
      i := OnlyAStopTears(front);
      assert front[..i] == qs[..i];
    } else {
      EmptyIsFresh(front);
      i := |qs| - 1;
      EmptyEncoding();
    }
  }

  lemma EmptyEncoding()
    ensures Encode(Fresh) == []
  {}

  /** After it, the file stays as that writer left it and no record is ever logged. */
  lemma {:induction false} FailsClosed(qs: seq<Request>, i: nat)
    requires ValidRun(qs) && i < |qs| && StoppedBeforeHeader(qs, i)
    ensures After(qs).Torn? && Logged(qs) == [] && Run(qs) == Run(qs[..i + 1])
    decreases |qs|
  {
    hide HeaderBytes, Encode, Attempt, Validates, KindFits, RecordBytes;
    var front, q := qs[..|qs| - 1], qs[|qs| - 1];
    RunRefines(front);
    RunRefines(qs);
    Refines(After(front), q);
    if i < |qs| - 1 {
      assert front[..i] == qs[..i] && front[..i + 1] == qs[..i + 1];
      FailsClosed(front, i);
    } else {
      EmptyIsFresh(front);
      assert qs[..i + 1] == qs;
    }
  }

  /** So no later append succeeds, and no reader ever accepts the file. */
  lemma FailsClosedLater(qs: seq<Request>, i: nat, j: nat, tombstones: bool)
    requires ValidRun(qs) && i <= j < |qs| && StoppedBeforeHeader(qs, i)
    ensures !OutcomeOf(qs, j).acked && !Validates(Run(qs), tombstones)
  {
    hide HeaderBytes, Encode, Attempt, Validates, KindFits, RecordBytes, Run, Logged;
    FailsClosed(qs, i);
    RunRefines(qs);
    ValidatesLog(After(qs), tombstones);
    var before := qs[..j];
    RunRefines(before);
    if i < j {
      assert before[..i] == qs[..i];
      FailsClosed(before, i);
    } else {
      EmptyIsFresh(before);
    }
    hide After;
    Refines(After(before), qs[j]);
  }

  lemma EmptyIsFresh(qs: seq<Request>)
    requires ValidRun(qs) && Run(qs) == []
    ensures After(qs) == Fresh
  {
    RunRefines(qs);
    hide HeaderBytes, Run;
  }
}
