/**
 The manifest printer and the field-by-field parser that undoes it.
 */
module Manifest {
  import opened Json

  // ---- decimal numerals -----------------------------------------------------------------------------------

  function DigitChar(d: nat): (c: char)
    requires d < 10
    ensures IsDigit(c) && DigitValue(c) == d
  {
    ('0' as int + d) as char
  }

  function Decimal(n: nat): (s: string)
    ensures s != "" && forall i | 0 <= i < |s| :: IsDigit(s[i])
  {
    if n < 10 then [DigitChar(n)] else Decimal(n / 10) + [DigitChar(n % 10)]
  }

  function SignedDecimal(n: int): string { if n < 0 then "-" + Decimal(-n) else Decimal(n) }

  lemma {:induction false} NumeralOfDecimal(n: nat)
    ensures Numeral(Decimal(n)) == n
  {
    if n >= 10 {
      NumeralOfDecimal(n / 10);
      assert Decimal(n)[..|Decimal(n)| - 1] == Decimal(n / 10);
    } else {
      assert Numeral("") == 0;
      assert Decimal(n)[..0] == "";
    }
  }

  lemma {:induction false} RunOfDigits(ds: string, rest: string)
    requires (forall i | 0 <= i < |ds| :: IsDigit(ds[i])) && rest != "" && !IsDigit(rest[0])
    ensures DigitRun(ds + rest) == |ds|
  {
    if ds == "" {
      assert ds + rest == rest;
    } else {
      assert (ds + rest)[1..] == ds[1..] + rest;
      RunOfDigits(ds[1..], rest);
    }
  }

  lemma ReadUnsigned(n: nat, rest: string)
    requires rest != "" && !IsDigit(rest[0])
    ensures Strto(Decimal(n) + rest) == Number(false, n)
  {
    hide Decimal, Numeral;
    RunOfDigits(Decimal(n), rest);
    NumeralOfDecimal(n);
    assert (Decimal(n) + rest)[..|Decimal(n)|] == Decimal(n);
    assert IsDigit((Decimal(n) + rest)[0]);
  }

  lemma {:induction false} SpaceSkipped(blank: string, rest: string)
    requires (forall i | 0 <= i < |blank| :: IsSpace(blank[i])) && rest != "" && !IsSpace(rest[0])
    ensures SkipSpace(blank + rest) == rest
  {
    if blank == "" {
      assert blank + rest == rest;
    } else {
      SpaceSkipped(blank[1..], rest);
      assert (blank + rest)[1..] == blank[1..] + rest;
    }
  }

  /** White space, a sign or none, and a decimal numeral are read as that number, up to the first character that is no digit. */
  lemma NumeralReads(blank: string, sign: string, n: nat, rest: string)
    requires forall i | 0 <= i < |blank| :: IsSpace(blank[i])
    requires sign == "" || sign == "+" || sign == "-"
    requires rest != "" && !IsDigit(rest[0])
    ensures Strto(blank + (sign + (Decimal(n) + rest))) == Number(sign == "-", n)
  {
    var u := Decimal(n) + rest;
    assert IsDigit(u[0]) && DigitRun(u) > 0;
    RunOfDigits(Decimal(n), rest);
    NumeralOfDecimal(n);
    assert u[..|Decimal(n)|] == Decimal(n);
    hide Decimal, SkipSpace, Numeral, DigitRun;
    SpaceSkipped(blank, sign + u);
    assert sign == "" ==> sign + u == u;
    assert sign != "" ==> (sign + u)[1..] == u;
  }

  /** A minus sign in front only sets the sign. */
  lemma Negated(u: string)
    requires u != "" && IsDigit(u[0])
    ensures Strto(u).Number? && Strto("-" + u) == Number(true, Strto(u).magnitude)
  {
    var t := "-" + u;
    assert t[1..] == u;
    assert SkipSpace(t) == t && SkipSpace(u) == u;
    hide SkipSpace, Numeral;
    assert DigitRun(u) > 0;
  }

  lemma ReadSigned(n: int, rest: string)
    requires rest != "" && !IsDigit(rest[0])
    ensures Strto(SignedDecimal(n) + rest) == if n < 0 then Number(true, -n) else Number(false, n)
  {
    hide Decimal, Strto;
    if n < 0 {
      ReadUnsigned(-n, rest);
      Negated(Decimal(-n) + rest);
      assert SignedDecimal(n) + rest == "-" + (Decimal(-n) + rest);
    } else {
      ReadUnsigned(n, rest);
    }
  }

  // ---- the document ----------------------------------------------------------------------------------------

  datatype Manifest = Manifest(
    pgCuvsVersion: string, cuvsVersion: string, metricName: string,
    databaseOid: nat, tableOid: nat, indexOid: nat, relfilenode: nat, baseGeneration: nat, dim: nat,
    vectorCount: int, buildTimestamp: int,
    cagraSha256: string, cagraSizeBytes: int, tidsSha256: string, tidsSizeBytes: int,
    shardCount: nat, shardsSha256: string, shardsSizeBytes: int)

  const VERSION_SIZE: nat := 32
  const METRIC_SIZE: nat := 8
  const SHA_SIZE: nat := 65

  datatype Key =
    | PgCuvsVersion | CuvsVersion | DatabaseOid | TableOid | IndexOid | Relfilenode | BaseGeneration
    | Metric | Dim | VectorCount | BuildTimestamp | ShardCount
    | Artifacts | Cagra | Tids | Shards | Sha256 | SizeBytes

  function Name(k: Key): string {
    match k
    case PgCuvsVersion => "pg_cuvs_version"
    case CuvsVersion => "cuvs_version"
    case DatabaseOid => "database_oid"
    case TableOid => "table_oid"
    case IndexOid => "index_oid"
    case Relfilenode => "relfilenode"
    case BaseGeneration => "base_generation"
    case Metric => "metric"
    case Dim => "dim"
    case VectorCount => "vector_count"
    case BuildTimestamp => "build_timestamp"
    case ShardCount => "shard_count"
    case Artifacts => "artifacts"
    case Cagra => "cagra"
    case Tids => "tids"
    case Shards => "shards"
    case Sha256 => "sha256"
    case SizeBytes => "size_bytes"
  }

  /** A key's value with the punctuation up to the next key. */
  datatype Value = Quoted(v: string, post: string) | Bare(text: string)

  datatype Entry = Entry(key: Key, value: Value)

  function ValueText(v: Value): string {
    match v
    case Quoted(s, post) => " \"" + s + "\"" + post
    case Bare(text) => text
  }

  function Text(es: seq<Entry>): string {
    if es == [] then "" else Pattern(Name(es[0].key)) + ValueText(es[0].value) + Text(es[1..])
  }

  const NEXT: string := ",\n  "

  function Str(k: Key, s: string): Entry { Entry(k, Quoted(s, NEXT)) }
  function Num(k: Key, n: int): Entry { Entry(k, Bare(" " + SignedDecimal(n) + NEXT)) }

  /** The top-level fields in order: what the index is, then what it holds. */
  function Head(m: Manifest): seq<Entry> { Identity(m) + Contents(m) }

  function Identity(m: Manifest): seq<Entry> {
    [Str(PgCuvsVersion, m.pgCuvsVersion), Str(CuvsVersion, m.cuvsVersion),
     Num(DatabaseOid, m.databaseOid), Num(TableOid, m.tableOid), Num(IndexOid, m.indexOid),
     Num(Relfilenode, m.relfilenode)]
  }

  function Contents(m: Manifest): seq<Entry> {
    [Num(BaseGeneration, m.baseGeneration), Str(Metric, m.metricName), Num(Dim, m.dim),
     Num(VectorCount, m.vectorCount), Num(BuildTimestamp, m.buildTimestamp), Num(ShardCount, m.shardCount)]
  }

  /** One artifact: its key, the aligning spaces, its two fields and what closes it. */
  function Artifact(k: Key, pad: string, sha: string, size: int, close: string): seq<Entry> {
    [Entry(k, Bare(pad + "{")), Entry(Sha256, Quoted(sha, ", ")), Entry(SizeBytes, Bare(" " + SignedDecimal(size) + close))]
  }

  const BETWEEN: string := "},\n    "
  const CLOSE: string := "}\n  }\n}\n"

  function Tail(m: Manifest): seq<Entry> {
    [Entry(Artifacts, Bare(" {\n    "))]
    + if m.shardCount >= 2
      then Artifact(Tids, "   ", m.tidsSha256, m.tidsSizeBytes, BETWEEN)
             + Artifact(Shards, " ", m.shardsSha256, m.shardsSizeBytes, CLOSE)
      else Artifact(Cagra, " ", m.cagraSha256, m.cagraSizeBytes, BETWEEN)
             + Artifact(Tids, "  ", m.tidsSha256, m.tidsSizeBytes, CLOSE)
  }

  function Print(m: Manifest): string { "{\n  " + Text(Head(m) + Tail(m)) }

  // ---- the printed form ------------------------------------------------------------------------------------------

  function StrLine(key: string, v: string): string { "\"" + key + "\": \"" + v + "\",\n  " }
  function NumLine(key: string, n: int): string { "\"" + key + "\": " + SignedDecimal(n) + ",\n  " }

  function ArtifactText(key: string, pad: string, sha: string, size: int): string {
    "\"" + key + "\":" + pad + "{\"sha256\": \"" + sha + "\", \"size_bytes\": " + SignedDecimal(size) + "}"
  }

  /** The document line by line, each field under its own key. */
  function Lines(m: Manifest): string {
    "{\n  "
    + (StrLine("pg_cuvs_version", m.pgCuvsVersion) + StrLine("cuvs_version", m.cuvsVersion) + NumLine("database_oid", m.databaseOid))
    + (NumLine("table_oid", m.tableOid) + NumLine("index_oid", m.indexOid) + NumLine("relfilenode", m.relfilenode))
    + (NumLine("base_generation", m.baseGeneration) + StrLine("metric", m.metricName) + NumLine("dim", m.dim))
    + (NumLine("vector_count", m.vectorCount) + NumLine("build_timestamp", m.buildTimestamp) + NumLine("shard_count", m.shardCount))
    + "\"artifacts\": {\n    "
    + (if m.shardCount >= 2
       then ArtifactText("tids", "   ", m.tidsSha256, m.tidsSizeBytes) + ",\n    "
              + ArtifactText("shards", " ", m.shardsSha256, m.shardsSizeBytes)
       else ArtifactText("cagra", " ", m.cagraSha256, m.cagraSizeBytes) + ",\n    "
              + ArtifactText("tids", "  ", m.tidsSha256, m.tidsSizeBytes))
    + "\n  }\n}\n"
  }

  function EntryText(e: Entry): string { Pattern(Name(e.key)) + ValueText(e.value) }

  lemma StrEntry(k: Key, s: string)
    ensures EntryText(Str(k, s)) == StrLine(Name(k), s)
  {
    hide Name;
    assert "\":" + " \"" == "\": \"" && "\"" + ",\n  " == "\",\n  ";
    assert EntryText(Str(k, s)) == "\"" + Name(k) + ("\":" + " \"") + s + ("\"" + ",\n  ");
  }

  lemma NumEntry(k: Key, n: int)
    ensures EntryText(Num(k, n)) == NumLine(Name(k), n)
  {
    hide Name, SignedDecimal;
    assert "\":" + " " == "\": ";
    assert EntryText(Num(k, n)) == "\"" + Name(k) + ("\":" + " ") + SignedDecimal(n) + ",\n  ";
  }

  lemma TextOfThree(a: Entry, b: Entry, c: Entry)
    ensures Text([a, b, c]) == EntryText(a) + EntryText(b) + EntryText(c)
  {
    assert [a, b, c][1..] == [b, c] && [b, c][1..] == [c] && [c][1..] == [];
    hide EntryText;
    assert Text([c]) == EntryText(c) + "" by { TextOfOne(c); }
    TextOfMore(b, [c]);
    TextOfMore(a, [b, c]);
    assert [a] + [b, c] == [a, b, c] && [b] + [c] == [b, c];
  }

  lemma TextOfOne(e: Entry)
    ensures Text([e]) == EntryText(e)
  {
    assert [e][1..] == [];
  }

  lemma TextOfMore(e: Entry, es: seq<Entry>)
    ensures Text([e] + es) == EntryText(e) + Text(es)
  {
    assert ([e] + es)[1..] == es;
  }

  lemma {:induction false} TextConcat(a: seq<Entry>, b: seq<Entry>)
    ensures Text(a + b) == Text(a) + Text(b)
  {
    if a == [] {
      assert a + b == b && "" + Text(b) == Text(b);
    } else {
      hide Text, EntryText;
      TextConcat(a[1..], b);
      TextOfMore(a[0], a[1..]);
      TextOfMore(a[0], a[1..] + b);
      HeadAndRest(a, b);
      Associates(EntryText(a[0]), Text(a[1..]), Text(b));
    }
  }

  lemma HeadAndRest(a: seq<Entry>, b: seq<Entry>)
    requires a != []
    ensures [a[0]] + a[1..] == a && [a[0]] + (a[1..] + b) == a + b
  {}

  lemma Associates(a: string, b: string, c: string)
    ensures a + b + c == a + (b + c)
  {}

  lemma ArtifactEntries(k: Key, pad: string, sha: string, size: int, close: string, rest: string)
    requires close == "}" + rest
    ensures Text(Artifact(k, pad, sha, size, close)) == ArtifactText(Name(k), pad, sha, size) + rest
  {
    var a, b, c := Entry(k, Bare(pad + "{")), Entry(Sha256, Quoted(sha, ", ")), Entry(SizeBytes, Bare(" " + SignedDecimal(size) + close));
    hide Name, SignedDecimal, Text;
    TextOfThree(a, b, c);
    OpeningEntry(k, pad);
    ShaEntry(sha);
    SizeEntry(size, close, rest);
    hide EntryText;
    Joined("\"" + Name(k) + "\":" + pad, sha, SignedDecimal(size), rest);
  }

  lemma OpeningEntry(k: Key, pad: string)
    ensures EntryText(Entry(k, Bare(pad + "{"))) == "\"" + Name(k) + "\":" + pad + "{"
  {
    hide Name;
    Associates("\"" + Name(k) + "\":", pad, "{");
  }

  lemma ShaEntry(sha: string)
    ensures EntryText(Entry(Sha256, Quoted(sha, ", "))) == "\"sha256\":" + (" \"" + sha + "\"" + ", ")
  {
    assert "\"" + "sha256" + "\":" == "\"sha256\":";
  }

  lemma SizeEntry(size: int, close: string, rest: string)
    requires close == "}" + rest
    ensures EntryText(Entry(SizeBytes, Bare(" " + SignedDecimal(size) + close))) == "\"size_bytes\":" + (" " + SignedDecimal(size) + ("}" + rest))
  {
    hide SignedDecimal;
    assert "\"" + "size_bytes" + "\":" == "\"size_bytes\":";
  }

  lemma Joined(a: string, sha: string, n: string, rest: string)
    ensures a + "{" + ("\"sha256\":" + (" \"" + sha + "\"" + ", ")) + ("\"size_bytes\":" + (" " + n + ("}" + rest)))
         == a + "{\"sha256\": \"" + sha + "\", \"size_bytes\": " + n + "}" + rest
  {
    assert "{" + "\"sha256\":" + " \"" == "{\"sha256\": \"";
    assert "\"" + ", " + "\"size_bytes\":" + " " == "\", \"size_bytes\": ";
    Regrouped(a, "{", "\"sha256\":", " \"", sha, "\"", ", ", "\"size_bytes\":", " ", n, "}", rest);
  }

  lemma Regrouped(a: string, o: string, x: string, q: string, sha: string, r: string, c: string, y: string, b: string,
                  n: string, e: string, rest: string)
    ensures a + o + (x + (q + sha + r + c)) + (y + (b + n + (e + rest))) == a + (o + x + q) + sha + (r + c + y + b) + n + e + rest
  {}

  lemma IdentityLines(m: Manifest)
    ensures Text(Identity(m)) ==
              (StrLine("pg_cuvs_version", m.pgCuvsVersion) + StrLine("cuvs_version", m.cuvsVersion) + NumLine("database_oid", m.databaseOid))
              + (NumLine("table_oid", m.tableOid) + NumLine("index_oid", m.indexOid) + NumLine("relfilenode", m.relfilenode))
  {
    hide Text, EntryText, StrLine, NumLine, Str, Num;
    var a, b, c := Str(PgCuvsVersion, m.pgCuvsVersion), Str(CuvsVersion, m.cuvsVersion), Num(DatabaseOid, m.databaseOid);
    var d, e, f := Num(TableOid, m.tableOid), Num(IndexOid, m.indexOid), Num(Relfilenode, m.relfilenode);
    assert Identity(m) == [a, b, c] + [d, e, f];
    TextConcat([a, b, c], [d, e, f]);
    TextOfThree(a, b, c);
    TextOfThree(d, e, f);
    StrEntry(PgCuvsVersion, m.pgCuvsVersion);
    StrEntry(CuvsVersion, m.cuvsVersion);
    NumEntry(DatabaseOid, m.databaseOid);
    NumEntry(TableOid, m.tableOid);
    NumEntry(IndexOid, m.indexOid);
    NumEntry(Relfilenode, m.relfilenode);
  }

  lemma ContentsLines(m: Manifest)
    ensures Text(Contents(m)) ==
              (NumLine("base_generation", m.baseGeneration) + StrLine("metric", m.metricName) + NumLine("dim", m.dim))
              + (NumLine("vector_count", m.vectorCount) + NumLine("build_timestamp", m.buildTimestamp) + NumLine("shard_count", m.shardCount))
  {
    hide Text, EntryText, StrLine, NumLine, Str, Num;
    var a, b, c := Num(BaseGeneration, m.baseGeneration), Str(Metric, m.metricName), Num(Dim, m.dim);
    var d, e, f := Num(VectorCount, m.vectorCount), Num(BuildTimestamp, m.buildTimestamp), Num(ShardCount, m.shardCount);
    assert Contents(m) == [a, b, c] + [d, e, f];
    TextConcat([a, b, c], [d, e, f]);
    TextOfThree(a, b, c);
    TextOfThree(d, e, f);
    NumEntry(BaseGeneration, m.baseGeneration);
    StrEntry(Metric, m.metricName);
    NumEntry(Dim, m.dim);
    NumEntry(VectorCount, m.vectorCount);
    NumEntry(BuildTimestamp, m.buildTimestamp);
    NumEntry(ShardCount, m.shardCount);
  }

  lemma TailLines(m: Manifest)
    ensures Text(Tail(m)) == "\"artifacts\": {\n    "
      + (if m.shardCount >= 2
         then ArtifactText("tids", "   ", m.tidsSha256, m.tidsSizeBytes) + ",\n    "
                + (ArtifactText("shards", " ", m.shardsSha256, m.shardsSizeBytes) + "\n  }\n}\n")
         else ArtifactText("cagra", " ", m.cagraSha256, m.cagraSizeBytes) + ",\n    "
                + (ArtifactText("tids", "  ", m.tidsSha256, m.tidsSizeBytes) + "\n  }\n}\n"))
  {
    var open := Entry(Artifacts, Bare(" {\n    "));
    ArtifactsOpen();
    hide Text, EntryText, ArtifactText, Artifact;
    if m.shardCount >= 2 {
      TailOfTwo(open, Tids, "   ", m.tidsSha256, m.tidsSizeBytes, Shards, " ", m.shardsSha256, m.shardsSizeBytes);
    } else {
      TailOfTwo(open, Cagra, " ", m.cagraSha256, m.cagraSizeBytes, Tids, "  ", m.tidsSha256, m.tidsSizeBytes);
    }
  }

  lemma ArtifactsOpen()
    ensures EntryText(Entry(Artifacts, Bare(" {\n    "))) == "\"artifacts\": {\n    "
  {
    assert "\"" + "artifacts" + "\":" + " {\n    " == "\"artifacts\": {\n    ";
  }

  lemma TailOfTwo(open: Entry, k: Key, pad: string, sha: string, size: int, l: Key, padL: string, shaL: string, sizeL: int)
    ensures Text([open] + (Artifact(k, pad, sha, size, BETWEEN) + Artifact(l, padL, shaL, sizeL, CLOSE))) ==
              EntryText(open) + (ArtifactText(Name(k), pad, sha, size) + ",\n    "
                                 + (ArtifactText(Name(l), padL, shaL, sizeL) + "\n  }\n}\n"))
  {
    assert BETWEEN == "}" + ",\n    " && CLOSE == "}" + "\n  }\n}\n";
    hide Text, EntryText, ArtifactText, Artifact, Name;
    TextOfMore(open, Artifact(k, pad, sha, size, BETWEEN) + Artifact(l, padL, shaL, sizeL, CLOSE));
    TextConcat(Artifact(k, pad, sha, size, BETWEEN), Artifact(l, padL, shaL, sizeL, CLOSE));
    ArtifactEntries(k, pad, sha, size, BETWEEN, ",\n    ");
    ArtifactEntries(l, padL, shaL, sizeL, CLOSE, "\n  }\n}\n");
  }

  /** The printer's output is the document line by line: the keys, their order and the spacing are these. */
  lemma PrintedForm(m: Manifest)
    ensures Print(m) == Lines(m)
  {
    hide Text, StrLine, NumLine, ArtifactText, Identity, Contents, Tail;
    TextConcat(Head(m), Tail(m));
    TextConcat(Identity(m), Contents(m));
    IdentityLines(m);
    ContentsLines(m);
    TailLines(m);
  }

  // ---- the parser ---------------------------------------------------------------------------------------------

  const BLANK: Manifest := Manifest("", "", "", 0, 0, 0, 0, 0, 0, 0, 0, "", 0, "", 0, 0, "", 0)

  datatype Parsed = Failed | Ok(m: Manifest)

  datatype Block = NoBlock | Block(sha: string, size: int)

  /** The two fields of an artifact object. */
  function BlockAt(json: string, k: Key): Block {
    var o := ObjField(json, Name(k));
    if o.Missing? then NoBlock
    else
      var sha, size := StrField(o.rest, Name(Sha256), SHA_SIZE, ""), NumField(o.rest, Name(SizeBytes));
      if !sha.ok || size.NoNumber? then NoBlock else Block(sha.text, ToI64(size))
  }

  predicate HasNumber(json: string, k: Key) { NumField(json, Name(k)).Number? }

  function U32At(json: string, k: Key): (v: nat)
    ensures !HasNumber(json, k) ==> v == 0
  {
    var n := NumField(json, Name(k));
    if n.NoNumber? then 0 else ToU32(n)
  }

  function I64At(json: string, k: Key): int {
    var n := NumField(json, Name(k));
    if n.NoNumber? then 0 else ToI64(n)
  }


  function TopLevel(json: string): Parsed {
    var pg, metric := StrField(json, Name(PgCuvsVersion), VERSION_SIZE, ""), StrField(json, Name(Metric), METRIC_SIZE, "");
    if !pg.ok || !metric.ok
       || !HasNumber(json, Relfilenode) || !HasNumber(json, DatabaseOid) || !HasNumber(json, TableOid)
       || !HasNumber(json, IndexOid) || !HasNumber(json, BaseGeneration) || !HasNumber(json, Dim)
       || !HasNumber(json, VectorCount) || !HasNumber(json, BuildTimestamp)
    then Failed
    else Ok(Manifest(
      pg.text, StrField(json, Name(CuvsVersion), VERSION_SIZE, "").text, metric.text,
      U32At(json, DatabaseOid), U32At(json, TableOid), U32At(json, IndexOid), U32At(json, Relfilenode),
      U32At(json, BaseGeneration), U32At(json, Dim), I64At(json, VectorCount), I64At(json, BuildTimestamp),
      "", 0, "", 0, U32At(json, ShardCount), "", 0))
  }

  /** What parsing means; the order of the failures does not show. */
  function Parse(json: string): Parsed {
    var top := TopLevel(json);
    if top.Failed? then Failed
    else
      var tids, other := BlockAt(json, Tids), BlockAt(json, if top.m.shardCount >= 2 then Shards else Cagra);
      if tids.NoBlock? || other.NoBlock? then Failed
      else if top.m.shardCount >= 2
      then Ok(top.m.(tidsSha256 := tids.sha, tidsSizeBytes := tids.size, shardsSha256 := other.sha, shardsSizeBytes := other.size))
      else Ok(top.m.(tidsSha256 := tids.sha, tidsSizeBytes := tids.size, cagraSha256 := other.sha, cagraSizeBytes := other.size))
  }

  method ReadU32(json: string, k: Key, old_: nat) returns (ok: bool, v: nat)
    ensures ok <==> HasNumber(json, k)
    ensures v == if ok then U32At(json, k) else old_
  {
    var n := JsonGetNumber(json, Name(k));
    if n.NoNumber? { return false, old_; }
    return true, ToU32(n);
  }

  method ReadI64(json: string, k: Key, old_: int) returns (ok: bool, v: int)
    ensures ok <==> HasNumber(json, k)
    ensures v == if ok then I64At(json, k) else old_
  {
    var n := JsonGetNumber(json, Name(k));
    if n.NoNumber? { return false, old_; }
    return true, ToI64(n);
  }

  method ReadBlock(json: string, k: Key) returns (b: Block)
    ensures b == BlockAt(json, k)
  {
    var o := JsonFindObj(json, Name(k));
    if o.Missing? { return NoBlock; }
    var sha := JsonGetStr(o.rest, Name(Sha256), SHA_SIZE, "");
    if !sha.ok { return NoBlock; }
    var size := JsonGetNumber(o.rest, Name(SizeBytes));
    if size.NoNumber? { return NoBlock; }
    return Block(sha.text, ToI64(size));
  }

  method FromJson(json: string) returns (r: Parsed)
    ensures r == Parse(json)
  {
    hide StrField, NumField, BlockAt, U32At, I64At, Name, HasNumber;
    var m := BLANK;
    var ok: bool;
    var s := JsonGetStr(json, Name(PgCuvsVersion), VERSION_SIZE, m.pgCuvsVersion);
    m := m.(pgCuvsVersion := s.text);
    if !s.ok { return Failed; }
    s := JsonGetStr(json, Name(CuvsVersion), VERSION_SIZE, m.cuvsVersion);
    m := m.(cuvsVersion := s.text);
    var u;
    ok, u := ReadU32(json, Relfilenode, m.relfilenode);
    if !ok { return Failed; }
    m := m.(relfilenode := u);
    ok, u := ReadU32(json, DatabaseOid, m.databaseOid);
    if !ok { return Failed; }
    m := m.(databaseOid := u);
    ok, u := ReadU32(json, TableOid, m.tableOid);
    if !ok { return Failed; }
    m := m.(tableOid := u);
    ok, u := ReadU32(json, IndexOid, m.indexOid);
    if !ok { return Failed; }
    m := m.(indexOid := u);
    ok, u := ReadU32(json, BaseGeneration, m.baseGeneration);
    if !ok { return Failed; }
    m := m.(baseGeneration := u);
    s := JsonGetStr(json, Name(Metric), METRIC_SIZE, m.metricName);
    m := m.(metricName := s.text);
    if !s.ok { return Failed; }
    ok, u := ReadU32(json, Dim, m.dim);
    if !ok { return Failed; }
    m := m.(dim := u);
    var v;
    ok, v := ReadI64(json, VectorCount, m.vectorCount);
    if !ok { return Failed; }
    m := m.(vectorCount := v);
    ok, v := ReadI64(json, BuildTimestamp, m.buildTimestamp);
    if !ok { return Failed; }
    m := m.(buildTimestamp := v);
    ok, u := ReadU32(json, ShardCount, 0);
    m := m.(shardCount := u);
    var tids, other: Block;
    if m.shardCount >= 2 {
      tids := ReadBlock(json, Tids);
      if tids.NoBlock? { return Failed; }
      other := ReadBlock(json, Shards);
      if other.NoBlock? { return Failed; }
      m := m.(tidsSha256 := tids.sha, tidsSizeBytes := tids.size, shardsSha256 := other.sha, shardsSizeBytes := other.size);
    } else {
      other := ReadBlock(json, Cagra);
      if other.NoBlock? { return Failed; }
      tids := ReadBlock(json, Tids);
      if tids.NoBlock? { return Failed; }
      m := m.(cagraSha256 := other.sha, cagraSizeBytes := other.size, tidsSha256 := tids.sha, tidsSizeBytes := tids.size);
    }
    return Ok(m);
  }

  // ---- keys ----------------------------------------------------------------------------------------------------

  /** The order in which the keys are first printed. */
  function Order(k: Key): nat {
    match k
    case PgCuvsVersion => 0 case CuvsVersion => 1 case DatabaseOid => 2 case TableOid => 3 case IndexOid => 4
    case Relfilenode => 5 case BaseGeneration => 6 case Metric => 7 case Dim => 8 case VectorCount => 9
    case BuildTimestamp => 10 case ShardCount => 11 case Artifacts => 12 case Cagra => 13 case Tids => 14
    case Shards => 15 case Sha256 => 16 case SizeBytes => 17
  }

  function Mark(s: string): (nat, char, char)
    requires |s| >= 3
  {
    (|s|, s[0], if |s| > 3 then s[3] else ' ')
  }

  lemma MarkOf(k: Key)
    ensures |Name(k)| >= 3
    ensures Mark(Name(k)) ==
      match k
      case PgCuvsVersion => (15, 'p', 'c')
      case CuvsVersion => (12, 'c', 's')
      case DatabaseOid => (12, 'd', 'a')
      case TableOid => (9, 't', 'l')
      case IndexOid => (9, 'i', 'e')
      case Relfilenode => (11, 'r', 'f')
      case BaseGeneration => (15, 'b', 'e')
      case Metric => (6, 'm', 'r')
      case Dim => (3, 'd', ' ')
      case VectorCount => (12, 'v', 't')
      case BuildTimestamp => (15, 'b', 'l')
      case ShardCount => (11, 's', 'r')
      case Artifacts => (9, 'a', 'i')
      case Cagra => (5, 'c', 'r')
      case Tids => (4, 't', 's')
      case Shards => (6, 's', 'r')
      case Sha256 => (6, 's', '2')
      case SizeBytes => (10, 's', 'e')
  {}

  lemma NamesDiffer(a: Key, b: Key)
    requires a != b
    ensures Name(a) != Name(b)
  {
    MarkOf(a);
    MarkOf(b);
    hide Name, Mark;
  }

  lemma NameIsKey(k: Key)
    ensures IsKey(Name(k))
  {
    if Order(k) < 4 {
      assert IsKey("pg_cuvs_version") && IsKey("cuvs_version") && IsKey("database_oid") && IsKey("table_oid");
    } else if Order(k) < 12 {
      MiddleNames(k);
    } else {
      LastNames(k);
    }
  }

  lemma MiddleNames(k: Key)
    requires 4 <= Order(k) < 12
    ensures IsKey(Name(k))
  {}

  lemma LastNames(k: Key)
    requires Order(k) >= 12
    ensures IsKey(Name(k))
  {}

  // ---- finding an entry ------------------------------------------------------------------------------------------

  /** No quotes, and a quoted value is followed by punctuation that is no colon. */
  predicate Plain(e: Entry) {
    match e.value
    case Quoted(v, post) => QuoteFree(v) && QuoteFree(post) && post != "" && post[0] != ':' && !('a' <= post[0] <= 'z')
    case Bare(text) => QuoteFree(text)
  }

  lemma SkipValue(value: Value, rest: string, k: Key)
    requires Plain(Entry(k, value))
    ensures After(":" + ValueText(value) + rest, Name(k)) == After(rest, Name(k))
  {
    hide After, Name;
    NameIsKey(k);
    match value {
      case Quoted(v, post) =>
        assert ":" + ValueText(value) + rest == ": " + ("\"" + v + "\"" + (post + rest));
        SkipPlain(": ", "\"" + v + "\"" + (post + rest), Name(k));
        SkipQuoted(v, post + rest, Name(k));
        SkipPlain(post, rest, Name(k));
      case Bare(text) =>
        SkipPlain(":" + text, rest, Name(k));
    }
  }

  lemma SkipEntry(es: seq<Entry>, k: Key)
    requires es != [] && Plain(es[0]) && es[0].key != k
    ensures After(Text(es), Name(k)) == After(Text(es[1..]), Name(k))
  {
    var n, rest := Name(es[0].key), Text(es[1..]);
    var behind := ":" + ValueText(es[0].value) + rest;
    assert Text(es) == "\"" + n + "\"" + behind;
    hide After, Name, Text, ValueText;
    NameIsKey(k);
    NameIsKey(es[0].key);
    NamesDiffer(es[0].key, k);
    SkipQuoted(n, behind, Name(k));
    SkipValue(es[0].value, rest, k);
  }

  /** A key's first match is the first entry that has it. */
  lemma {:induction false} Lookup(es: seq<Entry>, i: nat, k: Key)
    requires i < |es| && es[i].key == k
    requires forall j | 0 <= j < i :: Plain(es[j]) && es[j].key != k
    ensures After(Text(es), Name(k)) == Found(ValueText(es[i].value) + Text(es[i + 1..]))
    decreases i
  {
    hide After, Name, ValueText;
    if i == 0 {
      FoundHere(Name(k), ValueText(es[0].value) + Text(es[1..]));
      assert Text(es) == Pattern(Name(k)) + (ValueText(es[0].value) + Text(es[1..]));
    } else {
      SkipEntry(es, k);
      Lookup(es[1..], i - 1, k);
      assert es[1..][i..] == es[i + 1..];
    }
  }

  // ---- reading the values back -------------------------------------------------------------------------------------

  lemma {:induction false} QuoteEndsRun(v: string, rest: string)
    requires QuoteFree(v)
    ensures QuoteFreeRun(v + "\"" + rest) == |v|
  {
    if v != "" {
      QuoteEndsRun(v[1..], rest);
      assert (v + "\"" + rest)[1..] == v[1..] + "\"" + rest;
    }
  }

  lemma StringValue(v: string, post: string, rest: string, size: nat)
    requires QuoteFree(v) && |v| < size
    ensures ReadString(ValueText(Quoted(v, post)) + rest, size, "") == StrResult(true, v)
  {
    var body := v + "\"" + (post + rest);
    var s := ValueText(Quoted(v, post)) + rest;
    assert s == " \"" + body;
    QuoteEndsRun(v, post + rest);
    hide QuoteFreeRun, ValueText;
    assert s[1..] == "\"" + body;
    assert SkipBlanks(s[1..]) == s[1..];
    assert SkipBlanks(s) == s[1..];
    assert s[1..][1..] == body;
    assert body[..|v|] == v;
  }

  lemma NumberValue(n: int, post: string, rest: string)
    requires post != "" && !IsDigit(post[0])
    ensures Strto(SkipSpaces(" " + SignedDecimal(n) + post + rest)) == if n < 0 then Number(true, -n) else Number(false, n)
  {
    var t := SignedDecimal(n) + (post + rest);
    var s := " " + SignedDecimal(n) + post + rest;
    assert s[1..] == t;
    assert t[0] != ' ';
    assert SkipSpaces(t) == t;
    assert SkipSpaces(s) == t;
    ReadSigned(n, post + rest);
  }

  lemma {:induction false} ObjectValue(pad: string, rest: string)
    requires forall i | 0 <= i < |pad| :: pad[i] == ' '
    ensures ReadObject(pad + "{" + rest) == Found(rest)
  {
    var s := pad + "{" + rest;
    if pad == "" {
      assert s[1..] == rest;
    } else {
      ObjectValue(pad[1..], rest);
      assert s[1..] == pad[1..] + "{" + rest;
    }
  }

  predicate FirstOf(es: seq<Entry>, i: nat, k: Key) {
    i < |es| && es[i].key == k && forall j | 0 <= j < i :: Plain(es[j]) && es[j].key != k
  }

  lemma Located(x: string, es: seq<Entry>, i: nat, k: Key)
    requires QuoteFree(x) && FirstOf(es, i, k)
    ensures After(x + Text(es), Name(k)) == Found(ValueText(es[i].value) + Text(es[i + 1..]))
  {
    hide After, ValueText, Name, Text;
    SkipPlain(x, Text(es), Name(k));
    Lookup(es, i, k);
  }

  lemma StrLocated(x: string, es: seq<Entry>, i: nat, k: Key, v: string, post: string, size: nat)
    requires QuoteFree(x) && FirstOf(es, i, k) && es[i].value == Quoted(v, post) && QuoteFree(v) && |v| < size
    ensures StrField(x + Text(es), Name(k), size, "") == StrResult(true, v)
  {
    hide After, ValueText, Name, Text, ReadString;
    Located(x, es, i, k);
    StringValue(v, post, Text(es[i + 1..]), size);
  }

  lemma NumLocated(x: string, es: seq<Entry>, i: nat, k: Key, n: int, post: string)
    requires QuoteFree(x) && FirstOf(es, i, k) && es[i].value == Bare(" " + SignedDecimal(n) + post)
    requires post != "" && !IsDigit(post[0])
    ensures NumField(x + Text(es), Name(k)) == if n < 0 then Number(true, -n) else Number(false, n)
  {
    hide After, Name, Text, SignedDecimal, Strto, SkipSpaces;
    Located(x, es, i, k);
    NumberValue(n, post, Text(es[i + 1..]));
  }

  lemma BlockLocated(x: string, es: seq<Entry>, i: nat, k: Key, pad: string, sha: string, size: int, close: string)
    requires QuoteFree(x) && FirstOf(es, i, k) && i + 3 <= |es| && es[i..i + 3] == Artifact(k, pad, sha, size, close)
    requires forall j | 0 <= j < |pad| :: pad[j] == ' '
    requires QuoteFree(sha) && |sha| < SHA_SIZE && close != "" && !IsDigit(close[0])
    requires -I64_MAX - 1 <= size <= I64_MAX
    ensures BlockAt(x + Text(es), k) == Block(sha, size)
  {
    hide After, Name, Text, SignedDecimal, StrField, NumField, ReadObject;
    var inner := es[i + 1..];
    assert es[i] == es[i..i + 3][0] && inner[0] == es[i..i + 3][1] && inner[1] == es[i..i + 3][2];
    Located(x, es, i, k);
    ObjectValue(pad, Text(inner));
    StrLocated("", inner, 0, Sha256, sha, ", ", SHA_SIZE);
    NumLocated("", inner, 1, SizeBytes, size, close);
    assert "" + Text(inner) == Text(inner);
  }

  // ---- the printed document -----------------------------------------------------------------------------------------

  predicate IsI64(n: int) { -I64_MAX - 1 <= n <= I64_MAX }

  /** The characters of a C string: none of them is its terminator. */
  predicate CString(s: string) { forall i | 0 <= i < |s| :: s[i] != '\0' }

  /** What the struct's fields can hold. */
  predicate Stored(m: Manifest) {
    && Fits(m)
    && CString(m.pgCuvsVersion) && CString(m.cuvsVersion) && CString(m.metricName)
    && CString(m.cagraSha256) && CString(m.tidsSha256) && CString(m.shardsSha256)
  }

  predicate Fits(m: Manifest) {
    && |m.pgCuvsVersion| < 32 && |m.cuvsVersion| < 32 && |m.metricName| < 8
    && |m.cagraSha256| < 65 && |m.tidsSha256| < 65 && |m.shardsSha256| < 65
    && m.databaseOid < U32 && m.tableOid < U32 && m.indexOid < U32 && m.relfilenode < U32
    && m.baseGeneration < U32 && m.dim < U32 && m.shardCount < U32
    && IsI64(m.vectorCount) && IsI64(m.buildTimestamp)
    && IsI64(m.cagraSizeBytes) && IsI64(m.tidsSizeBytes) && IsI64(m.shardsSizeBytes)
  }

  predicate NoQuotes(m: Manifest) {
    && QuoteFree(m.pgCuvsVersion) && QuoteFree(m.cuvsVersion) && QuoteFree(m.metricName)
    && QuoteFree(m.cagraSha256) && QuoteFree(m.tidsSha256) && QuoteFree(m.shardsSha256)
  }

  /** The fields the other shape uses are zero. */
  predicate InShape(m: Manifest) {
    if m.shardCount >= 2 then m.cagraSha256 == "" && m.cagraSizeBytes == 0
    else m.shardsSha256 == "" && m.shardsSizeBytes == 0
  }

  lemma NumeralQuoteFree(n: int)
    ensures QuoteFree(SignedDecimal(n))
  {
    hide Decimal;
  }

  lemma NumPlain(k: Key, n: int)
    ensures Plain(Num(k, n)) && Num(k, n).key == k
  {
    NumeralQuoteFree(n);
    hide SignedDecimal;
  }

  lemma StrPlain(k: Key, v: string)
    requires QuoteFree(v)
    ensures Plain(Str(k, v)) && Str(k, v).key == k
  {}

  lemma ArtifactPlain(k: Key, pad: string, sha: string, size: int, close: string)
    requires QuoteFree(pad) && QuoteFree(sha) && QuoteFree(close)
    ensures forall i | 0 <= i < 3 :: Plain(Artifact(k, pad, sha, size, close)[i])
  {
    NumeralQuoteFree(size);
    hide SignedDecimal;
  }

  lemma IdentityPlain(m: Manifest, j: nat)
    requires NoQuotes(m) && j < 6
    ensures |Identity(m)| == 6 && Plain(Identity(m)[j]) && Order(Identity(m)[j].key) == j
  {
    hide QuoteFree;
    StrPlain(PgCuvsVersion, m.pgCuvsVersion);
    StrPlain(CuvsVersion, m.cuvsVersion);
    NumPlain(DatabaseOid, m.databaseOid);
    NumPlain(TableOid, m.tableOid);
    NumPlain(IndexOid, m.indexOid);
    NumPlain(Relfilenode, m.relfilenode);
    hide Plain, Str, Num;
  }

  lemma ContentsPlain(m: Manifest, j: nat)
    requires NoQuotes(m) && j < 6
    ensures |Contents(m)| == 6 && Plain(Contents(m)[j]) && Order(Contents(m)[j].key) == 6 + j
  {
    hide QuoteFree;
    NumPlain(BaseGeneration, m.baseGeneration);
    StrPlain(Metric, m.metricName);
    NumPlain(Dim, m.dim);
    NumPlain(VectorCount, m.vectorCount);
    NumPlain(BuildTimestamp, m.buildTimestamp);
    NumPlain(ShardCount, m.shardCount);
    hide Plain, Str, Num;
  }

  lemma HeadPlain(m: Manifest, j: nat)
    requires NoQuotes(m) && j < 12
    ensures |Head(m)| == 12 && Plain(Head(m)[j]) && Order(Head(m)[j].key) == j
  {
    hide Identity, Contents, Plain, Order, NoQuotes;
    IdentityPlain(m, j % 6);
    ContentsPlain(m, j % 6);
  }

  lemma HeadFirst(m: Manifest, i: nat, k: Key)
    requires NoQuotes(m) && i < 12 && Order(k) == i && Head(m)[i].key == k
    ensures FirstOf(Head(m) + Tail(m), i, k)
  {
    hide Plain, Order, Head, Tail;
    HeadPlain(m, i);
    forall j: nat | j < i ensures Plain((Head(m) + Tail(m))[j]) && (Head(m) + Tail(m))[j].key != k {
      HeadPlain(m, j);
    }
  }

  /** Every top-level string is read back. */
  lemma StringsBack(m: Manifest)
    requires Stored(m) && NoQuotes(m)
    ensures StrField(Print(m), Name(PgCuvsVersion), VERSION_SIZE, "") == StrResult(true, m.pgCuvsVersion)
    ensures StrField(Print(m), Name(CuvsVersion), VERSION_SIZE, "") == StrResult(true, m.cuvsVersion)
    ensures StrField(Print(m), Name(Metric), METRIC_SIZE, "") == StrResult(true, m.metricName)
  {
    hide Text, Name, StrField, Tail, SignedDecimal, Plain, FirstOf;
    var es := Head(m) + Tail(m);
    HeadFirst(m, 0, PgCuvsVersion);
    HeadFirst(m, 1, CuvsVersion);
    HeadFirst(m, 7, Metric);
    StrLocated("{\n  ", es, 0, PgCuvsVersion, m.pgCuvsVersion, NEXT, VERSION_SIZE);
    StrLocated("{\n  ", es, 1, CuvsVersion, m.cuvsVersion, NEXT, VERSION_SIZE);
    StrLocated("{\n  ", es, 7, Metric, m.metricName, NEXT, METRIC_SIZE);
  }

  lemma NumberBack(m: Manifest, i: nat, k: Key, n: int)
    requires NoQuotes(m) && i < 12 && Order(k) == i && Head(m)[i] == Num(k, n)
    ensures NumField(Print(m), Name(k)) == if n < 0 then Number(true, -n) else Number(false, n)
  {
    hide Text, Name, NumField, Head, Tail, SignedDecimal, Plain, FirstOf, Order;
    HeadFirst(m, i, k);
    HeadPlain(m, i);
    NumLocated("{\n  ", Head(m) + Tail(m), i, k, n, NEXT);
  }

  lemma U32Back(m: Manifest, i: nat, k: Key, n: nat)
    requires NoQuotes(m) && i < 12 && Order(k) == i && Head(m)[i] == Num(k, n) && n < U32
    ensures HasNumber(Print(m), k) && U32At(Print(m), k) == n
  {
    hide Text, Name, NumField, Print, Head, SignedDecimal;
    NumberBack(m, i, k, n);
  }

  lemma I64Back(m: Manifest, i: nat, k: Key, n: int)
    requires NoQuotes(m) && i < 12 && Order(k) == i && Head(m)[i] == Num(k, n) && IsI64(n)
    ensures HasNumber(Print(m), k) && I64At(Print(m), k) == n
  {
    hide Text, Name, NumField, Print, Head, SignedDecimal;
    NumberBack(m, i, k, n);
  }

  /** Every top-level number is read back. */
  lemma NumbersBack(m: Manifest)
    requires Stored(m) && NoQuotes(m)
    ensures var j := Print(m);
      && HasNumber(j, DatabaseOid) && HasNumber(j, TableOid) && HasNumber(j, IndexOid) && HasNumber(j, Relfilenode)
      && HasNumber(j, BaseGeneration) && HasNumber(j, Dim) && HasNumber(j, VectorCount) && HasNumber(j, BuildTimestamp)
      && U32At(j, DatabaseOid) == m.databaseOid && U32At(j, TableOid) == m.tableOid && U32At(j, IndexOid) == m.indexOid
      && U32At(j, Relfilenode) == m.relfilenode && U32At(j, BaseGeneration) == m.baseGeneration && U32At(j, Dim) == m.dim
      && U32At(j, ShardCount) == m.shardCount
      && I64At(j, VectorCount) == m.vectorCount && I64At(j, BuildTimestamp) == m.buildTimestamp
  {
    hide Print, HasNumber, U32At, I64At, Num, Str, NoQuotes;
    U32Back(m, 2, DatabaseOid, m.databaseOid);
    U32Back(m, 3, TableOid, m.tableOid);
    U32Back(m, 4, IndexOid, m.indexOid);
    U32Back(m, 5, Relfilenode, m.relfilenode);
    U32Back(m, 6, BaseGeneration, m.baseGeneration);
    U32Back(m, 8, Dim, m.dim);
    I64Back(m, 9, VectorCount, m.vectorCount);
    I64Back(m, 10, BuildTimestamp, m.buildTimestamp);
    U32Back(m, 11, ShardCount, m.shardCount);
  }

  /** The first artifact of a document. */
  lemma FirstBlock(m: Manifest, k: Key, pad: string, sha: string, size: int, second: seq<Entry>)
    requires NoQuotes(m) && QuoteFree(sha) && |sha| < SHA_SIZE && IsI64(size) && Order(k) > 12
    requires forall i | 0 <= i < |pad| :: pad[i] == ' '
    requires Tail(m) == [Entry(Artifacts, Bare(" {\n    "))] + Artifact(k, pad, sha, size, BETWEEN) + second
    ensures BlockAt(Print(m), k) == Block(sha, size)
  {
    hide Text, Name, Head, Tail, BlockAt, SignedDecimal, Order;
    var es := Head(m) + Tail(m);
    HeadPlain(m, 0);
    forall j: nat | j < 13 ensures Plain(es[j]) && es[j].key != k {
      if j < 12 { HeadPlain(m, j); }
      OrderOfArtifacts();
    }
    assert es[13] == Tail(m)[1];
    assert es[13..16] == Artifact(k, pad, sha, size, BETWEEN);
    BlockLocated("{\n  ", es, 13, k, pad, sha, size, BETWEEN);
  }

  lemma OrderOfArtifacts()
    ensures Order(Artifacts) == 12 && Order(Sha256) == 16 && Order(SizeBytes) == 17
  {}

  /** Nothing before the second artifact has its key. */
  lemma BeforeSecond(head: seq<Entry>, lead: Entry, first: seq<Entry>, second: seq<Entry>, k: Key)
    requires |head| == 12 && |first| == |second| == 3 && second[0].key == k
    requires forall j | 0 <= j < 12 :: Plain(head[j]) && head[j].key != k
    requires Plain(lead) && lead.key != k
    requires forall j | 0 <= j < 3 :: Plain(first[j]) && first[j].key != k
    ensures FirstOf(head + ([lead] + first + second), 16, k)
    ensures (head + ([lead] + first + second))[16..19] == second
  {
    hide Plain;
    var es := head + ([lead] + first + second);
    assert forall j | 13 <= j < 16 :: es[j] == first[j - 13];
    assert es[12] == lead && es[16] == second[0];
  }

  /** The second artifact, past the first one's fields. */
  lemma SecondBlock(m: Manifest, k1: Key, pad1: string, sha1: string, size1: int,
                    k: Key, pad: string, sha: string, size: int)
    requires NoQuotes(m) && QuoteFree(sha1) && QuoteFree(sha) && |sha| < SHA_SIZE && IsI64(size)
    requires 12 < Order(k) < 16 && k1 != k
    requires (forall i | 0 <= i < |pad| :: pad[i] == ' ') && forall i | 0 <= i < |pad1| :: pad1[i] == ' '
    requires Tail(m) == [Entry(Artifacts, Bare(" {\n    "))] + Artifact(k1, pad1, sha1, size1, BETWEEN) + Artifact(k, pad, sha, size, CLOSE)
    ensures BlockAt(Print(m), k) == Block(sha, size)
  {
    hide Text, Name, Head, Tail, BlockAt, SignedDecimal, Order;
    ArtifactPlain(k1, pad1, sha1, size1, BETWEEN);
    HeadPlain(m, 0);
    OrderOfArtifacts();
    forall j: nat | j < 12 ensures Plain(Head(m)[j]) && Head(m)[j].key != k { HeadPlain(m, j); }
    BeforeSecond(Head(m), Entry(Artifacts, Bare(" {\n    ")), Artifact(k1, pad1, sha1, size1, BETWEEN),
                 Artifact(k, pad, sha, size, CLOSE), k);
    BlockLocated("{\n  ", Head(m) + Tail(m), 16, k, pad, sha, size, CLOSE);
  }

  /** A manifest in its shape and without quotes comes back from its printed form. */
  lemma ParsePrint(m: Manifest)
    requires Stored(m) && NoQuotes(m) && InShape(m)
    ensures Parse(Print(m)) == Ok(m)
  {
    StringsBack(m);
    NumbersBack(m);
    BlocksBack(m);
    hide Text, Name, BlockAt, StrField, HasNumber, U32At, I64At, Print;
  }

  lemma BlocksBack(m: Manifest)
    requires Stored(m) && NoQuotes(m)
    ensures BlockAt(Print(m), Tids) == Block(m.tidsSha256, m.tidsSizeBytes)
    ensures m.shardCount >= 2 ==> BlockAt(Print(m), Shards) == Block(m.shardsSha256, m.shardsSizeBytes)
    ensures m.shardCount < 2 ==> BlockAt(Print(m), Cagra) == Block(m.cagraSha256, m.cagraSizeBytes)
  {
    hide Text, Name, BlockAt, Print, Artifact;
    var first := [Entry(Artifacts, Bare(" {\n    "))];
    if m.shardCount >= 2 {
      var a := Artifact(Tids, "   ", m.tidsSha256, m.tidsSizeBytes, BETWEEN);
      var b := Artifact(Shards, " ", m.shardsSha256, m.shardsSizeBytes, CLOSE);
      assert Tail(m) == first + (a + b) == first + a + b;
      FirstBlock(m, Tids, "   ", m.tidsSha256, m.tidsSizeBytes, b);
      SecondBlock(m, Tids, "   ", m.tidsSha256, m.tidsSizeBytes, Shards, " ", m.shardsSha256, m.shardsSizeBytes);
    } else {
      var a := Artifact(Cagra, " ", m.cagraSha256, m.cagraSizeBytes, BETWEEN);
      var b := Artifact(Tids, "  ", m.tidsSha256, m.tidsSizeBytes, CLOSE);
      assert Tail(m) == first + (a + b) == first + a + b;
      FirstBlock(m, Cagra, " ", m.cagraSha256, m.cagraSizeBytes, b);
      SecondBlock(m, Cagra, " ", m.cagraSha256, m.cagraSizeBytes, Tids, "  ", m.tidsSha256, m.tidsSizeBytes);
    }
  }

  // ---- what parsing can return -----------------------------------------------------------------------------------------

  lemma CopiedQuoteFree(body: string, size: nat)
    requires size > 0
    ensures QuoteFree(Copied(body, size).text) && |Copied(body, size).text| < size
  {}

  lemma FieldQuoteFree(json: string, key: string, size: nat)
    requires size > 0
    ensures QuoteFree(StrField(json, key, size, "").text) && |StrField(json, key, size, "").text| < size
  {
    hide After, SkipBlanks, Copied;
    var a := After(json, key);
    if a.Found? {
      var t := SkipBlanks(a.rest);
      if t != "" && t[0] == '"' {
        CopiedQuoteFree(t[1..], size);
      }
    }
  }

  lemma {:induction false} BlanksCString(s: string)
    requires CString(s)
    ensures CString(SkipBlanks(s))
  {
    if s != "" && IsBlank(s[0]) {
      BlanksCString(s[1..]);
    }
  }

  lemma CopiedCString(body: string, size: nat)
    requires size > 0 && CString(body)
    ensures CString(Copied(body, size).text)
  {}

  /** Whatever is taken out of a C string is one. */
  lemma FieldCString(json: string, key: string, size: nat)
    requires size > 0 && CString(json)
    ensures CString(StrField(json, key, size, "").text)
    ensures ObjField(json, key).Found? ==> CString(ObjField(json, key).rest)
  {
    hide SkipBlanks, Copied, Strstr, Pattern;
    var a := After(json, key);
    if a.Found? {
      BlanksCString(a.rest);
      var t := SkipBlanks(a.rest);
      if t != "" {
        CopiedCString(t[1..], size);
      }
    }
  }

  lemma BlockCString(json: string, k: Key)
    requires CString(json)
    ensures BlockAt(json, k).Block? ==> CString(BlockAt(json, k).sha)
  {
    hide StrField, NumField, ObjField, Name;
    FieldCString(json, Name(k), 1);
    var o := ObjField(json, Name(k));
    if o.Found? {
      FieldCString(o.rest, Name(Sha256), SHA_SIZE);
    }
  }

  /** What is parsed from a C string can be stored. */
  lemma ParsedIsStored(json: string)
    requires CString(json) && Parse(json).Ok?
    ensures Stored(Parse(json).m)
  {
    ParsedIsPlain(json);
    hide StrField, NumField, ObjField, Name;
    FieldCString(json, Name(PgCuvsVersion), VERSION_SIZE);
    FieldCString(json, Name(CuvsVersion), VERSION_SIZE);
    FieldCString(json, Name(Metric), METRIC_SIZE);
    BlockCString(json, Tids);
    BlockCString(json, Shards);
    BlockCString(json, Cagra);
    hide BlockAt, ToU32, ToI64, HasNumber, Fits;
  }

  /** Whatever text is parsed, the result holds no quotes, fits the struct and has one shape. */
  lemma ParsedIsPlain(json: string)
    requires Parse(json).Ok?
    ensures NoQuotes(Parse(json).m) && InShape(Parse(json).m) && Fits(Parse(json).m)
  {
    hide StrField, NumField, ObjField, Name;
    FieldQuoteFree(json, Name(PgCuvsVersion), VERSION_SIZE);
    FieldQuoteFree(json, Name(CuvsVersion), VERSION_SIZE);
    FieldQuoteFree(json, Name(Metric), METRIC_SIZE);
    BlockQuoteFree(json, Tids);
    BlockQuoteFree(json, Shards);
    BlockQuoteFree(json, Cagra);
    hide BlockAt, ToU32, ToI64, HasNumber;
  }

  lemma BlockQuoteFree(json: string, k: Key)
    ensures BlockAt(json, k).Block? ==>
              && QuoteFree(BlockAt(json, k).sha) && |BlockAt(json, k).sha| < SHA_SIZE && IsI64(BlockAt(json, k).size)
  {
    hide StrField, NumField, ObjField, Name;
    var o := ObjField(json, Name(k));
    if o.Found? {
      FieldQuoteFree(o.rest, Name(Sha256), SHA_SIZE);
    }
  }

  /** Parsing undoes printing exactly for manifests without quotes whose unprinted fields are zero. */
  lemma RoundTrip(m: Manifest)
    requires Stored(m)
    ensures Parse(Print(m)) == Ok(m) <==> NoQuotes(m) && InShape(m)
  {
    hide Parse, Print, NoQuotes, InShape, Stored;
    if NoQuotes(m) && InShape(m) {
      ParsePrint(m);
    }
    if Parse(Print(m)) == Ok(m) {
      ParsedIsPlain(Print(m));
    }
  }

  // ---- the buffer ------------------------------------------------------------------------------------------------------

  lemma {:induction false} TextLength(es: seq<Entry>, w: nat)
    requires forall i | 0 <= i < |es| :: |Name(es[i].key)| + 3 + |ValueText(es[i].value)| <= w && CString(ValueText(es[i].value))
    ensures |Text(es)| <= |es| * w && CString(Text(es))
  {
    hide Name, ValueText;
    if es != [] {
      TextLength(es[1..], w);
      NameCString(es[0].key);
      var p, v := Pattern(Name(es[0].key)), ValueText(es[0].value);
      assert CString(p) && CString(p + v);
    }
  }

  lemma NameCString(k: Key)
    ensures CString(Name(k))
  {
    if Order(k) < 6 {
      assert CString("pg_cuvs_version") && CString("cuvs_version") && CString("database_oid");
      assert CString("table_oid") && CString("index_oid") && CString("relfilenode");
    } else if Order(k) < 12 {
      assert CString("base_generation") && CString("metric") && CString("dim");
      assert CString("vector_count") && CString("build_timestamp") && CString("shard_count");
    } else {
      assert CString("artifacts") && CString("cagra") && CString("tids");
      assert CString("shards") && CString("sha256") && CString("size_bytes");
    }
  }

  lemma {:induction false} DecimalFits(n: nat, digits: nat, bound: nat)
    requires digits > 0 && n < bound
    requires bound == TenTo(digits)
    ensures |Decimal(n)| <= digits
    decreases digits
  {
    if n >= 10 {
      DecimalFits(n / 10, digits - 1, TenTo(digits - 1));
    }
  }

  function TenTo(k: nat): nat { if k == 0 then 1 else 10 * TenTo(k - 1) }

  lemma NumberFits(n: int)
    requires -n < U64 && n < U64
    ensures |SignedDecimal(n)| <= 21 && CString(SignedDecimal(n))
  {
    assert TenTo(10) == 1_0000_000_000;
    assert TenTo(20) == 10 * (10 * (10 * (10 * (10 * (10 * (10 * (10 * (10 * (10 * TenTo(10))))))))));
    DecimalFits(if n < 0 then -n else n, 20, TenTo(20));
  }

  lemma NameLength(k: Key)
    ensures |Name(k)| <= 15
  {}

  predicate Short(e: Entry) { |ValueText(e.value)| <= 80 && CString(ValueText(e.value)) }

  lemma StrShort(k: Key, v: string)
    requires |v| < SHA_SIZE && CString(v)
    ensures Short(Str(k, v))
  {}

  lemma NumShort(k: Key, n: int)
    requires -n < U64 && n < U64
    ensures Short(Num(k, n))
  {
    NumberFits(n);
    hide SignedDecimal;
  }

  lemma ArtifactShort(k: Key, pad: string, sha: string, size: int, close: string)
    requires |pad| <= 3 && |sha| < SHA_SIZE && IsI64(size) && |close| <= 20 && CString(pad) && CString(sha) && CString(close)
    ensures forall i | 0 <= i < 3 :: Short(Artifact(k, pad, sha, size, close)[i])
  {
    NumberFits(size);
    hide SignedDecimal;
  }

  lemma IdentityShort(m: Manifest)
    requires Stored(m)
    ensures forall i | 0 <= i < |Identity(m)| :: Short(Identity(m)[i])
  {
    StrShort(PgCuvsVersion, m.pgCuvsVersion);
    StrShort(CuvsVersion, m.cuvsVersion);
    NumShort(DatabaseOid, m.databaseOid);
    NumShort(TableOid, m.tableOid);
    NumShort(IndexOid, m.indexOid);
    NumShort(Relfilenode, m.relfilenode);
    hide Short, Str, Num;
  }

  lemma ContentsShort(m: Manifest)
    requires Stored(m)
    ensures forall i | 0 <= i < |Contents(m)| :: Short(Contents(m)[i])
  {
    NumShort(BaseGeneration, m.baseGeneration);
    StrShort(Metric, m.metricName);
    NumShort(Dim, m.dim);
    NumShort(VectorCount, m.vectorCount);
    NumShort(BuildTimestamp, m.buildTimestamp);
    NumShort(ShardCount, m.shardCount);
    hide Short, Str, Num;
  }

  lemma TailShort(m: Manifest)
    requires Stored(m)
    ensures forall i | 0 <= i < |Tail(m)| :: Short(Tail(m)[i])
  {
    ArtifactShort(Tids, "   ", m.tidsSha256, m.tidsSizeBytes, BETWEEN);
    ArtifactShort(Shards, " ", m.shardsSha256, m.shardsSizeBytes, CLOSE);
    ArtifactShort(Cagra, " ", m.cagraSha256, m.cagraSizeBytes, BETWEEN);
    ArtifactShort(Tids, "  ", m.tidsSha256, m.tidsSizeBytes, CLOSE);
    assert Short(Entry(Artifacts, Bare(" {\n    ")));
    hide Short, Artifact;
  }

  /** Every manifest the struct can hold prints into the 4096-byte buffer without being cut, as a C string. */
  lemma PrintFits(m: Manifest)
    requires Stored(m)
    ensures |Print(m)| < 4096 && CString(Print(m))
  {
    IdentityShort(m);
    ContentsShort(m);
    TailShort(m);
    var es := Head(m) + Tail(m);
    forall i | 0 <= i < |es| ensures |Name(es[i].key)| + 3 + |ValueText(es[i].value)| <= 98 && CString(ValueText(es[i].value)) {
      NameLength(es[i].key);
      assert Short(es[i]);
    }
    assert |es| == 19;
    hide Head, Tail, Name, Text;
    TextLength(es, 98);
  }
}
