/** Little-endian integers, and a byte stream that may run out of room. */
module Codec {
  import opened Bytes

  function Pow256(w: nat): (p: nat)
    ensures p >= 1
  {
    if w == 0 then 1 else 256 * Pow256(w - 1)
  }

  /** n in w bytes, least significant first; higher digits are cut off. */
  function Le(n: nat, w: nat): (b: seq<Byte>)
    ensures |b| == w
  {
    if w == 0 then [] else [n % 256] + Le(n / 256, w - 1)
  }

  function Value(b: seq<Byte>): nat {
    if b == [] then 0 else b[0] + 256 * Value(b[1..])
  }

  lemma {:induction false} ValueOfLe(n: nat, w: nat)
    requires n < Pow256(w)
    ensures Value(Le(n, w)) == n
  {
    if w > 0 {
      ValueOfLe(n / 256, w - 1);
      assert Le(n, w)[1..] == Le(n / 256, w - 1);
    }
  }

  /** Byte i counts 256^i. */
  lemma LittleEndian(a: Byte, b: Byte, c: Byte, d: Byte, rest: seq<Byte>)
    ensures Value([a, b, c, d] + rest) == a + 0x100 * b + 0x1_0000 * c + 0x100_0000 * d + 0x1_0000_0000 * Value(rest)
  {
    ValueNext(a, [b, c, d] + rest);
    ValueNext(b, [c, d] + rest);
    ValueNext(c, [d] + rest);
    ValueNext(d, rest);
    assert [a] + ([b, c, d] + rest) == [a, b, c, d] + rest;
    assert [b] + ([c, d] + rest) == [b, c, d] + rest;
    assert [c] + ([d] + rest) == [c, d] + rest;
  }

  lemma ValueNext(a: Byte, rest: seq<Byte>)
    ensures Value([a] + rest) == a + 256 * Value(rest)
  {
    assert ([a] + rest)[1..] == rest;
  }

  lemma {:induction false} LeOfValue(b: seq<Byte>)
    ensures Value(b) < Pow256(|b|) && Le(Value(b), |b|) == b
  {
    if b != [] {
      LeOfValue(b[1..]);
      assert Value(b) % 256 == b[0] && Value(b) / 256 == Value(b[1..]);
    }
  }

  lemma Widths()
    ensures Pow256(4) == 0x1_0000_0000 && Pow256(8) == 0x1_0000_0000_0000_0000
  {
    assert Pow256(4) == 0x1_0000_0000;
  }

  const U32: nat := 0x1_0000_0000
  const U64: nat := 0x1_0000_0000_0000_0000

  function Le32(n: nat): (b: seq<Byte>)
    ensures |b| == 4
  {
    Le(n, 4)
  }

  lemma FourLetters(a: Byte, b: Byte, c: Byte, d: Byte)
    ensures Le32(a + 0x100 * b + 0x1_0000 * c + 0x100_0000 * d) == [a, b, c, d]
  {
    var n := a + 0x100 * b + 0x1_0000 * c + 0x100_0000 * d;
    Widths();
    LittleEndian(a, b, c, d, []);
    assert [a, b, c, d] + [] == [a, b, c, d] && n < U32;
    LeOfValue([a, b, c, d]);
  }

  /** A signed 64-bit value in two's complement. */
  function Le64(n: int): (b: seq<Byte>)
    ensures |b| == 8
  {
    Le(n % U64, 8)
  }

  function Get32(b: seq<Byte>, at: nat): nat
    requires at + 4 <= |b|
  {
    Value(b[at..at + 4])
  }

  function Get64(b: seq<Byte>, at: nat): int
    requires at + 8 <= |b|
  {
    var u := Value(b[at..at + 8]);
    if u < 0x8000_0000_0000_0000 then u else u - U64
  }

  predicate IsInt64(n: int) { -0x8000_0000_0000_0000 <= n < 0x8000_0000_0000_0000 }

  lemma Read32(b: seq<Byte>, at: nat, n: nat)
    requires n < U32 && at + 4 <= |b| && b[at..at + 4] == Le32(n)
    ensures Get32(b, at) == n
  {
    Widths();
    ValueOfLe(n, 4);
  }

  lemma Read64(b: seq<Byte>, at: nat, n: int)
    requires IsInt64(n) && at + 8 <= |b| && b[at..at + 8] == Le64(n)
    ensures Get64(b, at) == n
  {
    Widths();
    ValueOfLe(n % U64, 8);
  }

  lemma FourBytes(file: seq<Byte>, at: nat)
    requires at + 4 <= |file|
    ensures file[at..at + 4] == Le32(Get32(file, at)) && Get32(file, at) < U32
  {
    hide Le, Value;
    Widths();
    LeOfValue(file[at..at + 4]);
  }

  lemma EightBytes(file: seq<Byte>, at: nat)
    requires at + 8 <= |file|
    ensures file[at..at + 8] == Le64(Get64(file, at))
  {
    hide Le, Value;
    Widths();
    LeOfValue(file[at..at + 8]);
    var u := Value(file[at..at + 8]);
    assert (u - U64) % U64 == u % U64 == u;
  }

  lemma SameWord(a: nat, b: nat)
    requires a < U32 && b < U32 && Le32(a) == Le32(b)
    ensures a == b
  {
    Read32(Le32(a), 0, a);
    Read32(Le32(b), 0, b);
  }

  /** What ftruncate makes of a file: cut, or extended with zeros. */
  function Resized(b: seq<Byte>, size: nat): (r: seq<Byte>)
    ensures |r| == size && forall i | 0 <= i < |b| && i < size :: r[i] == b[i]
    ensures forall i | |b| <= i < size :: r[i] == 0
  {
    if |b| >= size then b[..size] else b + seq(size - |b|, _ => 0)
  }

  // ---- output streams ---------------------------------------------------------------------

  /** What of data reaches a stream with room for `room` more bytes. */
  function Fitting(data: seq<Byte>, room: nat): (f: seq<Byte>)
    ensures |f| == if |data| <= room then |data| else room
  {
    if |data| <= room then data else data[..room]
  }

  class Stream {
    var bytes: seq<Byte>
    var room: nat

    constructor (room: nat)
      ensures bytes == [] && this.room == room
    {
      bytes, this.room := [], room;
    }

    /** fwrite: everything, or a prefix and a short count. */
    method Write(data: seq<Byte>) returns (ok: bool)
      modifies this
      ensures bytes == old(bytes) + Fitting(data, old(room))
      ensures room == old(room) - |Fitting(data, old(room))|
      ensures ok <==> |data| <= old(room)
    {
      bytes := bytes + Fitting(data, room);
      ok := |data| <= room;
      room := room - |Fitting(data, room)|;
    }

    /** A header and a body, the body only if the header was complete. */
    method WriteBoth(header: seq<Byte>, body: seq<Byte>) returns (ok: bool)
      modifies this
      ensures bytes == old(bytes) + Fitting(header + body, old(room))
      ensures ok <==> |header| + |body| <= old(room)
    {
      AppendSplit(bytes, header, body, room);
      hide Fitting;
      ok := Write(header);
      if ok { ok := Write(body); }
    }
  }

  /** Two writes, the second only if the first was complete, put down what one write would. */
  lemma FittingSplit(a: seq<Byte>, b: seq<Byte>, room: nat)
    ensures |a| <= room ==> Fitting(a + b, room) == a + Fitting(b, room - |a|)
    ensures |a| > room ==> Fitting(a + b, room) == Fitting(a, room)
  {
    if |a| > room {
      assert (a + b)[..room] == a[..room];
    } else if |a + b| > room {
      assert (a + b)[..room] == a + b[..room - |a|];
    }
  }

  /** The same on a stream that already holds `before`. */
  lemma AppendSplit(before: seq<Byte>, a: seq<Byte>, b: seq<Byte>, room: nat)
    ensures |a| <= room ==> before + Fitting(a + b, room) == before + Fitting(a, room) + Fitting(b, room - |a|)
    ensures |a| > room ==> before + Fitting(a + b, room) == before + Fitting(a, room)
  {
    FittingSplit(a, b, room);
    if |a| <= room {
      assert Fitting(a, room) == a;
      hide Fitting;
      assert before + (a + Fitting(b, room - |a|)) == before + a + Fitting(b, room - |a|);
    }
  }
}
