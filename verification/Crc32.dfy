/**
 Streaming, table-driven CRC-32 against the bit-serial shift register of section 3.2.9 of
 IEEE 802.3 (reflected form, generator 0xEDB88320, register preset and complemented).
 */
module Crc32 {

  import opened Bytes

  const POLYNOMIAL: bv32 := 0xEDB8_8320

  // ---- the reference: one message bit at a time, least significant bit first ------------

  function BitStep(s: bv32, bit: bv32): bv32 {
    if (s ^ bit) & 1 == 1 then (s >> 1) ^ POLYNOMIAL else s >> 1
  }

  /** The register after the k lowest bits of w, lowest first. */
  function SerialBits(s: bv32, w: bv32, k: nat): bv32
    decreases k
  {
    if k == 0 then s else SerialBits(BitStep(s, w & 1), w >> 1, k - 1)
  }

  function SerialByte(s: bv32, b: Byte): bv32 { SerialBits(s, Word(b), 8) }

  function Serial(s: bv32, data: seq<Byte>): bv32 {
    if data == [] then s else SerialByte(Serial(s, data[..|data| - 1]), data[|data| - 1])
  }

  /** The CRC of a message. */
  function Crc(data: seq<Byte>): bv32 { Xor(Serial(0xFFFF_FFFF, data), 0xFFFF_FFFF) }

  // ---- one step of the table construction ------------------------------------------------

  function Step(c: bv32): bv32 {
    if c & 1 == 1 then POLYNOMIAL ^ (c >> 1) else c >> 1
  }

  function Steps(c: bv32, k: nat): bv32
    decreases k
  {
    if k == 0 then c else Steps(Step(c), k - 1)
  }

  /** A table entry. */
  function Step8(c: bv32): bv32 { Steps(c, 8) }

  /** Exclusive or under a name, so that proofs about many steps need not look inside. */
  function Xor(a: bv32, b: bv32): bv32 { a ^ b }

  lemma LowBitXor(a: bv32, b: bv32)
    ensures (a ^ b) & 1 == (a & 1) ^ (b & 1)
    ensures (a ^ b) >> 1 == (a >> 1) ^ (b >> 1)
    ensures a & 1 == 0 || a & 1 == 1
  {}

  lemma XorCancels(p: bv32, x: bv32, y: bv32)
    ensures (p ^ x) ^ (p ^ y) == x ^ y
    ensures (p ^ x) ^ y == p ^ (x ^ y)
    ensures x ^ (p ^ y) == p ^ (x ^ y)
  {}

  lemma StepLinear(a: bv32, b: bv32)
    ensures Step(Xor(a, b)) == Xor(Step(a), Step(b))
  {
    StepDistributes(a, b);
    hide Step;
  }

  lemma StepDistributes(a: bv32, b: bv32)
    ensures Step(a ^ b) == Step(a) ^ Step(b)
  {
    LowBitXor(a, b);
    LowBitXor(b, a);
    XorCancels(POLYNOMIAL, a >> 1, b >> 1);
  }

  lemma {:induction false} StepsLinear(a: bv32, b: bv32, k: nat)
    ensures Steps(Xor(a, b), k) == Xor(Steps(a, k), Steps(b, k))
    decreases k
  {
    hide Step, Xor;
    if k > 0 {
      StepLinear(a, b);
      StepsLinear(Step(a), Step(b), k - 1);
    }
  }

  /** The generator's top bit records which branch was taken, so a step can be undone. */
  lemma StepInjective(a: bv32, b: bv32)
    requires Step(a) == Step(b)
    ensures a == b
  {}

  lemma {:induction false} StepsInjective(a: bv32, b: bv32, k: nat)
    requires Steps(a, k) == Steps(b, k)
    ensures a == b
    decreases k
  {
    hide Step;
    if k > 0 {
      StepsInjective(Step(a), Step(b), k - 1);
      StepInjective(a, b);
    }
  }

  lemma {:induction false} StepsAdd(c: bv32, j: nat, k: nat)
    ensures Steps(Steps(c, j), k) == Steps(c, j + k)
    decreases j
  {
    hide Step;
    if j > 0 {
      StepsAdd(Step(c), j - 1, k);
    }
  }

  /** A register whose low byte is clear shifts it out unchanged. */
  lemma Step8High(a: bv32)
    requires a & 0xFF == 0
    ensures Step8(a) == a >> 8
  {
    hide Steps, Step;
    StepsAdd(a, 4, 4);
    NibbleShift(a);
    FourZeroBits(a);
    FourZeroBits(a >> 4);
  }

  lemma NibbleShift(a: bv32)
    requires a & 0xFF == 0
    ensures a & 0xF == 0 && (a >> 4) & 0xF == 0 && (a >> 4) >> 4 == a >> 8
  {}

  lemma FourZeroBits(a: bv32)
    requires a & 0xF == 0
    ensures Steps(a, 4) == a >> 4
  {
    var a1, a2, a3 := a >> 1, a >> 2, a >> 3;
    assert Step(a) == a1;
    assert Step(a1) == a2;
    assert Step(a2) == a3;
    assert Step(a3) == a >> 4;
    hide Step;
    assert Steps(a, 4) == Steps(a1, 3);
    assert Steps(a1, 3) == Steps(a2, 2);
    assert Steps(a2, 2) == Steps(a3, 1);
    assert Steps(a3, 1) == Step(a3);
  }

  lemma SplitLowByte(c: bv32)
    ensures c == Xor(c & 0xFF, c & 0xFFFF_FF00)
    ensures (c & 0xFFFF_FF00) & 0xFF == 0 && (c & 0xFFFF_FF00) >> 8 == c >> 8
  {}

  /** The table lookup form of eight steps. */
  lemma Step8Splits(c: bv32)
    ensures Step8(c) == Xor(Step8(c & 0xFF), c >> 8)
  {
    hide Step, Steps, Xor;
    var low, high := c & 0xFF, c & 0xFFFF_FF00;
    SplitLowByte(c);
    StepsLinear(low, high, 8);
    Step8High(high);
  }

  // ---- feeding bits one by one is xoring the byte in first ----------------------------------

  lemma BitFeeds(s: bv32, w: bv32)
    ensures Step(Xor(s, w)) == Xor(BitStep(s, w & 1), w >> 1)
  {
    BitMoves(s, w);
    hide Step, BitStep;
  }

  lemma BitMoves(s: bv32, w: bv32)
    ensures Step(s ^ w) == BitStep(s, w & 1) ^ (w >> 1)
  {
    LowBitXor(s, w);
    LowBitXor(s, w & 1);
    XorCancels(POLYNOMIAL, s >> 1, w >> 1);
  }

  function Halved(w: bv32, k: nat): bv32
    decreases k
  {
    if k == 0 then w else Halved(w >> 1, k - 1)
  }

  lemma {:induction false} BitsFeed(s: bv32, w: bv32, k: nat)
    ensures Steps(Xor(s, w), k) == Xor(SerialBits(s, w, k), Halved(w, k))
    decreases k
  {
    hide Step, BitStep, Xor;
    if k > 0 {
      BitFeeds(s, w);
      BitsFeed(BitStep(s, w & 1), w >> 1, k - 1);
    }
  }

  lemma SerialIsStep8(s: bv32, b: Byte)
    ensures SerialByte(s, b) == Step8(Xor(s, Word(b)))
  {
    hide Steps, SerialBits, Xor;
    BitsFeed(s, Word(b), 8);
    WordSmall(b);
    HalvedAway(Word(b));
    XorZero(SerialByte(s, b));
  }

  lemma XorZero(x: bv32)
    ensures Xor(x, 0) == x
  {}

  lemma HalvedAway(w: bv32)
    requires w & 0xFFFF_FF00 == 0
    ensures Halved(w, 8) == 0
  {
    HalvedFour(w, 8);
    HalvedFour(w >> 4, 4);
    assert (w >> 4) >> 4 == 0;
  }

  lemma HalvedFour(w: bv32, k: nat)
    requires k >= 4
    ensures Halved(w, k) == Halved(w >> 4, k - 4)
  {
    assert w >> 2 == (w >> 1) >> 1 && w >> 3 == (w >> 2) >> 1 && w >> 4 == (w >> 3) >> 1;
    assert Halved(w, k) == Halved(w >> 1, k - 1);
    assert Halved(w >> 1, k - 1) == Halved(w >> 2, k - 2);
    assert Halved(w >> 2, k - 2) == Halved(w >> 3, k - 3);
  }

  // ---- the table and the stream -----------------------------------------------------------

  class Table {
    const entries: array<bv32>
    var initialized: bool

    ghost predicate Valid()
      reads this, entries
    {
      && entries.Length == 256
      && (initialized ==> forall i: Byte :: entries[i] == Step8(Word(i)))
    }

    constructor ()
      ensures Valid() && !initialized && fresh(entries)
    {
      entries := new bv32[256](_ => 0);
      initialized := false;
    }

    method Ensure()
      requires Valid()
      modifies this, entries
      ensures Valid() && initialized
    {
      hide Word;
      if initialized { return; }
      for i := 0 to 256
        invariant entries.Length == 256 && !initialized
        invariant forall j: Byte | j < i :: entries[j] == Step8(Word(j))
      {
        var c := Word(i);
        ghost var c0 := c;
        for k := 0 to 8
          invariant Steps(c, 8 - k) == Step8(c0)
          invariant entries.Length == 256 && !initialized
          invariant forall j: Byte | j < i :: entries[j] == Step8(Word(j))
        {
          c := if c & 1 == 1 then POLYNOMIAL ^ (c >> 1) else c >> 1;
        }
        entries[i] := c;
      }
      initialized := true;
    }

    method StreamBegin() returns (crc: bv32)
      requires Valid()
      modifies this, entries
      ensures Valid() && crc == 0xFFFF_FFFF
    {
      Ensure();
      return 0xFFFF_FFFF;
    }

    /** crc32_table[(crc ^ byte) & 0xFF] ^ (crc >> 8) */
    method Feed(crc: bv32, b: Byte) returns (r: bv32)
      requires Valid() && initialized
      ensures r == SerialByte(crc, b)
    {
      hide Word, LowByte, Step8, SerialByte;
      var index := LowByte(crc ^ Word(b));
      Lookup(crc, b, index);
      r := entries[index] ^ (crc >> 8);
    }

    /** The register after a chunk is the bit-serial register after its bits. */
    method StreamUpdate(crc: bv32, data: seq<Byte>) returns (r: bv32)
      requires Valid()
      modifies this, entries
      ensures Valid() && r == Serial(crc, data)
    {
      hide Word;
      Ensure();
      r := crc;
      for i := 0 to |data|
        invariant Valid() && initialized
        invariant r == Serial(crc, data[..i])
      {
        r := Feed(r, data[i]);
        assert data[..i + 1][..i] == data[..i];
      }
      assert data[..|data|] == data;
    }

    method StreamEnd(crc: bv32) returns (r: bv32)
      ensures r == Xor(crc, 0xFFFF_FFFF)
    {
      return crc ^ 0xFFFF_FFFF;
    }

    method Checksum(data: seq<Byte>) returns (r: bv32)
      requires Valid()
      modifies this, entries
      ensures Valid() && r == Crc(data)
    {
      var s := StreamBegin();
      s := StreamUpdate(s, data);
      r := StreamEnd(s);
    }
  }

  /** One table step of the stream feeds the eight bits of a byte. */
  lemma Lookup(s: bv32, b: Byte, index: Byte)
    requires index == LowByte(s ^ Word(b))
    ensures Step8(Word(index)) ^ (s >> 8) == SerialByte(s, b)
  {
    hide Step8, SerialByte, Word, LowByte;
    var c := Xor(s, Word(b));
    assert c == s ^ Word(b);
    LowByteWord(c);
    WordSmall(b);
    ShiftedOut(s, Word(b));
    Step8Splits(c);
    SerialIsStep8(s, b);
  }

  lemma ShiftedOut(s: bv32, w: bv32)
    requires w & 0xFFFF_FF00 == 0
    ensures (s ^ w) >> 8 == s >> 8
  {}

  // ---- chunking ---------------------------------------------------------------------------

  lemma SerialOfNothing(s: bv32)
    ensures Serial(s, []) == s
  {}

  lemma {:induction false} SerialConcat(s: bv32, a: seq<Byte>, b: seq<Byte>)
    ensures Serial(Serial(s, a), b) == Serial(s, a + b)
  {
    hide SerialByte;
    if b == [] {
      assert a + b == a;
    } else {
      SerialConcat(s, a, b[..|b| - 1]);
      assert (a + b)[..|a + b| - 1] == a + b[..|b| - 1];
    }
  }

  function Joined(chunks: seq<seq<Byte>>): seq<Byte> {
    if chunks == [] then [] else Joined(chunks[..|chunks| - 1]) + chunks[|chunks| - 1]
  }

  /** Streaming over any chunking of a message gives the message's CRC. */
  method StreamChunks(t: Table, chunks: seq<seq<Byte>>) returns (crc: bv32)
    requires t.Valid()
    modifies t, t.entries
    ensures t.Valid() && crc == Crc(Joined(chunks))
  {
    hide Word;
    var s := t.StreamBegin();
    for i := 0 to |chunks|
      invariant t.Valid() && s == Serial(0xFFFF_FFFF, Joined(chunks[..i]))
    {
      SerialConcat(0xFFFF_FFFF, Joined(chunks[..i]), chunks[i]);
      s := t.StreamUpdate(s, chunks[i]);
      assert chunks[..i + 1][..i] == chunks[..i];
    }
    assert chunks[..|chunks|] == chunks;
    crc := t.StreamEnd(s);
  }

  // ---- error detection: every step is a bijection of the register ---------------------------

  lemma XorInjective(s: bv32, t: bv32, w: bv32)
    requires Xor(s, w) == Xor(t, w)
    ensures s == t
  {}

  lemma {:induction false} SerialInjective(s: bv32, t: bv32, data: seq<Byte>)
    requires Serial(s, data) == Serial(t, data)
    ensures s == t
  {
    if data != [] {
      hide SerialByte, Steps, Xor, Word;
      var front, b := data[..|data| - 1], data[|data| - 1];
      SerialIsStep8(Serial(s, front), b);
      SerialIsStep8(Serial(t, front), b);
      StepsInjective(Xor(Serial(s, front), Word(b)), Xor(Serial(t, front), Word(b)), 8);
      XorInjective(Serial(s, front), Serial(t, front), Word(b));
      SerialInjective(s, t, front);
    }
  }

  /** One byte position up, and whether that loses nothing; named like Xor. */
  function Up(w: bv32): bv32 { w << 8 }
  predicate TopClear(w: bv32) { w & 0xFF00_0000 == 0 }

  lemma UpDown(w: bv32)
    requires TopClear(w)
    ensures Up(w) & 0xFF == 0 && Up(w) >> 8 == w
  {}

  /** A word fed after eight steps could have been fed before them, one byte higher. */
  lemma FoldBack(x: bv32, w: bv32)
    requires TopClear(w)
    ensures Xor(Step8(x), w) == Step8(Xor(x, Up(w)))
  {
    UpDown(w);
    hide Steps, Xor, Up;
    Step8High(Up(w));
    StepsLinear(x, Up(w), 8);
  }

  lemma RoomAbove(b: Byte)
    ensures TopClear(Word(b)) && TopClear(Up(Word(b))) && TopClear(Up(Up(Word(b))))
  {
    WordSmall(b);
    RoomAboveWord(Word(b));
  }

  lemma RoomAboveWord(w: bv32)
    requires w & 0xFFFF_FF00 == 0
    ensures TopClear(w) && TopClear(Up(w)) && TopClear(Up(Up(w)))
  {}

  /** Four bytes as one little-endian word. */
  function Le(w: seq<Byte>): bv32
    requires |w| == 4
  {
    Xor(Xor(Xor(Word(w[0]), Up(Word(w[1]))), Up(Up(Word(w[2])))), Up(Up(Up(Word(w[3])))))
  }

  lemma XorAssoc(a: bv32, b: bv32, c: bv32)
    ensures Xor(Xor(a, b), c) == Xor(a, Xor(b, c))
  {}

  /** Four bytes act on the register as thirty-two steps of the register xor one word. */
  lemma FourBytes(s: bv32, w: seq<Byte>)
    requires |w| == 4
    ensures Serial(s, w) == Step8(Step8(Step8(Step8(Xor(s, Le(w))))))
  {
    hide SerialByte, Steps, Xor, Word, Step8, Up, TopClear;
    var w0, w1, w2, w3 := Word(w[0]), Word(w[1]), Word(w[2]), Word(w[3]);
    RoomAbove(w[1]);
    RoomAbove(w[2]);
    RoomAbove(w[3]);
    SerialFour(s, w);
    var x1 := Xor(s, w0);
    FoldBack(x1, w1);
    var x2 := Xor(x1, Up(w1));
    FoldBack(Step8(x2), w2);
    FoldBack(x2, Up(w2));
    var x3 := Xor(x2, Up(Up(w2)));
    FoldBack(Step8(Step8(x3)), w3);
    FoldBack(Step8(x3), Up(w3));
    FoldBack(x3, Up(Up(w3)));
    XorAssoc(s, w0, Up(w1));
    XorAssoc(s, Xor(w0, Up(w1)), Up(Up(w2)));
    XorAssoc(s, Xor(Xor(w0, Up(w1)), Up(Up(w2))), Up(Up(Up(w3))));
  }

  lemma SerialNext(s: bv32, data: seq<Byte>, b: Byte)
    ensures Serial(s, data + [b]) == Step8(Xor(Serial(s, data), Word(b)))
  {
    hide SerialByte, Steps, Xor, Word;
    assert (data + [b])[..|data + [b]| - 1] == data;
    SerialIsStep8(Serial(s, data), b);
  }

  lemma SerialFour(s: bv32, w: seq<Byte>)
    requires |w| == 4
    ensures Serial(s, w) == Step8(Xor(Step8(Xor(Step8(Xor(Step8(Xor(s, Word(w[0]))), Word(w[1]))), Word(w[2]))), Word(w[3])))
  {
    hide SerialByte, Steps, Xor, Word, Step8;
    assert Serial(s, w[..0]) == s;
    hide Serial;
    SerialNext(s, w[..0], w[0]);
    SerialNext(s, w[..1], w[1]);
    SerialNext(s, w[..2], w[2]);
    SerialNext(s, w[..3], w[3]);
    assert w[..1] == w[..0] + [w[0]];
    assert w[..2] == w[..1] + [w[1]];
    assert w[..3] == w[..2] + [w[2]];
    assert w == w[..3] + [w[3]];
  }

  lemma LeInjective(x: seq<Byte>, y: seq<Byte>)
    requires |x| == 4 && |y| == 4 && Le(x) == Le(y)
    ensures x == y
  {
    hide Word, Xor, Up;
    forall b: Byte ensures Word(b) & 0xFFFF_FF00 == 0 { WordSmall(b); }
    LePieces(Word(x[0]), Word(x[1]), Word(x[2]), Word(x[3]), Word(y[0]), Word(y[1]), Word(y[2]), Word(y[3]));
    WordInjective(x[0], y[0]);
    WordInjective(x[1], y[1]);
    WordInjective(x[2], y[2]);
    WordInjective(x[3], y[3]);
  }

  lemma LePieces(a0: bv32, a1: bv32, a2: bv32, a3: bv32, b0: bv32, b1: bv32, b2: bv32, b3: bv32)
    requires a0 & 0xFFFF_FF00 == 0 && a1 & 0xFFFF_FF00 == 0 && a2 & 0xFFFF_FF00 == 0 && a3 & 0xFFFF_FF00 == 0
    requires b0 & 0xFFFF_FF00 == 0 && b1 & 0xFFFF_FF00 == 0 && b2 & 0xFFFF_FF00 == 0 && b3 & 0xFFFF_FF00 == 0
    requires Xor(Xor(Xor(a0, Up(a1)), Up(Up(a2))), Up(Up(Up(a3)))) == Xor(Xor(Xor(b0, Up(b1)), Up(Up(b2))), Up(Up(Up(b3))))
    ensures a0 == b0 && a1 == b1 && a2 == b2 && a3 == b3
  {}

  lemma FourBytesDistinct(s: bv32, x: seq<Byte>, y: seq<Byte>)
    requires |x| == 4 && |y| == 4 && Serial(s, x) == Serial(s, y)
    ensures x == y
  {
    hide Serial, Steps, Xor, Le;
    FourBytes(s, x);
    FourBytes(s, y);
    var p, q := Xor(s, Le(x)), Xor(s, Le(y));
    StepsInjective(Step8(Step8(Step8(p))), Step8(Step8(Step8(q))), 8);
    StepsInjective(Step8(Step8(p)), Step8(Step8(q)), 8);
    StepsInjective(Step8(p), Step8(q), 8);
    StepsInjective(p, q, 8);
    XorLeftInjective(s, Le(x), Le(y));
    LeInjective(x, y);
  }

  lemma XorLeftInjective(s: bv32, a: bv32, b: bv32)
    requires Xor(s, a) == Xor(s, b)
    ensures a == b
  {}

  /** A register tells apart any two windows of up to four bytes. */
  lemma WindowDistinct(s: bv32, x: seq<Byte>, y: seq<Byte>)
    requires |x| == |y| <= 4 && Serial(s, x) == Serial(s, y)
    ensures x == y
  {
    hide Serial;
    var pad: seq<Byte> := seq(4 - |x|, _ => 0);
    SerialConcat(s, x, pad);
    SerialConcat(s, y, pad);
    FourBytesDistinct(s, x + pad, y + pad);
    assert x == (x + pad)[..|x|] == (y + pad)[..|x|] == y;
  }

  lemma CrcEqual(a: seq<Byte>, b: seq<Byte>)
    requires Crc(a) == Crc(b)
    ensures Serial(0xFFFF_FFFF, a) == Serial(0xFFFF_FFFF, b)
  {
    hide Serial, Xor;
    XorInjective(Serial(0xFFFF_FFFF, a), Serial(0xFFFF_FFFF, b), 0xFFFF_FFFF);
  }

  /** Two messages of one length that differ only inside a window of four bytes never share a CRC. */
  lemma WindowDetected(before: seq<Byte>, x: seq<Byte>, y: seq<Byte>, after: seq<Byte>)
    requires |x| == |y| <= 4 && x != y
    ensures Crc(before + x + after) != Crc(before + y + after)
  {
    hide Serial, Crc;
    if Crc(before + x + after) == Crc(before + y + after) {
      var s := Serial(0xFFFF_FFFF, before);
      CrcEqual(before + x + after, before + y + after);
      SerialConcat(0xFFFF_FFFF, before, x);
      SerialConcat(0xFFFF_FFFF, before, y);
      SerialConcat(0xFFFF_FFFF, before + x, after);
      SerialConcat(0xFFFF_FFFF, before + y, after);
      SerialInjective(Serial(s, x), Serial(s, y), after);
      WindowDistinct(s, x, y);
    }
  }

  // ---- the standard's check value --------------------------------------------------------

  lemma EightSteps(c: bv32)
    ensures Step8(c) == Step(Step(Step(Step(Step(Step(Step(Step(c))))))))
  {
    hide Step;
    assert Steps(c, 8) == Steps(Step(Step(c)), 6);
    assert Steps(Step(Step(c)), 6) == Steps(Step(Step(Step(Step(c)))), 4);
  }

  /** What eight steps make of the register and each digit in turn. */
  lemma DigitSteps()
    ensures Step8(0xFFFF_FFCE) == 0x7C23_1048
    ensures Step8(0x7C23_107A) == 0xB0AC_BB32
    ensures Step8(0xB0AC_BB01) == 0x77B7_9C2D
    ensures Step8(0x77B7_9C19) == 0x641C_1F5C
    ensures Step8(0x641C_1F69) == 0x340A_C5E3
    ensures Step8(0x340A_C5D5) == 0xF68D_2C9E
    ensures Step8(0xF68D_2CA9) == 0xAFFC_9660
    ensures Step8(0xAFFC_9658) == 0x651F_2550
    ensures Step8(0x651F_2569) == 0x340B_C6D9
  {
    EightSteps(0xFFFF_FFCE);
    EightSteps(0x7C23_107A);
    EightSteps(0xB0AC_BB01);
    EightSteps(0x77B7_9C19);
    EightSteps(0x641C_1F69);
    EightSteps(0x340A_C5D5);
    EightSteps(0xF68D_2CA9);
    EightSteps(0xAFFC_9658);
    EightSteps(0x651F_2569);
    hide Step8;
  }

  /** The register of the first n digits, and its next. */
  lemma Appended(n: nat, before: bv32)
    requires n < 9 && Serial(0xFFFF_FFFF, Digits(n)) == before
    ensures Serial(0xFFFF_FFFF, Digits(n + 1)) == Step8(Xor(before, Word(0x31 + n)))
  {
    hide Word, Step8;
    SerialNext(0xFFFF_FFFF, Digits(n), 0x31 + n);
  }

  /** The ASCII digits from 1 to n. */
  function Digits(n: nat): seq<Byte>
    requires n <= 9
  {
    if n == 0 then [] else Digits(n - 1) + [0x30 + n]
  }

  /** The CRC of the digits 1 to 9 is the published check value. */
  lemma CheckValue()
    ensures Crc(Digits(9)) == 0xCBF4_3926
  {
    SerialOfNothing(0xFFFF_FFFF);
    assert Digits(0) == [];
    DigitSteps();
    DigitWords();
    hide Serial, Digits, Step8, Word;
    Appended(0, 0xFFFF_FFFF);
    Appended(1, 0x7C23_1048);
    Appended(2, 0xB0AC_BB32);
    Appended(3, 0x77B7_9C2D);
    Appended(4, 0x641C_1F5C);
    Appended(5, 0x340A_C5E3);
    Appended(6, 0xF68D_2C9E);
    Appended(7, 0xAFFC_9660);
    Appended(8, 0x651F_2550);
  }

  lemma DigitWords()
    ensures Word(0x31) == 0x31 && Word(0x32) == 0x32 && Word(0x33) == 0x33 && Word(0x34) == 0x34 && Word(0x35) == 0x35
    ensures Word(0x36) == 0x36 && Word(0x37) == 0x37 && Word(0x38) == 0x38 && Word(0x39) == 0x39
  {
    WordOfZero();
    hide Word;
    WordDoubles(0x1);
    WordDoubles(0x3);
    WordDoubles(0x6);
    WordDoubles(0x7);
    WordDoubles(0xc);
    WordDoubles(0xd);
    WordDoubles(0xe);
    WordDoubles(0x18);
    WordDoubles(0x19);
    WordDoubles(0x1a);
    WordDoubles(0x1b);
    WordDoubles(0x1c);
    WordDoubles(0x31);
    WordDoubles(0x32);
    WordDoubles(0x33);
    WordDoubles(0x34);
    WordDoubles(0x35);
    WordDoubles(0x36);
    WordDoubles(0x37);
    WordDoubles(0x38);
    WordDoubles(0x39);
  }
}
