/** Bytes as small naturals, and their bit patterns. */
module Bytes {

  type Byte = n: nat | n < 256

  /** Eight binary digits, the lowest first, as a register and as a number. */
  function Pattern(d0: bool, d1: bool, d2: bool, d3: bool, d4: bool, d5: bool, d6: bool, d7: bool): bv32 {
    (if d0 then 1 else 0) | (if d1 then 2 else 0) | (if d2 then 4 else 0) | (if d3 then 8 else 0)
    | (if d4 then 16 else 0) | (if d5 then 32 else 0) | (if d6 then 64 else 0) | (if d7 then 128 else 0)
  }

  function Twice(d: bool, rest: nat): (n: nat)
    ensures n / 2 == rest && (n % 2 == 1 <==> d)
  {
    2 * rest + if d then 1 else 0
  }

  function Total(d0: bool, d1: bool, d2: bool, d3: bool, d4: bool, d5: bool, d6: bool, d7: bool): Byte {
    var high := Twice(d4, Twice(d5, Twice(d6, Twice(d7, 0))));
    assert high < 16;
    Twice(d0, Twice(d1, Twice(d2, Twice(d3, high))))
  }

  /** The byte zero-extended to 32 bits. */
  function Word(b: Byte): bv32 {
    var b1 := b / 2; var b2 := b1 / 2; var b3 := b2 / 2; var b4 := b3 / 2; var b5 := b4 / 2; var b6 := b5 / 2;
    Pattern(b % 2 == 1, b1 % 2 == 1, b2 % 2 == 1, b3 % 2 == 1, b4 % 2 == 1, b5 % 2 == 1, b6 % 2 == 1, b6 / 2 % 2 == 1)
  }

  /** The lowest eight bits as a number. */
  function LowByte(w: bv32): Byte {
    Total(w & 1 != 0, w & 2 != 0, w & 4 != 0, w & 8 != 0, w & 16 != 0, w & 32 != 0, w & 64 != 0, w & 128 != 0)
  }

  lemma PatternDigits(d0: bool, d1: bool, d2: bool, d3: bool, d4: bool, d5: bool, d6: bool, d7: bool)
    ensures var w := Pattern(d0, d1, d2, d3, d4, d5, d6, d7);
      && (w & 1 != 0 <==> d0) && (w & 2 != 0 <==> d1) && (w & 4 != 0 <==> d2) && (w & 8 != 0 <==> d3)
      && (w & 16 != 0 <==> d4) && (w & 32 != 0 <==> d5) && (w & 64 != 0 <==> d6) && (w & 128 != 0 <==> d7)
      && w & 0xFFFF_FF00 == 0 && w & 0xFF == w
  {}

  lemma DigitsPattern(w: bv32)
    ensures Pattern(w & 1 != 0, w & 2 != 0, w & 4 != 0, w & 8 != 0, w & 16 != 0, w & 32 != 0, w & 64 != 0, w & 128 != 0)
              == w & 0xFF
  {}

  lemma Rejoined(n: nat)
    ensures Twice(n % 2 == 1, n / 2) == n
  {}

  /** A byte is the number of its digits. */
  lemma ByteDigits(b: Byte)
    ensures var b1 := b / 2; var b2 := b1 / 2; var b3 := b2 / 2; var b4 := b3 / 2; var b5 := b4 / 2; var b6 := b5 / 2;
            Total(b % 2 == 1, b1 % 2 == 1, b2 % 2 == 1, b3 % 2 == 1, b4 % 2 == 1, b5 % 2 == 1, b6 % 2 == 1, b6 / 2 % 2 == 1) == b
  {
    var b1 := b / 2; var b2 := b1 / 2; var b3 := b2 / 2; var b4 := b3 / 2; var b5 := b4 / 2; var b6 := b5 / 2;
    Rejoined(b6 / 2);
    Rejoined(b6);
    Rejoined(b5);
    Rejoined(b4);
    Rejoined(b3);
    Rejoined(b2);
    Rejoined(b1);
    Rejoined(b);
    assert b6 / 2 / 2 == 0;
    hide Twice;
  }

  /** A byte goes through its word unchanged. */
  lemma WordLowByte(b: Byte)
    ensures LowByte(Word(b)) == b
  {
    hide Pattern, Total;
    var b1 := b / 2; var b2 := b1 / 2; var b3 := b2 / 2; var b4 := b3 / 2; var b5 := b4 / 2; var b6 := b5 / 2;
    PatternDigits(b % 2 == 1, b1 % 2 == 1, b2 % 2 == 1, b3 % 2 == 1, b4 % 2 == 1, b5 % 2 == 1, b6 % 2 == 1, b6 / 2 % 2 == 1);
    ByteDigits(b);
  }

  /** The word is the byte's number: twice the word of its half, and one more for an odd byte. */
  lemma WordDoubles(b: Byte)
    ensures Word(b) == Word(b / 2) + Word(b / 2) + if b % 2 == 1 then 1 else 0
  {
    var b1 := b / 2; var b2 := b1 / 2; var b3 := b2 / 2; var b4 := b3 / 2; var b5 := b4 / 2; var b6 := b5 / 2;
    WholeWord(b);
    HalfWord(b);
    hide Pattern, Word;
    PatternDoubles(b % 2 == 1, b1 % 2 == 1, b2 % 2 == 1, b3 % 2 == 1, b4 % 2 == 1, b5 % 2 == 1, b6 % 2 == 1, b6 / 2 % 2 == 1);
  }

  lemma WordOfZero()
    ensures Word(0) == 0
  {}

  lemma WholeWord(b: Byte)
    ensures var b1 := b / 2; var b2 := b1 / 2; var b3 := b2 / 2; var b4 := b3 / 2; var b5 := b4 / 2; var b6 := b5 / 2;
            Word(b) == Pattern(b % 2 == 1, b1 % 2 == 1, b2 % 2 == 1, b3 % 2 == 1, b4 % 2 == 1, b5 % 2 == 1, b6 % 2 == 1, b6 / 2 % 2 == 1)
  {}

  lemma HalfWord(b: Byte)
    ensures var b1 := b / 2; var b2 := b1 / 2; var b3 := b2 / 2; var b4 := b3 / 2; var b5 := b4 / 2; var b6 := b5 / 2;
            Word(b / 2) == Pattern(b1 % 2 == 1, b2 % 2 == 1, b3 % 2 == 1, b4 % 2 == 1, b5 % 2 == 1, b6 % 2 == 1, b6 / 2 % 2 == 1, false)
  {
    hide Pattern;
    assert b / 2 / 2 / 2 / 2 / 2 / 2 / 2 / 2 == 0;
  }

  lemma PatternDoubles(d0: bool, d1: bool, d2: bool, d3: bool, d4: bool, d5: bool, d6: bool, d7: bool)
    ensures Pattern(d0, d1, d2, d3, d4, d5, d6, d7)
              == Pattern(d1, d2, d3, d4, d5, d6, d7, false) + Pattern(d1, d2, d3, d4, d5, d6, d7, false) + if d0 then 1 else 0
  {}

  lemma WordInjective(a: Byte, b: Byte)
    requires Word(a) == Word(b)
    ensures a == b
  {
    hide Word, LowByte;
    WordLowByte(a);
    WordLowByte(b);
  }

  lemma WordSmall(b: Byte)
    ensures Word(b) & 0xFFFF_FF00 == 0 && Word(b) & 0xFF == Word(b)
  {
    var b1 := b / 2; var b2 := b1 / 2; var b3 := b2 / 2; var b4 := b3 / 2; var b5 := b4 / 2; var b6 := b5 / 2;
    PatternDigits(b % 2 == 1, b1 % 2 == 1, b2 % 2 == 1, b3 % 2 == 1, b4 % 2 == 1, b5 % 2 == 1, b6 % 2 == 1, b6 / 2 % 2 == 1);
    hide Pattern;
  }

  /** Using a register's low byte as a number loses nothing of it. */
  lemma LowByteWord(w: bv32)
    ensures Word(LowByte(w)) == w & 0xFF
  {
    DigitsPattern(w);
    hide Pattern, Twice;
  }

  /** A register as four bytes, least significant first, and back. */
  function PutRegister(x: bv32): (b: seq<Byte>)
    ensures |b| == 4
  {
    [LowByte(x), LowByte(x >> 8), LowByte(x >> 16), LowByte(x >> 24)]
  }

  function Combine(a: bv32, b: bv32, c: bv32, d: bv32): bv32 { a | (b << 8) | (c << 16) | (d << 24) }

  function GetRegister(b: seq<Byte>): bv32
    requires |b| == 4
  {
    Combine(Word(b[0]), Word(b[1]), Word(b[2]), Word(b[3]))
  }

  lemma RegisterRoundTrip(x: bv32)
    ensures GetRegister(PutRegister(x)) == x
  {
    hide Word, LowByte, Combine;
    LowByteWord(x);
    LowByteWord(x >> 8);
    LowByteWord(x >> 16);
    LowByteWord(x >> 24);
    Reassemble(x);
  }

  lemma Reassemble(x: bv32)
    ensures Combine(x & 0xFF, (x >> 8) & 0xFF, (x >> 16) & 0xFF, (x >> 24) & 0xFF) == x
  {}

  /** Any four bytes are those of their register. */
  lemma RegisterBytes(b: seq<Byte>)
    requires |b| == 4
    ensures PutRegister(GetRegister(b)) == b
  {
    hide Word, LowByte, Combine;
    forall i | 0 <= i < 4 ensures Word(b[i]) & 0xFF == Word(b[i]) { WordSmall(b[i]); }
    Disassemble(Word(b[0]), Word(b[1]), Word(b[2]), Word(b[3]));
    SameLowByte(GetRegister(b), b[0]);
    SameLowByte(GetRegister(b) >> 8, b[1]);
    SameLowByte(GetRegister(b) >> 16, b[2]);
    SameLowByte(GetRegister(b) >> 24, b[3]);
  }

  lemma Disassemble(a: bv32, b: bv32, c: bv32, d: bv32)
    requires a & 0xFF == a && b & 0xFF == b && c & 0xFF == c && d & 0xFF == d
    ensures var x := Combine(a, b, c, d);
            x & 0xFF == a && (x >> 8) & 0xFF == b && (x >> 16) & 0xFF == c && (x >> 24) & 0xFF == d
  {}

  lemma SameLowByte(w: bv32, b: Byte)
    requires w & 0xFF == Word(b)
    ensures LowByte(w) == b
  {
    hide Word, LowByte;
    LowByteWord(w);
    WordInjective(LowByte(w), b);
  }
}
