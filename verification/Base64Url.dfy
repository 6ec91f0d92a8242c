/**
 Base64url as two passes over one buffer, against the strict decoder of section 5 of RFC 4648:
 the first pass writes whole quartets with placeholders for padding, the second squeezes the
 placeholders out in place.
 */
module Base64Url {
  import opened Bytes

  /** The 64 digits in order. */
  const ALPHABET: string :=
    "ABCDEFGHIJKLM" + "NOPQRSTUVWXYZ" + "abcdefghijklm" + "nopqrstuvwxyz" + "0123456789" + "-_"
  const PLACEHOLDER: char := '\0'

  type Sextet = n: nat | n < 64

  function Digit(d: Sextet): (c: char)
    ensures ValueOf(c) == d
  {
    DigitValue(d);
    ALPHABET[d]
  }

  /** The value of a digit, or -1 for a character outside the URL-safe alphabet. */
  function ValueOf(c: char): (v: int)
    ensures -1 <= v < 64
  {
    if 'A' <= c <= 'Z' then c as int - 'A' as int
    else if 'a' <= c <= 'z' then c as int - 'a' as int + 26
    else if '0' <= c <= '9' then c as int - '0' as int + 52
    else if c == '-' then 62
    else if c == '_' then 63
    else -1
  }

  /** A run of digits with consecutive values. */
  predicate Consecutive(s: string, first: nat) {
    forall i | 0 <= i < |s| :: ValueOf(s[i]) == first + i
  }

  lemma ConsecutiveConcat(s: string, t: string, first: nat)
    requires Consecutive(s, first) && Consecutive(t, first + |s|)
    ensures Consecutive(s + t, first)
  {
    hide ValueOf;
  }

  lemma UpperRun()
    ensures Consecutive("ABCDEFGHIJKLM", 0) && Consecutive("NOPQRSTUVWXYZ", 13)
  {}

  lemma LowerRun()
    ensures Consecutive("abcdefghijklm", 26) && Consecutive("nopqrstuvwxyz", 39)
  {}

  lemma LastRun()
    ensures Consecutive("0123456789", 52) && Consecutive("-_", 62)
  {}

  lemma DigitValue(d: Sextet)
    ensures |ALPHABET| == 64 && ValueOf(ALPHABET[d]) == d
  {
    AlphabetRun();
    assert Consecutive(ALPHABET, 0);
    hide ValueOf;
  }

  lemma AlphabetRun()
    ensures |ALPHABET| == 64 && Consecutive(ALPHABET, 0)
  {
    UpperRun();
    LowerRun();
    LastRun();
    hide Consecutive;
    var s := "ABCDEFGHIJKLM" + "NOPQRSTUVWXYZ";
    ConsecutiveConcat("ABCDEFGHIJKLM", "NOPQRSTUVWXYZ", 0);
    ConsecutiveConcat(s, "abcdefghijklm", 0);
    ConsecutiveConcat(s + "abcdefghijklm", "nopqrstuvwxyz", 0);
    ConsecutiveConcat(s + "abcdefghijklm" + "nopqrstuvwxyz", "0123456789", 0);
    ConsecutiveConcat(s + "abcdefghijklm" + "nopqrstuvwxyz" + "0123456789", "-_", 0);
  }

  // ---- the first pass ------------------------------------------------------------------------------------

  /** Three bytes from i on, missing ones zero, as 24 bits. */
  function Group(b: seq<Byte>, i: nat): (v: nat)
    requires i < |b|
    ensures v < 0x100_0000
  {
    var x: nat, y: nat, z: nat := b[i], if i + 1 < |b| then b[i + 1] else 0, if i + 2 < |b| then b[i + 2] else 0;
    x * 0x1_0000 + y * 0x100 + z
  }

  /** The four characters of a group; the shifts and masks of the source as division and remainder. */
  function Quartet(b: seq<Byte>, i: nat): (q: string)
    requires i < |b|
    ensures |q| == 4
  {
    var v := Group(b, i);
    [Digit(v / 0x4_0000 % 64), Digit(v / 0x1000 % 64),
     if i + 1 < |b| then Digit(v / 0x40 % 64) else PLACEHOLDER,
     if i + 2 < |b| then Digit(v % 64) else PLACEHOLDER]
  }

  /** The first g quartets. */
  function Quartets(b: seq<Byte>, g: nat): (q: string)
    requires 3 * g < |b| + 3
    ensures |q| == 4 * g
  {
    if g == 0 then "" else Quartets(b, g - 1) + Quartet(b, 3 * (g - 1))
  }

  // ---- the second pass ---------------------------------------------------------------------------------------

  /** A string without its placeholders. */
  function Squeezed(s: string): (r: string)
    ensures |r| <= |s|
  {
    if s == "" then ""
    else Squeezed(s[..|s| - 1]) + if s[|s| - 1] == PLACEHOLDER then "" else [s[|s| - 1]]
  }

  /** A character that is no placeholder is never dropped, and none is ever added. */
  lemma {:induction false} SqueezedKeeps(s: string)
    ensures multiset(Squeezed(s)) == multiset(s)[PLACEHOLDER := 0]
  {
    if s != "" {
      SqueezedKeeps(s[..|s| - 1]);
      assert s == s[..|s| - 1] + [s[|s| - 1]];
    }
  }

  lemma {:induction false} SqueezedConcat(s: string, t: string)
    ensures Squeezed(s + t) == Squeezed(s) + Squeezed(t)
  {
    if t == "" {
      assert s + t == s;
    } else {
      SqueezedConcat(s, t[..|t| - 1]);
      assert (s + t)[..|s + t| - 1] == s + t[..|t| - 1];
    }
  }

  // ---- the encoder --------------------------------------------------------------------------------------------

  function GroupsOf(n: nat): nat { (n + 2) / 3 }

  method PutQuartet(input: seq<Byte>, i: nat, out: array<char>, j: nat)
    requires i < |input| && j + 4 <= out.Length
    modifies out
    ensures out[..j + 4] == old(out[..j]) + Quartet(input, i)
  {
    hide Group, Digit, ValueOf;
    var v := Group(input, i);
    out[j] := Digit(v / 0x4_0000 % 64);
    out[j + 1] := Digit(v / 0x1000 % 64);
    out[j + 2] := if i + 1 < |input| then Digit(v / 0x40 % 64) else PLACEHOLDER;
    out[j + 3] := if i + 2 < |input| then Digit(v % 64) else PLACEHOLDER;
    ghost var q := Quartet(input, i);
    assert out[j] == q[0] && out[j + 1] == q[1] && out[j + 2] == q[2] && out[j + 3] == q[3];
    hide Quartet;
    ghost var r := old(out[..j]) + q;
    assert forall l | 0 <= l < j :: out[l] == r[l];
    assert r[j] == q[0] && r[j + 1] == q[1] && r[j + 2] == q[2] && r[j + 3] == q[3];
    assert out[..j + 4] == r;
  }

  method FirstPass(input: seq<Byte>, out: array<char>) returns (j: nat)
    requires out.Length > 4 * GroupsOf(|input|)
    modifies out
    ensures j == 4 * GroupsOf(|input|) && out[..j] == Quartets(input, GroupsOf(|input|))
  {
    hide Quartet;
    j := 0;
    var i := 0;
    ghost var g := 0;
    while i < |input|
      invariant i == 3 * g && j == 4 * g && g <= GroupsOf(|input|)
      invariant out[..j] == Quartets(input, g)
      decreases |input| - i
    {
      PutQuartet(input, i, out, j);
      i, j, g := i + 3, j + 4, g + 1;
    }
  }

  method SecondPass(out: array<char>, j: nat) returns (k: nat)
    requires j < out.Length
    modifies out
    ensures k <= j && out[..k] == Squeezed(old(out[..j])) && out[k] == PLACEHOLDER
  {
    k := 0;
    for i := 0 to j
      invariant k <= i && out[..k] == Squeezed(old(out[..i]))
      invariant forall l | i <= l < j :: out[l] == old(out[l])
    {
      assert old(out[..i + 1])[..i] == old(out[..i]);
      if out[i] != PLACEHOLDER {
        out[k] := out[i];
        k := k + 1;
        assert out[..k] == out[..k - 1] + [old(out[i])];
      }
    }
    out[k] := PLACEHOLDER;
  }

  /** The caller's buffer holds every quartet and a terminator. */
  method Encode(input: seq<Byte>, out: array<char>) returns (k: nat)
    requires out.Length > 4 * GroupsOf(|input|)
    modifies out
    ensures k < out.Length && out[..k] == Encoding(input) && out[k] == PLACEHOLDER
  {
    var j := FirstPass(input, out);
    k := SecondPass(out, j);
  }

  function Encoding(b: seq<Byte>): string { Squeezed(Quartets(b, GroupsOf(|b|))) }

  // ---- the reference: a strict decoder ----------------------------------------------------------------------

  datatype Decoded = Malformed | Decoded(bytes: seq<Byte>)

  /** Quartets to triples; two or three characters may remain, and their spare bits must be zero. */
  function Decode(s: string): Decoded {
    if s == "" then Decoded([])
    else if |s| == 1 || ValueOf(s[0]) < 0 || ValueOf(s[1]) < 0 then Malformed
    else
      var a, b := ValueOf(s[0]), ValueOf(s[1]);
      if |s| == 2 then if b % 16 != 0 then Malformed else Decoded([a * 4 + b / 16])
      else if ValueOf(s[2]) < 0 then Malformed
      else
        var c := ValueOf(s[2]);
        if |s| == 3 then if c % 4 != 0 then Malformed else Decoded([a * 4 + b / 16, b % 16 * 16 + c / 4])
        else if ValueOf(s[3]) < 0 || Decode(s[4..]).Malformed? then Malformed
        else Decoded([a * 4 + b / 16, b % 16 * 16 + c / 4, c % 4 * 64 + ValueOf(s[3])] + Decode(s[4..]).bytes)
  }


  // ---- without placeholders ------------------------------------------------------------------------------------

  /** The characters of a last, partial group. */
  function Partial(b: seq<Byte>): (s: string)
    requires 0 < |b| < 3
    ensures |s| == |b| + 1
  {
    Quartet(b, 0)[..|b| + 1]
  }

  /** The encoding group by group from the front. */
  function Text(b: seq<Byte>): string {
    if b == [] then "" else if |b| < 3 then Partial(b) else Quartet(b, 0) + Text(b[3..])
  }

  lemma QuartetShift(b: seq<Byte>, i: nat)
    requires 3 + i < |b|
    ensures Quartet(b, 3 + i) == Quartet(b[3..], i)
  {
    hide Digit;
  }

  lemma {:induction false} QuartetsFront(b: seq<Byte>, g: nat)
    requires 3 * g + 3 < |b| + 3 && |b| >= 3
    ensures Quartets(b, g + 1) == Quartet(b, 0) + Quartets(b[3..], g)
  {
    hide Quartet;
    if g > 0 {
      QuartetsFront(b, g - 1);
      QuartetShift(b, 3 * (g - 1));
    } else {
      assert Quartets(b, 1) == "" + Quartet(b, 0);
    }
  }

  lemma SqueezedFour(q: string)
    requires |q| == 4 && q[0] != PLACEHOLDER && q[1] != PLACEHOLDER && (q[3] != PLACEHOLDER ==> q[2] != PLACEHOLDER)
    ensures Squeezed(q) == if q[2] == PLACEHOLDER then q[..2] else if q[3] == PLACEHOLDER then q[..3] else q
  {
    assert q[..3][..2] == q[..2] && q[..2][..1] == q[..1] && q[..1][..0] == "";
    assert Squeezed(q[..1]) == "" + [q[0]];
    assert Squeezed(q[..2]) == Squeezed(q[..1]) + [q[1]];
  }

  lemma QuartetShape(b: seq<Byte>)
    requires b != []
    ensures var q := Quartet(b, 0);
      && q[0] != PLACEHOLDER && q[1] != PLACEHOLDER
      && (q[2] == PLACEHOLDER <==> |b| == 1) && (q[3] == PLACEHOLDER <==> |b| < 3)
  {
    hide Digit, Group;
  }

  lemma PartialText(b: seq<Byte>)
    requires 0 < |b| < 3
    ensures Encoding(b) == Text(b)
  {
    QuartetShape(b);
    hide Quartet, Squeezed;
    SqueezedFour(Quartet(b, 0));
    assert Quartets(b, 1) == "" + Quartet(b, 0) == Quartet(b, 0);
    assert GroupsOf(|b|) == 1;
  }

  lemma GroupsAbove(n: nat)
    requires n >= 3
    ensures GroupsOf(n) == GroupsOf(n - 3) + 1 && 3 * GroupsOf(n - 3) < n
  {}

  lemma WholeQuartet(b: seq<Byte>)
    requires |b| >= 3
    ensures Squeezed(Quartet(b, 0)) == Quartet(b, 0)
  {
    QuartetShape(b);
    hide Quartet, Squeezed;
    SqueezedFour(Quartet(b, 0));
  }

  lemma FrontText(b: seq<Byte>)
    requires |b| >= 3
    ensures Encoding(b) == Quartet(b, 0) + Encoding(b[3..])
  {
    hide Quartet, Squeezed, Quartets, GroupsOf;
    GroupsAbove(|b|);
    var g := GroupsOf(|b| - 3);
    WholeQuartet(b);
    QuartetsFront(b, g);
    SqueezedConcat(Quartet(b, 0), Quartets(b[3..], g));
  }

  /** The two passes produce the encoding. */
  lemma {:induction false} EncodingIsText(b: seq<Byte>)
    ensures Encoding(b) == Text(b)
  {
    hide Quartet, Squeezed;
    if 0 < |b| < 3 {
      PartialText(b);
    } else if b != [] {
      hide Encoding;
      FrontText(b);
      EncodingIsText(b[3..]);
    }
  }

  // ---- decoding undoes encoding -----------------------------------------------------------------------------------

  lemma FirstDigits(x: Byte, y: Byte, z: Byte)
    ensures var v := x * 0x1_0000 + y * 0x100 + z; v / 0x4_0000 % 64 == x / 4 && v / 0x1000 % 64 == x % 4 * 16 + y / 16
  {
    var high, mid := x / 4, x % 4 * 16 + y / 16;
    assert x == high * 4 + x % 4 && y == y / 16 * 16 + y % 16;
    Divided(high, x % 4 * 0x1_0000 + y * 0x100 + z);
    Divided(high * 64 + mid, y % 16 * 0x100 + z);
    Remainder(0, high);
    Remainder(high, mid);
  }

  lemma Divided(q: nat, r: nat)
    ensures r < 0x4_0000 ==> (q * 0x4_0000 + r) / 0x4_0000 == q
    ensures r < 0x1000 ==> (q * 0x1000 + r) / 0x1000 == q
    ensures r < 0x40 ==> (q * 0x40 + r) / 0x40 == q
  {}

  lemma LastDigits(x: Byte, y: Byte, z: Byte)
    ensures var v := x * 0x1_0000 + y * 0x100 + z; v / 0x40 % 64 == y % 16 * 4 + z / 64 && v % 64 == z % 64
  {
    var high, mid := x * 16 + y / 16, y % 16 * 4 + z / 64;
    Divided(high * 64 + mid, z % 64);
    Remainder(high, mid);
    Remainder(high * 64 + mid, z % 64);
    assert x * 0x1_0000 + y * 0x100 + z == (high * 64 + mid) * 64 + z % 64;
  }

  lemma Remainder(q: nat, r: nat)
    requires r < 64
    ensures (q * 64 + r) % 64 == r
  {}

  function At(b: seq<Byte>, i: nat): Byte { if i < |b| then b[i] else 0 }

  /** The digits of the first quartet: six bits of the first byte, two and four, four and two, six. */
  lemma QuartetDigits(b: seq<Byte>)
    requires b != []
    ensures var q := Quartet(b, 0);
      && ValueOf(q[0]) == At(b, 0) / 4
      && ValueOf(q[1]) == At(b, 0) % 4 * 16 + At(b, 1) / 16
      && (|b| > 1 ==> ValueOf(q[2]) == At(b, 1) % 16 * 4 + At(b, 2) / 64)
      && (|b| > 2 ==> ValueOf(q[3]) == At(b, 2) % 64)
  {
    hide Digit, ValueOf;
    FirstDigits(At(b, 0), At(b, 1), At(b, 2));
    LastDigits(At(b, 0), At(b, 1), At(b, 2));
  }

  /** What the decoder computes from the quartet's digits. */
  lemma QuartetBytes(b: seq<Byte>)
    requires b != []
    ensures var q := Quartet(b, 0);
      && ValueOf(q[0]) >= 0 && ValueOf(q[1]) >= 0 && ValueOf(q[0]) * 4 + ValueOf(q[1]) / 16 == b[0]
      && (|b| == 1 ==> ValueOf(q[1]) % 16 == 0)
      && (|b| > 1 ==> ValueOf(q[2]) >= 0 && ValueOf(q[1]) % 16 * 16 + ValueOf(q[2]) / 4 == b[1])
      && (|b| == 2 ==> ValueOf(q[2]) % 4 == 0)
      && (|b| > 2 ==> ValueOf(q[3]) >= 0 && ValueOf(q[2]) % 4 * 64 + ValueOf(q[3]) == b[2])
  {
    QuartetDigits(b);
    hide Quartet, ValueOf;
  }

  lemma {:induction false} DecodeText(b: seq<Byte>)
    ensures Decode(Text(b)) == Decoded(b)
  {
    hide Quartet, ValueOf;
    if b != [] {
      QuartetBytes(b);
      var t := Text(b);
      if |b| >= 3 {
        DecodeText(b[3..]);
        assert t[4..] == Text(b[3..]);
        assert b == [b[0], b[1], b[2]] + b[3..];
      } else if |b| == 2 {
        assert b == [b[0], b[1]];
      } else {
        assert b == [b[0]];
      }
    }
  }

  lemma ValueInjective(c: char, d: char)
    requires ValueOf(c) == ValueOf(d) >= 0
    ensures c == d
  {}

  /** Strict decoding has one preimage. */
  lemma {:induction false} TextOfDecode(t: string)
    requires Decode(t).Decoded?
    ensures t == Text(Decode(t).bytes)
  {
    hide Quartet, ValueOf;
    if t != "" {
      var b := Decode(t).bytes;
      QuartetDigits(b);
      var q := Quartet(b, 0);
      ValueInjective(t[0], q[0]);
      ValueInjective(t[1], q[1]);
      if |t| > 2 {
        ValueInjective(t[2], q[2]);
      }
      if |t| > 3 {
        ValueInjective(t[3], q[3]);
        TextOfDecode(t[4..]);
        assert b[3..] == Decode(t[4..]).bytes;
        assert t == [t[0], t[1], t[2], t[3]] + t[4..];
      }
    }
  }

  lemma {:induction false} TextLength(b: seq<Byte>)
    ensures |Text(b)| == (4 * |b| + 2) / 3
  {
    hide Quartet;
    if |b| >= 3 {
      TextLength(b[3..]);
    }
  }

  /** The encoder's output is the one string that decodes to the input, and has ceil(4n/3) characters. */
  lemma EncodingIsBase64Url(b: seq<Byte>, t: string)
    ensures Decode(t) == Decoded(b) <==> t == Encoding(b)
    ensures |Encoding(b)| == (4 * |b| + 2) / 3
  {
    hide Encoding, Decode, Text;
    EncodingIsText(b);
    DecodeText(b);
    TextLength(b);
    if Decode(t) == Decoded(b) {
      TextOfDecode(t);
    }
  }
}
