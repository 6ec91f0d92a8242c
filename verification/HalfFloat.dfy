/**
 The hand-written float32 -> float16 conversion of the HNSW exporter.

 A bit pattern is a natural number; `x >> k` is `x / 2^k`, `x & (2^k - 1)` is
 `x % 2^k`, and `a | b` of operands with no common bit is `a + b`.  Magnitudes are
 exact: both formats are measured in the smallest float32 subnormal, 2^-149, so every
 value of either format is a natural number and no rounding enters the specification.
 */
module HalfFloat {
  import opened PowersOfTwo

  type Bits32 = x: nat | x < 0x1_0000_0000
  type Bits16 = x: nat | x < 0x1_0000

  function Sign32(x: Bits32): nat { x / 0x8000_0000 }
  function Exponent32(x: Bits32): nat { x / 0x80_0000 % 0x100 }
  function Mantissa32(x: Bits32): nat { x % 0x80_0000 }

  predicate IsNaN32(x: Bits32) { Exponent32(x) == 0xFF && Mantissa32(x) != 0 }

  /** |x| in units of 2^-149; an infinity counts as the binade above the largest finite value. */
  function Magnitude32(x: Bits32): nat {
    if Exponent32(x) == 0 then Mantissa32(x)
    else (0x80_0000 + Mantissa32(x)) * Pow2(Exponent32(x) - 1)
  }

  /** Encodings 0..0x7C00 without the sign bit; 0x7C00 is infinity. */
  const INFINITY16: nat := 0x7C00

  function Sign16(r: Bits16): nat { r / 0x8000 }
  function Unsigned16(r: Bits16): nat { r % 0x8000 }

  predicate IsNaN16(r: Bits16) { Unsigned16(r) > INFINITY16 }

  /** Distance between the encoding h and the next one, in units of 2^-149. */
  function Ulp16(h: nat): (u: nat)
    ensures u >= 1
  {
    Pow2(125 + (if h / 0x400 == 0 then 0 else h / 0x400 - 1))
  }

  /** The magnitude encoded by h, in units of 2^-149; 0x7C00 is read as 65536. */
  function Magnitude16(h: nat): nat {
    (if h / 0x400 == 0 then h % 0x400 else 0x400 + h % 0x400) * Ulp16(h)
  }

  /** 65520, from which round-to-nearest overflows: half a unit above the largest finite half. */
  function OverflowBound(): nat { 65520 * Pow2(149) }

  function Distance(a: nat, b: nat): nat { if a <= b then b - a else a - b }

  /** roundTiesToEven of section 4.3.1 of IEEE 754-2019, for the magnitude v. */
  ghost predicate RoundsTo(v: nat, h: nat) {
    if v >= OverflowBound() then h == INFINITY16
    else
      && h < INFINITY16
      && forall g: nat {:trigger Magnitude16(g)} | g < INFINITY16 && g != h ::
           && Distance(v, Magnitude16(h)) <= Distance(v, Magnitude16(g))
           && (Distance(v, Magnitude16(h)) == Distance(v, Magnitude16(g)) ==> h % 2 == 0)
  }

  /** What the conversion promises for every 32-bit pattern. */
  ghost predicate ConvertsTo(x: Bits32, r: Bits16) {
    && Sign16(r) == Sign32(x)
    && (if IsNaN32(x) then IsNaN16(r) else RoundsTo(Magnitude32(x), Unsigned16(r)))
  }

  /** The fields are those of the interchange formats of section 3.4 of IEEE 754-2019: sign, exponent, trailing significand. */
  lemma FieldsReassemble(x: Bits32, r: Bits16)
    ensures x == Sign32(x) * 0x8000_0000 + Exponent32(x) * 0x80_0000 + Mantissa32(x)
    ensures Sign32(x) <= 1 && Exponent32(x) <= 0xFF && Mantissa32(x) <= 0x7F_FFFF
    ensures r == Sign16(r) * 0x8000 + Unsigned16(r) && Sign16(r) <= 1 && Unsigned16(r) <= 0x7FFF
  {
    assert x / 0x80_0000 == x / 0x8000_0000 * 0x100 + x / 0x80_0000 % 0x100;
  }

  /** The two scales meet: zero, the smallest subnormals, one, and the largest half, 65504. */
  lemma Scales()
    ensures Magnitude32(0) == 0 && Magnitude32(1) == 1 && Magnitude32(0x3F80_0000) == Pow2(149)
    ensures Magnitude16(0) == 0 && Magnitude16(1) == Pow2(125) && Magnitude16(0x3C00) == Pow2(149)
    ensures Magnitude16(0x7BFF) == 65504 * Pow2(149)
  {
    hide Pow2;
    ScaledOnes();
    assert Exponent32(0x3F80_0000) == 127 && Mantissa32(0x3F80_0000) == 0;
    assert 0x3C00 / 0x400 == 15 && 0x3C00 % 0x400 == 0;
    assert 0x7BFF / 0x400 == 30 && 0x7BFF % 0x400 == 0x3FF;
    assert Ulp16(1) == Pow2(125) && Ulp16(0x3C00) == Pow2(139) && Ulp16(0x7BFF) == Pow2(154);
  }

  /** From one binade to the next, values double in both formats. */
  lemma Binades(x: Bits32, h: Bits16)
    requires 1 <= Exponent32(x) < 0xFF && 0x400 <= h < 0x7C00
    ensures x + 0x80_0000 < 0x1_0000_0000 && Sign32(x + 0x80_0000) == Sign32(x)
    ensures Magnitude32(x + 0x80_0000) == 2 * Magnitude32(x) && Magnitude16(h + 0x400) == 2 * Magnitude16(h)
  {
    FieldsReassemble(x, h);
    assert Exponent32(x + 0x80_0000) == Exponent32(x) + 1 && Mantissa32(x + 0x80_0000) == Mantissa32(x);
    assert (h + 0x400) / 0x400 == h / 0x400 + 1 && (h + 0x400) % 0x400 == h % 0x400;
    NextBinade(0x80_0000 + Mantissa32(x), Exponent32(x) - 1);
    NextBinade(0x400 + h % 0x400, 125 + h / 0x400 - 1);
  }

  lemma NextBinade(a: nat, e: nat)
    ensures a * Pow2(e + 1) == 2 * (a * Pow2(e))
  {}

  lemma ScaledOnes()
    ensures 0x80_0000 * Pow2(126) == Pow2(149) && 0x400 * Pow2(139) == Pow2(149) && 0x7FF * Pow2(154) == 65504 * Pow2(149)
  {
    hide Pow2;
    SmallPowers();
    Pow2Add(23, 126);
    Pow2Add(10, 139);
    Pow2Add(5, 149);
  }

  // ---- the half-precision number line -------------------------------------------

  /** Consecutive encodings are one unit apart, across binade borders and at the subnormals too. */
  lemma HalfStep(h: nat)
    ensures Magnitude16(h + 1) == Magnitude16(h) + Ulp16(h)
  {
    if h % 0x400 == 0x3FF {
      var e := h / 0x400;
      assert (h + 1) / 0x400 == e + 1 && (h + 1) % 0x400 == 0;
      if e > 0 {
        assert Pow2(125 + e) == 2 * Pow2(125 + e - 1);
      }
    } else {
      assert (h + 1) / 0x400 == h / 0x400 && (h + 1) % 0x400 == h % 0x400 + 1;
    }
  }

  lemma {:induction false} HalfIncreasing(g: nat, h: nat)
    requires g < h
    ensures Magnitude16(g) + Ulp16(g) <= Magnitude16(h)
    decreases h
  {
    hide Magnitude16;
    HalfStep(h - 1);
    if g < h - 1 {
      HalfIncreasing(g, h - 1);
    }
  }

  /** The rounding decision between the encoding low and the next one, for the magnitude v. */
  ghost predicate RoundedBetween(v: nat, low: nat, h: nat) {
    && Magnitude16(low) <= v < Magnitude16(low + 1)
    && var d := v - Magnitude16(low);
       h == if 2 * d > Ulp16(low) || (2 * d == Ulp16(low) && low % 2 == 1) then low + 1 else low
  }

  lemma BracketBeats(v: nat, low: nat, h: nat, g: nat)
    requires RoundedBetween(v, low, h)
    requires g != h
    ensures Distance(v, Magnitude16(h)) <= Distance(v, Magnitude16(g))
    ensures Distance(v, Magnitude16(h)) == Distance(v, Magnitude16(g)) ==> h % 2 == 0
  {
    hide Magnitude16, Ulp16;
    OutsideBracket(low, g);
    NeighbourParity(low, h);
    NearerEnd(v, Magnitude16(low), Ulp16(low), h != low, low % 2 == 1, Magnitude16(h), h % 2 == 0, Magnitude16(g));
  }

  lemma NeighbourParity(low: nat, h: nat)
    requires h == low || h == low + 1
    ensures h % 2 == 0 <==> (h != low) == (low % 2 == 1)
  {}

  lemma OutsideBracket(low: nat, g: nat)
    ensures Magnitude16(low + 1) == Magnitude16(low) + Ulp16(low)
    ensures g < low ==> Magnitude16(g) < Magnitude16(low)
    ensures g > low + 1 ==> Magnitude16(g) > Magnitude16(low + 1)
  {
    hide Magnitude16;
    HalfStep(low);
    if g < low {
      HalfIncreasing(g, low);
    } else if g > low + 1 {
      HalfIncreasing(low + 1, g);
    }
  }

  /** Of the two ends a and a+u the chosen one is at least as near to v as any c not strictly between them. */
  lemma NearerEnd(v: nat, a: nat, u: nat, up: bool, odd: bool, chosen: nat, even: bool, c: nat)
    requires a <= v < a + u
    requires up <==> 2 * (v - a) > u || (2 * (v - a) == u && odd)
    requires chosen == (if up then a + u else a) && even == (up == odd)
    requires c < a || c > a + u || c == if up then a else a + u
    ensures Distance(v, chosen) <= Distance(v, c)
    ensures Distance(v, chosen) == Distance(v, c) ==> even
  {}

  /** A bracketed magnitude rounds to the nearer end, and to the even one on a tie. */
  lemma BracketRounds(v: nat, low: nat, h: nat)
    requires low < INFINITY16
    requires RoundedBetween(v, low, h)
    ensures RoundsTo(v, h)
  {
    hide Magnitude16, Ulp16, OverflowBound;
    BracketOverflow(v, low, h);
    if v < OverflowBound() {
      forall g: nat {:trigger Magnitude16(g)} | g < INFINITY16 && g != h
        ensures Distance(v, Magnitude16(h)) <= Distance(v, Magnitude16(g))
        ensures Distance(v, Magnitude16(h)) == Distance(v, Magnitude16(g)) ==> h % 2 == 0
      {
        BracketBeats(v, low, h, g);
      }
    }
  }

  lemma BracketOverflow(v: nat, low: nat, h: nat)
    requires low < INFINITY16
    requires RoundedBetween(v, low, h)
    ensures v >= OverflowBound() <==> h == INFINITY16
    ensures h <= INFINITY16
  {
    hide Magnitude16, Ulp16;
    LargestFinite();
    HalfStep(low);
    if low < 0x7BFF {
      HalfIncreasing(low, 0x7BFF);
    }
  }

  lemma LargestFinite()
    ensures Magnitude16(0x7BFF) == 65504 * Pow2(149)
    ensures Ulp16(0x7BFF) == 32 * Pow2(149)
    ensures Magnitude16(INFINITY16) == 65536 * Pow2(149) >= OverflowBound()
  {
    hide Pow2;
    SmallPowers();
    Pow2Add(149, 5);
    HalfStep(0x7BFF);
    assert Magnitude16(0x7BFF) == 2047 * Ulp16(0x7BFF);
  }

  // ---- the conversion itself ------------------------------------------------------

  method FloatToHalf(x: Bits32) returns (r: Bits16)
    ensures ConvertsTo(x, r)
  {
    hide ConvertsTo, Pow2;
    var sign := Sign32(x) * 0x8000;                         // (x >> 16) & 0x8000
    var exp: int := Exponent32(x) - 127 + 15;
    var mant := Mantissa32(x);

    if Exponent32(x) == 0xFF {                              // Inf/NaN
      SpecialConverts(x);
      return sign + 0x7C00 + (if mant != 0 then 0x0200 else 0);
    }
    if exp >= 0x1F {                                        // overflow
      SpecialConverts(x);
      return sign + 0x7C00;
    }
    if exp <= 0 {                                           // subnormal or zero
      if exp < -10 {
        TinyConverts(x);
        return sign;
      }
      mant := mant + 0x80_0000;                             // mant |= 0x800000
      var shift: nat := 14 - exp;
      var halfMant: nat := mant / Pow2(shift);
      ghost var low := halfMant;
      if mant / Pow2(shift - 1) % 2 == 1 {
        if mant % Pow2(shift - 1) != 0 || halfMant % 2 == 1 {
          halfMant := halfMant + 1;
        }
      }
      SubnormalConverts(x, mant, shift, low, halfMant);
      return sign + halfMant;
    }
    var halfMant: nat := mant / 0x2000;
    ghost var low := halfMant;
    if mant / 0x1000 % 2 == 1 {
      if mant % 0x1000 != 0 || halfMant % 2 == 1 {
        halfMant := halfMant + 1;
      }
    }
    NormalConverts(x, exp, low, halfMant);
    if halfMant / 0x400 % 2 == 1 {                          // carry into the exponent
      halfMant := 0;
      exp := exp + 1;
      if exp >= 0x1F { return sign + 0x7C00; }
    }
    return sign + exp * 0x400 + halfMant;
  }

  /** The sign bit does not disturb the rounded magnitude. */
  lemma Assemble(x: Bits32, h: nat)
    requires !IsNaN32(x)
    requires RoundsTo(Magnitude32(x), h) && h <= INFINITY16
    ensures Sign32(x) * 0x8000 + h < 0x1_0000
    ensures ConvertsTo(x, Sign32(x) * 0x8000 + h)
  {
    hide RoundsTo, Magnitude32;
    var r: Bits16 := Sign32(x) * 0x8000 + h;
    assert Sign16(r) == Sign32(x) && Unsigned16(r) == h;
  }

  lemma SpecialConverts(x: Bits32)
    requires 143 <= Exponent32(x)
    ensures Sign32(x) <= 1
    ensures ConvertsTo(x, Sign32(x) * 0x8000 + (if IsNaN32(x) then 0x7E00 else 0x7C00))
  {
    LargeOverflows(x);
    if !IsNaN32(x) { Assemble(x, INFINITY16); }
  }

  lemma TinyConverts(x: Bits32)
    requires Exponent32(x) < 102
    ensures Sign32(x) <= 1 && ConvertsTo(x, Sign32(x) * 0x8000)
  {
    hide RoundsTo, Magnitude32, ConvertsTo;
    TinyVanishes(x);
    Assemble(x, 0);
  }

  lemma SubnormalConverts(x: Bits32, m: nat, shift: nat, low: nat, h: nat)
    requires 102 <= Exponent32(x) <= 112
    requires m == Mantissa32(x) + 0x80_0000 && shift == 126 - Exponent32(x)
    requires low == m / Pow2(shift)
    requires h == if m / Pow2(shift - 1) % 2 == 1 && (m % Pow2(shift - 1) != 0 || low % 2 == 1)
                  then low + 1 else low
    ensures Sign32(x) <= 1 && h <= INFINITY16 && ConvertsTo(x, Sign32(x) * 0x8000 + h)
  {
    hide RoundsTo, Magnitude32, ConvertsTo;
    SubnormalRounds(x, m, shift, low, h);
    Assemble(x, h);
  }

  /** A carry out of the ten mantissa bits lands in the exponent field of the encoding. */
  lemma NormalConverts(x: Bits32, exp: nat, low: nat, h: nat)
    requires 1 <= exp <= 30 && Exponent32(x) == exp + 112
    requires low == Mantissa32(x) / 0x2000
    requires h == if Mantissa32(x) / 0x1000 % 2 == 1 && (Mantissa32(x) % 0x1000 != 0 || low % 2 == 1)
                  then low + 1 else low
    ensures h <= 0x400 && (h / 0x400 % 2 == 1 <==> h == 0x400)
    ensures Sign32(x) <= 1 && exp * 0x400 + h <= INFINITY16
    ensures ConvertsTo(x, Sign32(x) * 0x8000 + exp * 0x400 + h)
  {
    hide RoundsTo, Magnitude32, ConvertsTo;
    TopTenBits(x);
    CarryBit(exp, low, h);
    NormalRounds(x, exp * 0x400 + low, exp * 0x400 + h);
    Assemble(x, exp * 0x400 + h);
  }

  lemma TopTenBits(x: Bits32)
    ensures Mantissa32(x) / 0x2000 < 0x400
  {}

  lemma CarryBit(exp: nat, low: nat, h: nat)
    requires low < 0x400 && low <= h <= low + 1
    ensures h / 0x400 % 2 == 1 <==> h == 0x400
    ensures (exp * 0x400 + low) % 2 == low % 2
  {}

  lemma LargeOverflows(x: Bits32)
    requires 143 <= Exponent32(x)
    ensures Magnitude32(x) >= OverflowBound()
  {
    hide Pow2;
    SmallPowers();
    if Exponent32(x) > 143 { Pow2Monotone(142, Exponent32(x) - 1); }
    Pow2Add(7, 142);
    ScaleUp(0x80_0000 + Mantissa32(x), 0x80_0000, Pow2(Exponent32(x) - 1), Pow2(142));
  }

  lemma ScaleUp(a: nat, b: nat, p: nat, q: nat)
    requires a >= b && p >= q
    ensures a * p >= b * q
  {
    assert a * p >= b * p >= b * q;
  }

  /** Below half of the smallest subnormal half everything rounds to zero. */
  lemma TinyVanishes(x: Bits32)
    requires Exponent32(x) < 102
    ensures RoundsTo(Magnitude32(x), 0)
  {
    hide Pow2, Magnitude32, RoundsTo;
    TinyBound(x);
    assert Magnitude16(0) == 0 && Ulp16(0) == Pow2(125);
    HalfStep(0);
    BracketRounds(Magnitude32(x), 0, 0);
  }

  lemma TinyBound(x: Bits32)
    requires Exponent32(x) < 102
    ensures 2 * Magnitude32(x) < Pow2(125)
  {
    hide Pow2;
    SmallPowers();
    Pow2Add(1, 124);
    if Exponent32(x) == 0 {
      ScaledBelow(Mantissa32(x), 24, 0, 100);
    } else {
      ScaledBelow(0x80_0000 + Mantissa32(x), 24, Exponent32(x) - 1, 100);
    }
  }

  lemma ScaledBelow(m: nat, b: nat, e: nat, f: nat)
    requires m < Pow2(b) && e <= f
    ensures m * Pow2(e) < Pow2(b + f)
  {
    Pow2Add(b, f);
    if e < f { Pow2Monotone(e, f); }
    ScaleUp(Pow2(b), m + 1, Pow2(f), Pow2(e));
    Expand(m, Pow2(e));
  }

  lemma Expand(a: nat, p: nat)
    ensures (a + 1) * p == a * p + p
  {}

  lemma SameOrder(a: nat, b: nat, p: nat)
    requires p >= 1
    ensures a < b <==> a * p < b * p
    ensures a == b <==> a * p == b * p
  {
    if a < b { ScaleUp(b, a + 1, p, p); Expand(a, p); }
    if b < a { ScaleUp(a, b + 1, p, p); Expand(b, p); }
  }

  /** The C tests on m's bit log2(t) and on the bits below it compare m mod 2t with t. */
  lemma BitTests(m: nat, t: nat, q: nat, r: nat)
    requires t >= 1 && m == 2 * q * t + r && r < 2 * t
    ensures m / t % 2 == 1 && m % t != 0 <==> r > t
    ensures m / t % 2 == 1 && m % t == 0 <==> r == t
  {
    if r < t {
      QuotientIs(m, t, 2 * q, r);
    } else {
      Expand(2 * q, t);
      QuotientIs(m, t, 2 * q + 1, r - t);
    }
    EvenOdd(q);
  }

  lemma EvenOdd(q: nat)
    ensures 2 * q % 2 == 0 && (2 * q + 1) % 2 == 1
  {}

  lemma Halve(m: nat, t: nat)
    requires t >= 1
    ensures m == (2 * (m / (2 * t))) * t + m % (2 * t)
  {
    var q := m / (2 * t);
    assert m == q * (2 * t) + m % (2 * t);
    assert q * (2 * t) == 2 * q * t;
  }

  lemma QuotientIs(m: nat, t: nat, q: nat, r: nat)
    requires m == q * t + r && r < t
    ensures m / t == q && m % t == r
  {
    var k, j := m / t, m % t;
    assert m == k * t + j && j < t;
    SameOrder(k, q, t);
    SameOrder(k + 1, q, t);
    SameOrder(q + 1, k, t);
    Expand(k, t);
    Expand(q, t);
  }

  /** Rounding m to a multiple of 2t by its bits is rounding m*p by distance in units 2t*p. */
  lemma BitsDecide(m: nat, t: nat, p: nat, low: nat, h: nat)
    requires t >= 1 && p >= 1 && low < INFINITY16
    requires Ulp16(low) == 2 * t * p
    requires Magnitude16(low) == m / (2 * t) * (2 * t * p)
    requires h == if m / t % 2 == 1 && (m % t != 0 || low % 2 == 1) then low + 1 else low
    ensures RoundsTo(m * p, h) && h <= INFINITY16
  {
    hide Magnitude16, Ulp16, RoundsTo, Pow2;
    var q, r := m / (2 * t), m % (2 * t);
    assert m * p == Magnitude16(low) + r * p by {
      assert m == q * (2 * t) + r;
      assert (q * (2 * t) + r) * p == q * (2 * t) * p + r * p;
      assert q * (2 * t) * p == q * (2 * t * p);
    }
    Halve(m, t);
    BitTests(m, t, q, r);
    SameOrder(r, t, p);
    SameOrder(t, r, p);
    SameOrder(r, 2 * t, p);
    assert 2 * t * p == 2 * (t * p);
    HalfStep(low);
    BracketRounds(m * p, low, h);
  }

  lemma SubnormalRounds(x: Bits32, m: nat, shift: nat, low: nat, h: nat)
    requires 102 <= Exponent32(x) <= 112
    requires m == Mantissa32(x) + 0x80_0000 && shift == 126 - Exponent32(x)
    requires low == m / Pow2(shift)
    requires h == if m / Pow2(shift - 1) % 2 == 1 && (m % Pow2(shift - 1) != 0 || low % 2 == 1)
                  then low + 1 else low
    ensures RoundsTo(Magnitude32(x), h) && h <= INFINITY16
  {
    var t, p := Pow2(shift - 1), Pow2(Exponent32(x) - 1);
    assert Pow2(shift) == 2 * t;
    Pow2Add(shift, Exponent32(x) - 1);
    assert 2 * t * p == Pow2(125);
    SubnormalQuotient(m, shift);
    BitsDecide(m, t, p, low, h);
  }

  lemma SubnormalQuotient(m: nat, shift: nat)
    requires m < 0x100_0000 && shift >= 14
    ensures m / Pow2(shift) < 0x400
  {
    hide Pow2;
    SmallPowers();
    if shift > 14 { Pow2Monotone(14, shift); }
    var q, s := m / Pow2(shift), Pow2(shift);
    assert q * s <= m;
    ScaleUp(s, 0x4000, 0x400, 0x400);
    if q >= 0x400 {
      ScaleUp(q, 0x400, s, s);
    }
  }

  lemma NormalRounds(x: Bits32, low: nat, h: nat)
    requires 113 <= Exponent32(x) <= 142
    requires low == (Exponent32(x) - 112) * 0x400 + Mantissa32(x) / 0x2000
    requires h == if Mantissa32(x) / 0x1000 % 2 == 1 && (Mantissa32(x) % 0x1000 != 0 || low % 2 == 1)
                  then low + 1 else low
    ensures RoundsTo(Magnitude32(x), h) && h <= INFINITY16
  {
    hide RoundsTo, Pow2;
    var m, p := 0x80_0000 + Mantissa32(x), Pow2(Exponent32(x) - 1);
    NormalUnit(low, Exponent32(x) - 112, Mantissa32(x) / 0x2000);
    ImplicitBit(Mantissa32(x));
    BitsDecide(m, 0x1000, p, low, h);
  }

  /** Adding the implicit leading one leaves the rounding bits alone. */
  lemma ImplicitBit(mant: nat)
    ensures (0x80_0000 + mant) / 0x2000 == 0x400 + mant / 0x2000
    ensures (0x80_0000 + mant) / 0x1000 % 2 == mant / 0x1000 % 2
    ensures (0x80_0000 + mant) % 0x1000 == mant % 0x1000
  {
    assert (0x80_0000 + mant) / 0x1000 == 0x800 + mant / 0x1000;
  }

  lemma NormalUnit(low: nat, exp: nat, m: nat)
    requires 1 <= exp <= 30 && m < 0x400 && low == exp * 0x400 + m
    ensures low < INFINITY16
    ensures Ulp16(low) == 0x2000 * Pow2(exp + 111)
    ensures Magnitude16(low) == (0x400 + m) * (0x2000 * Pow2(exp + 111))
  {
    assert low / 0x400 == exp && low % 0x400 == m;
    Pow2Add(13, exp + 111);
    assert Pow2(13) == 0x2000;
  }

  // ---- consequences: monotone, and the identity on widened halves ------------------

  lemma RoundingMonotone(v: nat, h: nat, w: nat, k: nat)
    requires RoundsTo(v, h) && RoundsTo(w, k) && v <= w
    ensures h <= k
  {
    hide Magnitude16, Ulp16, OverflowBound;
    if k < h < INFINITY16 {
      HalfIncreasing(k, h);
      MeetInTheMiddle(v, w, Magnitude16(k), Magnitude16(h));
      NoTieAcross(v, h, k);
    }
  }

  /** Halfway between two halves at most one of them is the rounded result. */
  lemma NoTieAcross(v: nat, h: nat, k: nat)
    requires k < h < INFINITY16 && v < OverflowBound()
    requires 2 * v == Magnitude16(k) + Magnitude16(h)
    ensures !(RoundsTo(v, h) && RoundsTo(v, k))
  {
    hide Magnitude16, Ulp16, OverflowBound;
    HalfIncreasing(k, h);
    if h > k + 1 {
      HalfIncreasing(k, k + 1);
      HalfIncreasing(k + 1, h);
      assert Distance(v, Magnitude16(h)) > Distance(v, Magnitude16(k + 1));
    } else {
      assert h % 2 == 0 ==> k % 2 == 1;
    }
  }

  lemma MeetInTheMiddle(v: nat, w: nat, a: nat, b: nat)
    requires v <= w && a < b
    requires Distance(v, b) <= Distance(v, a) && Distance(w, a) <= Distance(w, b)
    ensures v == w && 2 * v == a + b
  {}

  /** The signed values, in units of 2^-149; an infinity lies beyond every finite value. */
  function Value32(x: Bits32): int { if Sign32(x) == 1 then -(Magnitude32(x) as int) else Magnitude32(x) }
  function Value16(r: Bits16): int {
    if Sign16(r) == 1 then -(Magnitude16(Unsigned16(r)) as int) else Magnitude16(Unsigned16(r))
  }

  lemma ConversionMonotone(x: Bits32, rx: Bits16, y: Bits32, ry: Bits16)
    requires ConvertsTo(x, rx) && ConvertsTo(y, ry)
    requires !IsNaN32(x) && !IsNaN32(y)
    requires Value32(x) <= Value32(y)
    ensures Value16(rx) <= Value16(ry)
  {
    hide RoundsTo, OverflowBound, Ulp16, Magnitude32;
    var h, k := Unsigned16(rx), Unsigned16(ry);
    if Sign32(x) == 1 && Sign32(y) == 1 {
      RoundingMonotone(Magnitude32(y), k, Magnitude32(x), h);
      if k < h { HalfIncreasing(k, h); }
    } else if Sign32(x) != 1 && Sign32(y) != 1 {
      RoundingMonotone(Magnitude32(x), h, Magnitude32(y), k);
      if h < k { HalfIncreasing(h, k); }
    } else if Sign32(x) != 1 {
      ExactRounds(0);
      RoundingMonotone(Magnitude32(x), h, 0, 0);
      RoundingMonotone(Magnitude32(y), k, 0, 0);
    }
  }

  /** A magnitude that a half can represent is rounded to that half. */
  lemma ExactRounds(h: nat)
    requires h <= INFINITY16
    ensures RoundsTo(Magnitude16(h), h)
  {
    hide Magnitude16, Ulp16, OverflowBound;
    if h < INFINITY16 {
      HalfStep(h);
      BracketRounds(Magnitude16(h), h, h);
    } else {
      LargestFinite();
    }
  }

  /** Any float32 that equals a half in value converts to that half and to nothing else. */
  lemma WidenedHalfReturns(x: Bits32, r: Bits16, h: nat)
    requires !IsNaN32(x) && ConvertsTo(x, r)
    requires h <= INFINITY16 && Magnitude32(x) == Magnitude16(h)
    ensures r == Sign32(x) * 0x8000 + h
  {
    hide Magnitude16, Magnitude32, RoundsTo;
    ExactRounds(h);
    RoundingMonotone(Magnitude32(x), Unsigned16(r), Magnitude16(h), h);
    RoundingMonotone(Magnitude16(h), h, Magnitude32(x), Unsigned16(r));
  }

  function TopBit(m: nat): (p: nat)
    requires m >= 1
    ensures Pow2(p) <= m < 2 * Pow2(p)
  {
    if m == 1 then 0 else 1 + TopBit(m / 2)
  }

  function NormalizedMantissa(m: nat, p: nat): nat
    requires Pow2(p) <= m
  {
    var rest: nat := m - Pow2(p);
    rest * (if p < 23 then Pow2(23 - p) else 1)
  }

  /** The float32 with the value of the finite half h: subnormal halves are normal floats. */
  function Widen(h: nat): nat
    requires h < INFINITY16
  {
    var e, m := h / 0x400, h % 0x400;
    if e > 0 then (e + 112) * 0x80_0000 + m * 0x2000
    else if m == 0 then 0
    else
      var p := TopBit(m);
      (p + 103) * 0x80_0000 + NormalizedMantissa(m, p)
  }

  lemma WidenExact(h: nat)
    requires h < INFINITY16
    ensures Widen(h) < 0x8000_0000
    ensures Magnitude32(Widen(h)) == Magnitude16(h) && !IsNaN32(Widen(h))
  {
    hide Magnitude32;
    var e, m := h / 0x400, h % 0x400;
    if e > 0 {
      Fields(e + 112, m * 0x2000);
      NormalUnit(h, e, m);
      Regroup(0x400 + m, 0x2000, Pow2(e + 111));
    } else if m > 0 {
      WidenSubnormal(m, TopBit(m));
    } else {
      assert Widen(h) == 0;
      ZeroFloat();
    }
  }

  lemma ZeroFloat()
    ensures Magnitude32(0) == 0 && Magnitude16(0) == 0 && !IsNaN32(0)
  {}

  lemma Regroup(a: nat, b: nat, c: nat)
    ensures a * b * c == a * (b * c)
  {}

  lemma Fields(e: nat, mant: nat)
    requires 1 <= e < 0xFF && mant < 0x80_0000
    ensures e * 0x80_0000 + mant < 0x8000_0000
    ensures Magnitude32(e * 0x80_0000 + mant) == (0x80_0000 + mant) * Pow2(e - 1)
    ensures !IsNaN32(e * 0x80_0000 + mant)
  {
    hide Pow2;
    var x := e * 0x80_0000 + mant;
    assert x / 0x80_0000 == e && x % 0x80_0000 == mant;
  }

  lemma WidenSubnormal(m: nat, p: nat)
    requires 1 <= m < 0x400 && p == TopBit(m)
    ensures p < 10 && Widen(m) < 0x8000_0000
    ensures Magnitude32(Widen(m)) == m * Pow2(125) && !IsNaN32(Widen(m))
  {
    hide Magnitude32, TopBit, IsNaN32, Pow2;
    SubnormalTop(m, p);
    var s := Pow2(23 - p);
    var mant := (m - Pow2(p)) * s;
    assert Widen(m) == (p + 103) * 0x80_0000 + mant;
    Fields(p + 103, mant);
    Pow2Add(23 - p, p + 102);
    Regroup(m, s, Pow2(p + 102));
  }

  lemma SubnormalTop(m: nat, p: nat)
    requires 1 <= m < 0x400 && Pow2(p) <= m < 2 * Pow2(p)
    ensures p < 10
    ensures var s := Pow2(23 - p); 0x80_0000 + (m - Pow2(p)) * s == m * s < 0x100_0000
  {
    hide Pow2;
    SmallPowers();
    if p > 10 { Pow2Monotone(10, p); }
    Pow2Add(p, 23 - p);
    Normalized(m, Pow2(p), Pow2(23 - p));
  }

  lemma Normalized(m: nat, t: nat, s: nat)
    requires t * s == 0x80_0000 && t <= m < 2 * t && s >= 1
    ensures 0x80_0000 + (m - t) * s == m * s < 0x100_0000
  {
    ScaleUp(2 * t, m + 1, s, s);
    Expand(m, s);
    assert (m - t) * s == m * s - t * s;
    assert 2 * t * s == 2 * (t * s);
  }
}
